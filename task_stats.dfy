/** The value-level view of the per-task timing registry: what one task record
    holds, what recording one completed timed scope does to the table of
    records, and what the statistics report lists. */
module TaskStats {

  /** One traced task: its name, how often a timed scope completed under it
      and the sum of the elapsed times (seconds). */
  datatype FuncTask = FuncTask(taskName: string, frequency: int, totalInterval: real)
  {
    /** The record of a task seen for the first time: one execution. */
    static function New(taskName: string, interval: real): (task: FuncTask)
      ensures task.taskName == taskName
      ensures task.frequency == 1 && task.totalInterval == interval
    {
      FuncTask(taskName, 1, interval)
    }

    /** The record after one more execution taking `interval`; the name is kept. */
    function Increment(interval: real): (task: FuncTask)
      ensures task.taskName == taskName
      ensures task.frequency == frequency + 1
      ensures task.totalInterval == totalInterval + interval
    {
      FuncTask(taskName, frequency + 1, totalInterval + interval)
    }

    /** The average runtime. Defined whenever at least one execution was
        recorded, which every record of a registry guarantees. */
    function GetAverageTime(): (r: real)
      requires frequency >= 1
      ensures totalInterval >= 0.0 ==> 0.0 <= r <= totalInterval
      ensures frequency == 1 ==> r == totalInterval
    {
      totalInterval / (frequency as real)
    }
  }

  /** The average spread over all executions gives back the total. */
  lemma AverageTimesFrequency(task: FuncTask)
    requires task.frequency >= 1
    ensures task.GetAverageTime() * (task.frequency as real) == task.totalInterval
  {
  }

  /** One completed measurement: the task name and its elapsed time. */
  type Event = (string, real)

  /** One line of the statistics report: name, average time, number of executions. */
  type Row = (string, real, int)

  /** The registry as a value: the record of every task name and the names in
      the order they were first recorded (the dictionary's insertion order). */
  datatype Table = Table(stats: map<string, FuncTask>, order: seq<string>)

  const Empty: Table := Table(map[], [])

  /** The names in the order are distinct and are exactly the recorded names,
      every record is filed under its own name and counts at least one
      execution. */
  ghost predicate WellFormed(t: Table) {
    && (forall i, j :: 0 <= i < j < |t.order| ==> t.order[i] != t.order[j])
    && (forall i :: 0 <= i < |t.order| ==> t.order[i] in t.stats)
    && (forall k :: k in t.stats ==> k in t.order)
    && (forall k :: k in t.stats ==> t.stats[k].taskName == k && t.stats[k].frequency >= 1)
  }

  /** Recording a measurement of `interval` seconds under `name`: a new name
      gets a fresh record with one execution and is appended to the order; a
      known name has its record incremented and keeps its place. */
  function Recorded(t: Table, name: string, interval: real): Table {
    if name !in t.stats then
      Table(t.stats[name := FuncTask.New(name, interval)], t.order + [name])
    else
      Table(t.stats[name := t.stats[name].Increment(interval)], t.order)
  }

  /** What recording changes: the recorded name joins the keys, a new name
      gets one execution of `interval` and goes last in the order, a known
      name gains one execution and `interval` and keeps its place, and every
      other record is untouched. */
  lemma RecordedEffect(t: Table, name: string, interval: real)
    ensures Recorded(t, name, interval).stats.Keys == t.stats.Keys + {name}
    ensures forall k :: k in t.stats && k != name ==> Recorded(t, name, interval).stats[k] == t.stats[k]
    ensures name !in t.stats ==> Recorded(t, name, interval).stats[name] == FuncTask(name, 1, interval)
    ensures name in t.stats ==>
              Recorded(t, name, interval).stats[name] ==
                FuncTask(t.stats[name].taskName, t.stats[name].frequency + 1, t.stats[name].totalInterval + interval)
    ensures Recorded(t, name, interval).order == if name in t.stats then t.order else t.order + [name]
  {
  }

  /** Recording keeps the table well formed. */
  lemma RecordedWellFormed(t: Table, name: string, interval: real)
    requires WellFormed(t)
    ensures WellFormed(Recorded(t, name, interval))
  {
  }

  /** The report rows for the given names, one per name and in that order:
      the name, its record's average time and its record's execution count. */
  function Rows(names: seq<string>, stats: map<string, FuncTask>): (rows: seq<Row>)
    requires forall n :: n in names ==> n in stats && stats[n].frequency >= 1
    ensures |rows| == |names|
    ensures forall i :: 0 <= i < |names| ==>
              rows[i].0 == names[i] &&
              rows[i].1 == stats[names[i]].GetAverageTime() &&
              rows[i].2 == stats[names[i]].frequency
  {
    if names == [] then []
    else
      var s := stats[names[0]];
      [(names[0], s.GetAverageTime(), s.frequency)] + Rows(names[1..], stats)
  }

  /** The statistics report: every recorded task in first-recorded order with
      its average time and its number of executions. */
  function Report(t: Table): (rows: seq<Row>)
    requires WellFormed(t)
    ensures |rows| == |t.order|
  {
    Rows(t.order, t.stats)
  }

  /** The report names each recorded task exactly once, and no other name. */
  lemma ReportListsEachTaskOnce(t: Table)
    requires WellFormed(t)
    ensures forall i, j :: 0 <= i < j < |Report(t)| ==> Report(t)[i].0 != Report(t)[j].0
    ensures forall n :: n in t.stats <==> exists i :: 0 <= i < |Report(t)| && Report(t)[i].0 == n
  {
    var rows := Report(t);
    forall n | n in t.stats ensures exists i :: 0 <= i < |rows| && rows[i].0 == n {
      var i :| 0 <= i < |t.order| && t.order[i] == n;
      assert rows[i].0 == n;
    }
  }

  /** Recording never moves a row of the report: every existing row keeps
      its name and its position, the rows of other tasks are unchanged, and
      a known task adds no row. */
  lemma ReportAfterRecord(t: Table, name: string, interval: real)
    requires WellFormed(t)
    ensures WellFormed(Recorded(t, name, interval))
    ensures |Report(Recorded(t, name, interval))| == |Report(t)| + (if name in t.stats then 0 else 1)
    ensures forall i :: 0 <= i < |Report(t)| ==>
              Report(Recorded(t, name, interval))[i].0 == Report(t)[i].0
    ensures forall i :: 0 <= i < |Report(t)| && Report(t)[i].0 != name ==>
              Report(Recorded(t, name, interval))[i] == Report(t)[i]
  {
    RecordedWellFormed(t, name, interval);
    RecordedEffect(t, name, interval);
    var r := Recorded(t, name, interval);
    var before, after := Report(t), Report(r);
    forall i | 0 <= i < |before| && before[i].0 != name ensures after[i] == before[i] {
      assert r.order[i] == t.order[i];
      assert r.stats[t.order[i]] == t.stats[t.order[i]];
    }
  }

  /** Recording a known task again updates its own row in place, with the
      record's new average and execution count, and leaves every other row
      as it was. */
  lemma ReportAfterRepeatRecord(t: Table, name: string, interval: real)
    requires WellFormed(t)
    requires name in t.stats
    ensures WellFormed(Recorded(t, name, interval))
    ensures |Report(Recorded(t, name, interval))| == |Report(t)|
    ensures forall i :: 0 <= i < |Report(t)| ==>
              Report(Recorded(t, name, interval))[i] ==
                if Report(t)[i].0 == name
                then (name, t.stats[name].Increment(interval).GetAverageTime(), t.stats[name].frequency + 1)
                else Report(t)[i]
  {
    ReportAfterRecord(t, name, interval);
    RecordedEffect(t, name, interval);
  }

  /** A task recorded for the first time is appended as the last row, with
      one execution whose time is its average. */
  lemma ReportAfterFirstRecord(t: Table, name: string, interval: real)
    requires WellFormed(t)
    requires name !in t.stats
    ensures WellFormed(Recorded(t, name, interval))
    ensures Report(Recorded(t, name, interval)) == Report(t) + [(name, interval, 1)]
  {
    RecordedWellFormed(t, name, interval);
    var r := Recorded(t, name, interval);
    RowsAppend(t.order, name, r.stats);
    RowsFrame(t.order, t.stats, r.stats);
  }

  /** The rows for one more name are the rows so far and that name's row. */
  lemma {:induction false} RowsAppend(names: seq<string>, name: string, stats: map<string, FuncTask>)
    requires forall n :: n in names ==> n in stats && stats[n].frequency >= 1
    requires name in stats && stats[name].frequency >= 1
    ensures Rows(names + [name], stats)
            == Rows(names, stats) + [(name, stats[name].GetAverageTime(), stats[name].frequency)]
  {
    if names != [] {
      assert (names + [name])[1..] == names[1..] + [name];
      RowsAppend(names[1..], name, stats);
    }
  }

  /** The rows for some names only depend on those names' records. */
  lemma {:induction false} RowsFrame(names: seq<string>, stats: map<string, FuncTask>, stats': map<string, FuncTask>)
    requires forall n :: n in names ==> n in stats && stats[n].frequency >= 1
    requires forall n :: n in names ==> n in stats' && stats'[n] == stats[n]
    ensures Rows(names, stats) == Rows(names, stats')
  {
    if names != [] {
      RowsFrame(names[1..], stats, stats');
    }
  }

  // ---------------------------------------------------------------------
  // A whole run: the table after a sequence of completed measurements.

  /** The table after recording `events` in order, starting from no tasks. */
  function Replay(events: seq<Event>): Table {
    if events == [] then Empty
    else
      var last := events[|events| - 1];
      Recorded(Replay(events[..|events| - 1]), last.0, last.1)
  }

  /** Every table a run produces is well formed. */
  lemma {:induction false} ReplayWellFormed(events: seq<Event>)
    ensures WellFormed(Replay(events))
  {
    if events != [] {
      var last := events[|events| - 1];
      ReplayWellFormed(events[..|events| - 1]);
      RecordedWellFormed(Replay(events[..|events| - 1]), last.0, last.1);
    }
  }

  /** The number of measurements recorded under `name`. */
  function Count(events: seq<Event>, name: string): nat {
    if events == [] then 0
    else Count(events[..|events| - 1], name) + (if events[|events| - 1].0 == name then 1 else 0)
  }

  /** The sum of the measurements recorded under `name`. */
  function Sum(events: seq<Event>, name: string): real {
    if events == [] then 0.0
    else Sum(events[..|events| - 1], name) + (if events[|events| - 1].0 == name then events[|events| - 1].1 else 0.0)
  }

  /** Whether some measurement was recorded under `name`. */
  ghost predicate Occurs(events: seq<Event>, name: string) {
    exists k :: 0 <= k < |events| && events[k].0 == name
  }

  /** The position of the first measurement recorded under `name`. */
  ghost function FirstIndex(events: seq<Event>, name: string): (k: nat)
    requires Occurs(events, name)
    ensures k < |events| && events[k].0 == name
    ensures forall j :: 0 <= j < k ==> events[j].0 != name
  {
    if events[0].0 == name then 0
    else
      var k :| 0 <= k < |events| && events[k].0 == name;
      assert events[1..][k - 1].0 == name;
      1 + FirstIndex(events[1..], name)
  }

  /** A name has a record exactly when some measurement was recorded under it. */
  lemma {:induction false} ReplayKeys(events: seq<Event>)
    ensures forall n :: n in Replay(events).stats <==> Occurs(events, n)
  {
    if events != [] {
      var prefix, last := events[..|events| - 1], events[|events| - 1];
      ReplayKeys(prefix);
      assert events == prefix + [last];
      forall n ensures n in Replay(events).stats <==> Occurs(events, n) {
        OccursAppend(prefix, last, n);
      }
    }
  }

  /** Every task record holds exactly the number and the sum of the
      measurements recorded under its name. */
  lemma {:induction false} ReplayStats(events: seq<Event>)
    ensures forall n :: n in Replay(events).stats ==>
              Replay(events).stats[n] == FuncTask(n, Count(events, n), Sum(events, n))
  {
    ReplayKeys(events);
    if events != [] {
      var prefix, last := events[..|events| - 1], events[|events| - 1];
      ReplayKeys(prefix);
      ReplayStats(prefix);
      var r, t := Replay(prefix), Replay(events);
      assert t == Recorded(r, last.0, last.1);
      forall n | n in t.stats ensures t.stats[n] == FuncTask(n, Count(events, n), Sum(events, n)) {
        if n !in r.stats {
          Unrecorded(prefix, n);
        }
      }
    }
  }

  /** A name occurs in a sequence extended by one measurement when it occurs
      before or is the name of that measurement. */
  lemma OccursAppend(prefix: seq<Event>, last: Event, name: string)
    ensures Occurs(prefix + [last], name) <==> Occurs(prefix, name) || last.0 == name
  {
    var events := prefix + [last];
    if Occurs(events, name) && last.0 != name {
      var k :| 0 <= k < |events| && events[k].0 == name;
      assert prefix[k].0 == name;
    }
    if Occurs(prefix, name) {
      var k :| 0 <= k < |prefix| && prefix[k].0 == name;
      assert events[k].0 == name;
    }
    if last.0 == name {
      assert events[|prefix|].0 == name;
    }
  }

  /** A name under which nothing was recorded has count 0 and sum 0. */
  lemma {:induction false} Unrecorded(events: seq<Event>, name: string)
    requires !Occurs(events, name)
    ensures Count(events, name) == 0 && Sum(events, name) == 0.0
  {
    if events != [] {
      var prefix := events[..|events| - 1];
      OccursAppend(prefix, events[|events| - 1], name);
      assert events == prefix + [events[|events| - 1]];
      Unrecorded(prefix, name);
    }
  }

  /** Non-negative measurements have a non-negative sum. */
  lemma {:induction false} SumNonNegative(events: seq<Event>, name: string)
    requires forall i :: 0 <= i < |events| ==> events[i].1 >= 0.0
    ensures Sum(events, name) >= 0.0
  {
    if events != [] {
      SumNonNegative(events[..|events| - 1], name);
    }
  }

  /** The count kept for a task never reaches zero once recorded, and when all
      measurements are non-negative its total and average are non-negative. */
  lemma ReplayNonNegative(events: seq<Event>)
    requires forall i :: 0 <= i < |events| ==> events[i].1 >= 0.0
    ensures forall n :: n in Replay(events).stats ==>
              Replay(events).stats[n].frequency >= 1 &&
              Replay(events).stats[n].totalInterval >= 0.0 &&
              Replay(events).stats[n].GetAverageTime() >= 0.0
  {
    ReplayKeys(events);
    ReplayStats(events);
    forall n | n in Replay(events).stats ensures Replay(events).stats[n].totalInterval >= 0.0 {
      SumNonNegative(events, n);
    }
  }

  /** The sum of all measurements, whatever their names. */
  function Total(events: seq<Event>): real {
    if events == [] then 0.0 else Total(events[..|events| - 1]) + events[|events| - 1].1
  }

  /** When every measurement is under one name, its count and sum are those
      of the whole sequence. */
  lemma {:induction false} CountSumOneName(events: seq<Event>, name: string)
    requires forall i :: 0 <= i < |events| ==> events[i].0 == name
    ensures Count(events, name) == |events|
    ensures Sum(events, name) == Total(events)
  {
    if events != [] {
      CountSumOneName(events[..|events| - 1], name);
    }
  }

  /** After n > 0 measurements e1..en all recorded under one name, its record
      counts n executions with total e1 + ... + en, and it is the only task. */
  lemma {:induction false} ReplayOneName(events: seq<Event>, name: string)
    requires |events| > 0
    requires forall i :: 0 <= i < |events| ==> events[i].0 == name
    ensures Replay(events).stats.Keys == {name}
    ensures Replay(events).order == [name]
    ensures Replay(events).stats[name] == FuncTask(name, |events|, Total(events))
  {
    ReplayKeys(events);
    ReplayStats(events);
    CountSumOneName(events, name);
    var prefix := events[..|events| - 1];
    if prefix != [] {
      ReplayOneName(prefix, name);
    }
  }

  /** The order lists exactly the names under which something was recorded. */
  lemma ReplayOrderMembers(events: seq<Event>)
    ensures forall n :: n in Replay(events).order <==> Occurs(events, n)
  {
    ReplayWellFormed(events);
    ReplayKeys(events);
  }

  /** The order is the order of first appearance: a name listed earlier was
      first recorded earlier. */
  lemma {:induction false} ReplayOrder(events: seq<Event>)
    ensures forall i :: 0 <= i < |Replay(events).order| ==> Occurs(events, Replay(events).order[i])
    ensures forall i, j :: 0 <= i < j < |Replay(events).order| ==>
              FirstIndex(events, Replay(events).order[i]) < FirstIndex(events, Replay(events).order[j])
  {
    if events != [] {
      var prefix, last := events[..|events| - 1], events[|events| - 1];
      assert events == prefix + [last];
      ReplayOrder(prefix);
      ReplayKeys(prefix);
      FirstIndicesAppend(prefix, last, Replay(prefix).order, Replay(events).order);
    }
  }

  /** Appending one measurement keeps the first-occurrence order of a list of
      names, and a name not seen before occurs first after all of them. */
  lemma FirstIndicesAppend(prefix: seq<Event>, last: Event, names: seq<string>, names': seq<string>)
    requires forall i :: 0 <= i < |names| ==> Occurs(prefix, names[i])
    requires forall i, j :: 0 <= i < j < |names| ==> FirstIndex(prefix, names[i]) < FirstIndex(prefix, names[j])
    requires names' == if Occurs(prefix, last.0) then names else names + [last.0]
    ensures forall i :: 0 <= i < |names'| ==> Occurs(prefix + [last], names'[i])
    ensures forall i, j :: 0 <= i < j < |names'| ==>
              FirstIndex(prefix + [last], names'[i]) < FirstIndex(prefix + [last], names'[j])
  {
    var events := prefix + [last];
    forall i | 0 <= i < |names'| ensures Occurs(events, names'[i]) {
      OccursAppend(prefix, last, names'[i]);
    }
    forall i | 0 <= i < |names|
      ensures Occurs(events, names[i]) && FirstIndex(events, names[i]) == FirstIndex(prefix, names[i])
    {
      FirstIndexOfPrefix(prefix, last, names[i]);
    }
    if !Occurs(prefix, last.0) {
      assert FirstIndex(events, last.0) == |prefix| by {
        assert events[|prefix|].0 == last.0;
        forall m | 0 <= m < |prefix| ensures events[m].0 != last.0 {
          assert events[m] == prefix[m];
        }
      }
    }
  }

  /** A measurement appended at the end does not change where a name that
      already occurs first occurs. */
  lemma FirstIndexOfPrefix(prefix: seq<Event>, last: Event, name: string)
    requires Occurs(prefix, name)
    ensures Occurs(prefix + [last], name)
    ensures FirstIndex(prefix + [last], name) == FirstIndex(prefix, name)
  {
    var events := prefix + [last];
    var k :| 0 <= k < |prefix| && prefix[k].0 == name;
    assert events[k].0 == name;
    var a, b := FirstIndex(events, name), FirstIndex(prefix, name);
    assert events[b].0 == name;
  }

  /** The report after `a` and then `b` are each recorded once. */
  lemma ReportOfTwoTasks(a: string, b: string, x: real, y: real)
    requires a != b
    ensures WellFormed(Recorded(Recorded(Empty, a, x), b, y))
    ensures Report(Recorded(Recorded(Empty, a, x), b, y)) == [(a, x, 1), (b, y, 1)]
  {
    ReportAfterFirstRecord(Empty, a, x);
    ReportAfterFirstRecord(Recorded(Empty, a, x), b, y);
  }

  /** Recording again the first of two tasks recorded once each. */
  lemma ReportOfRepeatedFirst(t: Table, a: string, b: string, x: real, y: real, z: real)
    requires WellFormed(t) && a in t.stats && t.stats[a] == FuncTask(a, 1, x)
    requires Report(t) == [(a, x, 1), (b, y, 1)] && a != b
    ensures WellFormed(Recorded(t, a, z))
    ensures Report(Recorded(t, a, z)) == [(a, (x + z) / 2.0, 2), (b, y, 1)]
  {
    ReportAfterRepeatRecord(t, a, z);
    var rows := Report(Recorded(t, a, z));
    assert rows[0] == (a, (x + z) / 2.0, 2);
    assert rows[1] == (b, y, 1);
  }

  /** Three measurements: `a` taking x, `b` taking y, `a` again taking z
      (for instance 2.0 s, 1.0 s and 4.0 s) report `a` first with average
      (x + z) / 2 over 2 executions, then `b` with y over 1. */
  lemma ReportExample(a: string, b: string, x: real, y: real, z: real)
    requires a != b
    ensures WellFormed(Recorded(Recorded(Recorded(Empty, a, x), b, y), a, z))
    ensures Report(Recorded(Recorded(Recorded(Empty, a, x), b, y), a, z))
            == [(a, (x + z) / 2.0, 2), (b, y, 1)]
  {
    var t := Recorded(Recorded(Empty, a, x), b, y);
    ReportOfTwoTasks(a, b, x, y);
    assert t.stats[a] == FuncTask(a, 1, x);
    ReportOfRepeatedFirst(t, a, b, x, y, z);
  }
}
