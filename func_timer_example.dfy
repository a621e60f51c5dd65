/** The example driver: `function_2` (timed through the decorator form) runs
    30 times, then `function_1` (timed with an explicit scope) runs 10 times,
    then the statistics are reported. Both forms open a scope, run the body
    and close the scope, so both are modelled by the same Enter/Exit pair.
    The clock readings of each run are parameters. */
module FuncTimerExample {
  import opened TaskStats
  import opened FuncTimer

  /** One clock reading at scope entry and one at scope exit. */
  type Reading = (real, real)

  /** The total elapsed time of a sequence of runs. */
  function Elapsed(clock: seq<Reading>): real {
    if clock == [] then 0.0 else Elapsed(clock[..|clock| - 1]) + (clock[|clock| - 1].1 - clock[|clock| - 1].0)
  }

  /** Scopes that never close before they open have a non-negative total. */
  lemma {:induction false} ElapsedNonNegative(clock: seq<Reading>)
    requires forall i :: 0 <= i < |clock| ==> clock[i].0 <= clock[i].1
    ensures Elapsed(clock) >= 0.0
  {
    if clock != [] {
      ElapsedNonNegative(clock[..|clock| - 1]);
    }
  }

  /** Times one call of the task `name`, entered at `start` and left at `end`. */
  method TimedCall(name: string, start: real, end: real, registry: Registry)
    requires registry.Valid()
    modifies registry
    ensures registry.Valid()
    ensures registry.Contents() == Recorded(old(registry.Contents()), name, end - start)
  {
    ghost var before := registry.Contents();
    var timer := new FuncTimer(name);
    timer.Enter(start);
    assert registry.Contents() == before;
    // the timed body runs here; its outcome does not affect the exit
    timer.Exit(end, registry);
    assert timer.taskName == name && timer.interval == end - start;
  }

  /** The table after timing one call of `name` per pair of readings. */
  function Calls(t: Table, name: string, clock: seq<Reading>): Table {
    if clock == [] then t
    else
      var last := clock[|clock| - 1];
      Recorded(Calls(t, name, clock[..|clock| - 1]), name, last.1 - last.0)
  }

  /** The measurements the calls of `name` produce: one per pair of readings,
      each the exit reading minus the entry reading. */
  function Timings(name: string, clock: seq<Reading>): (events: seq<Event>)
    ensures |events| == |clock|
    ensures forall i :: 0 <= i < |clock| ==> events[i] == (name, clock[i].1 - clock[i].0)
  {
    if clock == [] then []
    else Timings(name, clock[..|clock| - 1]) + [(name, clock[|clock| - 1].1 - clock[|clock| - 1].0)]
  }

  /** Timing calls after a run of measurements is the run extended by the
      calls' measurements: `Calls` is `Replay` continued. */
  lemma {:induction false} CallsReplay(events: seq<Event>, name: string, clock: seq<Reading>)
    ensures Calls(Replay(events), name, clock) == Replay(events + Timings(name, clock))
  {
    if clock == [] {
      assert events + Timings(name, clock) == events;
    } else {
      var prefix := clock[..|clock| - 1];
      var last := (name, clock[|clock| - 1].1 - clock[|clock| - 1].0);
      CallsReplay(events, name, prefix);
      var run := events + Timings(name, prefix);
      assert events + Timings(name, clock) == run + [last];
      assert (run + [last])[..|run|] == run;
    }
  }

  /** Timing the calls of a prefix and then one more call. */
  lemma CallsStep(t: Table, name: string, clock: seq<Reading>, i: nat)
    requires i < |clock|
    ensures Calls(t, name, clock[..i + 1]) == Recorded(Calls(t, name, clock[..i]), name, clock[i].1 - clock[i].0)
  {
    assert clock[..i + 1][..i] == clock[..i];
  }

  /** Timing calls keeps the table well formed. */
  lemma {:induction false} CallsWellFormed(t: Table, name: string, clock: seq<Reading>)
    requires WellFormed(t)
    ensures WellFormed(Calls(t, name, clock))
  {
    if clock != [] {
      var prefix, last := clock[..|clock| - 1], clock[|clock| - 1];
      CallsWellFormed(t, name, prefix);
      RecordedWellFormed(Calls(t, name, prefix), name, last.1 - last.0);
    }
  }

  /** Repeated calls of a task not traced before make it the last task of the
      table, with one execution per call and the calls' total time, and leave
      the other tasks untouched. */
  lemma {:induction false} CallsOfNewTask(t: Table, name: string, clock: seq<Reading>)
    requires name !in t.stats && |clock| > 0
    ensures Calls(t, name, clock).order == t.order + [name]
    ensures Calls(t, name, clock).stats.Keys == t.stats.Keys + {name}
    ensures forall k :: k in t.stats ==> Calls(t, name, clock).stats[k] == t.stats[k]
    ensures Calls(t, name, clock).stats[name] == FuncTask(name, |clock|, Elapsed(clock))
  {
    var prefix := clock[..|clock| - 1];
    if prefix != [] {
      CallsOfNewTask(t, name, prefix);
    }
  }

  /** Times the call of `name` at the `i`-th pair of readings, after the
      calls at the pairs before it. */
  method TimedCallAt(name: string, clock: seq<Reading>, i: nat, ghost before: Table, registry: Registry)
    requires i < |clock| && registry.Valid()
    requires registry.Contents() == Calls(before, name, clock[..i])
    modifies registry
    ensures registry.Valid()
    ensures registry.Contents() == Calls(before, name, clock[..i + 1])
  {
    CallsStep(before, name, clock, i);
    TimedCall(name, clock[i].0, clock[i].1, registry);
  }

  /** Calls a task once per pair of clock readings in `clock`. */
  method CallRepeatedly(name: string, clock: seq<Reading>, registry: Registry)
    requires registry.Valid()
    modifies registry
    ensures registry.Valid()
    ensures registry.Contents() == Calls(old(registry.Contents()), name, clock)
  {
    ghost var before := registry.Contents();
    var i := 0;
    while i < |clock|
      invariant 0 <= i <= |clock|
      invariant registry.Valid()
      invariant registry.Contents() == Calls(before, name, clock[..i])
    {
      TimedCallAt(name, clock, i, before, registry);
      i := i + 1;
    }
    assert clock[..|clock|] == clock;
  }

  /** Times the calls of one task, then those of another, on a fresh
      registry, and reports: the first task's row, then the second's, each
      with the mean of its calls' elapsed times and its number of calls. */
  method TimeTwoTasks(first: string, second: string, clock2: seq<Reading>, clock1: seq<Reading>)
    returns (rows: seq<Row>)
    requires first != second && |clock2| > 0 && |clock1| > 0
    ensures rows == [(first, Elapsed(clock2) / (|clock2| as real), |clock2|),
                     (second, Elapsed(clock1) / (|clock1| as real), |clock1|)]
  {
    var registry := new Registry();
    CallRepeatedly(first, clock2, registry);
    CallRepeatedly(second, clock1, registry);
    rows := registry.PrintStat();
    ExampleReport(first, second, clock2, clock1);
  }

  /** The report after 30 runs of `function_2` and 10 of `function_1`:
      `function_2` first with count 30, then `function_1` with count 10,
      each with its mean elapsed time. */
  method Run(clock2: seq<Reading>, clock1: seq<Reading>) returns (rows: seq<Row>)
    requires |clock2| == 30 && |clock1| == 10
    ensures rows == [("function_2", Elapsed(clock2) / 30.0, 30), ("function_1", Elapsed(clock1) / 10.0, 10)]
  {
    assert "function_2" != "function_1";
    rows := TimeTwoTasks("function_2", "function_1", clock2, clock1);
    assert rows[0] == (rows[0].0, rows[0].1, rows[0].2);
    assert rows[0].1 == Elapsed(clock2) / 30.0 && rows[0].2 == 30;
    assert rows[1].1 == Elapsed(clock1) / 10.0 && rows[1].2 == 10;
  }

  /** The table after the calls of two tasks, one after the other, on an
      empty registry: both in calling order, each with one execution per call
      and the total time of its calls. */
  lemma ExampleTable(first: string, second: string, clock2: seq<Reading>, clock1: seq<Reading>)
    requires first != second && |clock2| > 0 && |clock1| > 0
    ensures Calls(Calls(Empty, first, clock2), second, clock1).order == [first, second]
    ensures Calls(Calls(Empty, first, clock2), second, clock1).stats.Keys == {first, second}
    ensures Calls(Calls(Empty, first, clock2), second, clock1).stats[first] == FuncTask(first, |clock2|, Elapsed(clock2))
    ensures Calls(Calls(Empty, first, clock2), second, clock1).stats[second] == FuncTask(second, |clock1|, Elapsed(clock1))
  {
    CallsOfNewTask(Empty, first, clock2);
    CallsOfNewTask(Calls(Empty, first, clock2), second, clock1);
  }

  /** The report after the calls of two tasks, one after the other, on an
      empty registry: the first task's row, then the second's, each with the
      mean of its calls' elapsed times and its number of calls. */
  lemma ExampleReport(first: string, second: string, clock2: seq<Reading>, clock1: seq<Reading>)
    requires first != second && |clock2| > 0 && |clock1| > 0
    ensures WellFormed(Calls(Calls(Empty, first, clock2), second, clock1))
    ensures Report(Calls(Calls(Empty, first, clock2), second, clock1))
            == [(first, Elapsed(clock2) / (|clock2| as real), |clock2|),
                (second, Elapsed(clock1) / (|clock1| as real), |clock1|)]
  {
    ExampleTable(first, second, clock2, clock1);
    TwoTaskReport(Calls(Calls(Empty, first, clock2), second, clock1), first, second);
  }

  /** The report of a registry holding two tasks lists the first recorded
      one, then the other, each with its average and its count. */
  lemma TwoTaskReport(t: Table, a: string, b: string)
    requires a != b && t.order == [a, b] && t.stats.Keys == {a, b}
    requires t.stats[a].taskName == a && t.stats[a].frequency >= 1
    requires t.stats[b].taskName == b && t.stats[b].frequency >= 1
    ensures WellFormed(t)
    ensures Report(t) == [(a, t.stats[a].GetAverageTime(), t.stats[a].frequency),
                          (b, t.stats[b].GetAverageTime(), t.stats[b].frequency)]
  {
    var rows := Report(t);
    assert rows[0] == (a, t.stats[a].GetAverageTime(), t.stats[a].frequency);
    assert rows[1] == (b, t.stats[b].GetAverageTime(), t.stats[b].frequency);
  }
}
