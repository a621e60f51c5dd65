/** The timing classes: the registry of task records keyed by task name, and
    the timed scope that measures one unit of work and reports it to the
    registry when it closes. The clock is not read here: entry and exit are
    given the time as a parameter. */
module FuncTimer {
  import opened TaskStats

  /** The table of traced tasks. A Python dict keeps its keys in insertion
      order; `order` holds that order explicitly. A record is
      held as a value and replaced on every update. */
  class Registry {
    var tasks: map<string, FuncTask>
    var order: seq<string>

    /** The registry as a value. */
    function Contents(): Table
      reads this
    {
      Table(tasks, order)
    }

    /** The names, their order and the counts are well formed. */
    ghost predicate Valid()
      reads this
    {
      WellFormed(Contents())
    }

    /** An empty registry: no task traced yet. */
    constructor ()
      ensures Valid() && Contents() == Empty
    {
      tasks := map[];
      order := [];
    }

    /** Records one completed measurement of `interval` seconds under `name`:
        a new name gets a fresh record appended to the order, a known name
        has its record incremented. */
    method Record(name: string, interval: real)
      requires Valid()
      modifies this
      ensures Valid()
      ensures Contents() == Recorded(old(Contents()), name, interval)
    {
      RecordedWellFormed(Contents(), name, interval);
      if name !in tasks {
        tasks := tasks[name := FuncTask.New(name, interval)];
        order := order + [name];
      } else {
        tasks := tasks[name := tasks[name].Increment(interval)];
      }
    }

    /** The statistics report: one row per traced task, in first-traced
        order, with its average runtime and its number of executions. */
    method PrintStat() returns (rows: seq<Row>)
      requires Valid()
      ensures rows == Report(Contents())
    {
      rows := [];
      var i := 0;
      while i < |order|
        invariant 0 <= i <= |order|
        invariant |rows| == i
        invariant forall j :: 0 <= j < i ==>
                    rows[j] == (order[j], tasks[order[j]].GetAverageTime(), tasks[order[j]].frequency)
      {
        var task := tasks[order[i]];
        rows := rows + [(order[i], task.GetAverageTime(), task.frequency)];
        i := i + 1;
      }
    }
  }

  /** A timed scope for one task name, used around a block or a function
      call. Its exit runs on every path out of the scope, normal or not. */
  class FuncTimer {
    const taskName: string
    var startTime: real
    var endTime: real
    var interval: real
    /** Whether the scope was entered; the exit reads the start time. */
    ghost var entered: bool

    constructor (taskName: string)
      ensures this.taskName == taskName && !entered
    {
      this.taskName := taskName;
      entered := false;
    }

    /** Opens the scope at clock reading `now`. */
    method Enter(now: real)
      modifies this
      ensures entered && startTime == now
      ensures endTime == old(endTime) && interval == old(interval)
    {
      startTime := now;
      entered := true;
    }

    /** Closes the scope at clock reading `now` and records the elapsed time
        under the scope's task name. */
    method Exit(now: real, registry: Registry)
      requires entered && registry.Valid()
      modifies this, registry
      ensures entered && startTime == old(startTime) && endTime == now
      ensures interval == now - startTime
      ensures registry.Valid()
      ensures registry.Contents() == Recorded(old(registry.Contents()), taskName, interval)
    {
      endTime := now;
      interval := endTime - startTime;
      registry.Record(taskName, interval);
    }
  }
}
