# FuncTimer: a per-task timing registry

This project models the timing utility in `Multiprocessing/utils/FuncTimer.py`. A `FuncTimer` is a scope that measures one unit of work, either a `with` block or a decorated function. When the scope closes, it files the elapsed time under its task name in the module-level dictionary `tasklist`:

- A name seen for the first time gets a fresh `FuncTask` record: one execution, whose total is the interval.
- A known name has its record incremented: one more execution, and the interval added to its total.

`printStat` then lists every task in the dictionary's insertion order, with its average time and its number of executions.

The project has three modules:

- `TaskStats` (`task_stats.dfy`) is the value-level model:
  - the `FuncTask` record with `New`, `Increment` and `GetAverageTime`;
  - the table of records with its first-recorded order;
  - `Recorded`, what one completed scope does to the table;
  - `Report`, the rows `printStat` lists;
  - `Replay`, the table after a whole sequence of measurements, with the lemmas about counts, sums, keys and order.
- `FuncTimer` (`func_timer.dfy`) holds the classes:
  - `Registry`, standing for `tasklist`. It has a `Record` method proved to produce `Recorded`, and a `PrintStat` loop proved to produce `Report`.
  - `FuncTimer`, the timed scope, whose `Exit` computes the interval and records it.
- `FuncTimerExample` (`func_timer_example.dfy`) models the example driver `DecoratorTimer/FuncTimerExample.py`. It times 30 calls of `function_2`, then 10 calls of `function_1`, and proves the report that follows.

Clock readings are parameters of `Enter` and `Exit` and of the driver. Floating-point seconds are modelled as `real`.

## Model

| member | source | states |
|---|---|---|
| TaskStats.FuncTask.New | Multiprocessing/utils/FuncTimer.py:17-20 | a new record keeps the task name, counts one execution and has the interval as its total |
| TaskStats.FuncTask.Increment | Multiprocessing/utils/FuncTimer.py:22-28 | one more execution: the count rises by exactly 1, the total by exactly the interval, the name is kept |
| TaskStats.FuncTask.GetAverageTime | Multiprocessing/utils/FuncTimer.py:30-34 | defined whenever at least one execution is counted; with a non-negative total the average lies between 0 and the total; with one execution it is the total |
| TaskStats.AverageTimesFrequency | Multiprocessing/utils/FuncTimer.py:30-34 | the average times the count gives back the total |
| TaskStats.RecordedEffect | Multiprocessing/utils/FuncTimer.py:56-59 | recording adds at most the recorded name to the keys and leaves every other record unchanged; an absent name gets one execution of the interval and goes last in the order; a present name gains one execution and the interval and keeps its place |
| TaskStats.RecordedWellFormed | Multiprocessing/utils/FuncTimer.py:56-59 | recording keeps the table well formed: order entries distinct and exactly the keys, each record filed under its own name with at least one execution |
| TaskStats.Rows | Multiprocessing/utils/FuncTimer.py:69-70 | one row per given name, in the given order; row i is the i-th name, its record's average time and its record's execution count |
| TaskStats.Report | Multiprocessing/utils/FuncTimer.py:69-70 | one row per name in the table's order, which for a well-formed table is exactly the recorded names; the report is `Rows` of that order, so row i is (name, average, count) of the i-th recorded name |
| TaskStats.ReportListsEachTaskOnce | Multiprocessing/utils/FuncTimer.py:69-70 | no two rows share a name, and a name has a row exactly when it has a record |
| TaskStats.ReportAfterRecord | Multiprocessing/utils/FuncTimer.py:56-70 | recording never moves a row: existing rows keep their names and positions, other tasks' rows are unchanged, and only a new name adds a row |
| TaskStats.ReportAfterFirstRecord | Multiprocessing/utils/FuncTimer.py:56-70 | a first-time name is appended as the last row (name, interval, 1) after the unchanged earlier rows |
| TaskStats.ReportAfterRepeatRecord | Multiprocessing/utils/FuncTimer.py:56-70 | re-recording a known name updates its own row in place with the incremented record's average and count; every other row stays |
| TaskStats.ReplayWellFormed | Multiprocessing/utils/FuncTimer.py:51-59 | every table reached by a sequence of exits is well formed, so every count is at least 1 |
| TaskStats.ReplayKeys | Multiprocessing/utils/FuncTimer.py:56-57 | a name has a record exactly when some exit was recorded under it |
| TaskStats.ReplayStats | Multiprocessing/utils/FuncTimer.py:51-59 | each record holds the number of exits under its name and the sum of their intervals |
| TaskStats.ReplayNonNegative | Multiprocessing/utils/FuncTimer.py:52-59 | with non-negative intervals, each record's count is at least 1 and its total and average are non-negative |
| TaskStats.ReplayOneName | Multiprocessing/utils/FuncTimer.py:56-59 | after n > 0 exits under one name, it is the only key and the only row name, with count n and total e1 + ... + en |
| TaskStats.ReplayOrderMembers | Multiprocessing/utils/FuncTimer.py:56-57 | the order lists exactly the names under which something was recorded |
| TaskStats.ReplayOrder | Multiprocessing/utils/FuncTimer.py:56-70 | the report order is first-recorded order: a name listed earlier was first recorded earlier |
| TaskStats.ReportOfTwoTasks | Multiprocessing/utils/FuncTimer.py:56-70 | two distinct names recorded once each report in recording order with their intervals and count 1 |
| TaskStats.ReportOfRepeatedFirst | Multiprocessing/utils/FuncTimer.py:56-70 | re-recording the first of two once-recorded tasks keeps it first with average (x + z) / 2 over 2 executions |
| TaskStats.ReportExample | Multiprocessing/utils/FuncTimer.py:56-70 | a, b, a taking x, y, z report a first with average (x + z) / 2 and count 2, then b with y and count 1 |
| FuncTimer.Registry.constructor | Multiprocessing/utils/FuncTimer.py:8 | the registry starts empty and well formed |
| FuncTimer.Registry.Record | Multiprocessing/utils/FuncTimer.py:56-59 | inserts a new record or increments the existing one; the new state is `Recorded` of the old one and stays well formed |
| FuncTimer.Registry.PrintStat | Multiprocessing/utils/FuncTimer.py:61-71 | the loop over the names in insertion order yields exactly `Report` of the registry |
| FuncTimer.FuncTimer.constructor | Multiprocessing/utils/FuncTimer.py:42-44 | a scope for the given task name, not yet entered |
| FuncTimer.FuncTimer.Enter | Multiprocessing/utils/FuncTimer.py:46-49 | the start time is the clock reading at entry; nothing else changes |
| FuncTimer.FuncTimer.Exit | Multiprocessing/utils/FuncTimer.py:51-59 | the scope stays entered with its start time, the end time is the reading at exit, the interval is end minus start, and the registry records that interval under the scope's name |
| FuncTimerExample.ElapsedNonNegative | Multiprocessing/utils/FuncTimer.py:52-53 | scopes that close no earlier than they open have a non-negative total elapsed time |
| FuncTimerExample.TimedCall | DecoratorTimer/FuncTimerExample.py:7-19 | a call timed as a `with` block or a decorated function records end minus start under its name |
| FuncTimerExample.Timings | DecoratorTimer/FuncTimerExample.py:22-25 | one measurement per pair of readings, the i-th being the task name and exit minus entry of the i-th call |
| FuncTimerExample.CallsReplay | Multiprocessing/utils/FuncTimer.py:51-59 | timing calls after a run of measurements gives the table of that run extended by the calls' measurements, so every `Replay` lemma applies to timed calls |
| FuncTimerExample.CallsWellFormed | DecoratorTimer/FuncTimerExample.py:22-25 | repeated timed calls keep the table well formed |
| FuncTimerExample.CallsOfNewTask | DecoratorTimer/FuncTimerExample.py:22-25 | n > 0 calls of a task not yet traced append it last, with count n and the calls' total time, and leave other tasks untouched |
| FuncTimerExample.TimedCallAt | DecoratorTimer/FuncTimerExample.py:22-25 | one iteration of the driver loop: after the calls at the earlier readings, timing the call at reading i gives the table of the calls up to and including i |
| FuncTimerExample.CallRepeatedly | DecoratorTimer/FuncTimerExample.py:22-25 | the driver loop records one timed call per pair of clock readings |
| FuncTimerExample.ExampleTable | DecoratorTimer/FuncTimerExample.py:22-25 | calls of one task and then another on an empty registry leave both, in calling order, with their counts and totals |
| FuncTimerExample.ExampleReport | DecoratorTimer/FuncTimerExample.py:21-27 | the report lists the first task's row, then the second's, each with its mean elapsed time and number of calls |
| FuncTimerExample.TwoTaskReport | Multiprocessing/utils/FuncTimer.py:69-70 | a two-task registry reports the first recorded task, then the other, each with its average and count |
| FuncTimerExample.TimeTwoTasks | DecoratorTimer/FuncTimerExample.py:21-27 | on a fresh registry, the calls of one task and then of another report the first task's row, then the second's, each with the mean of its calls' elapsed times and its number of calls |
| FuncTimerExample.Run | DecoratorTimer/FuncTimerExample.py:21-27 | 30 calls of `function_2`, then 10 of `function_1`, report `function_2` (count 30, mean of its times), then `function_1` (count 10, mean of its times) |

## Left out

- The clock (`time.time()`) is not read; the readings at entry and exit are parameters.
- Logging (`logging.basicConfig` and the `logger.info` lines) has no effect on the registry and is not modelled.
- The console layout of `printStat` (the dashes and the header line) is not modelled. `PrintStat` returns the row sequence instead of printing it.
- `ContextDecorator`, the `with` statement and the decorator form are not modelled as such. Both are the same Enter/Exit pair around the body, and the exit runs on every path. `__exit__` returns nothing, so an exception in the body still propagates after the interval is recorded.
- `__enter__` returns the scope object; `Enter` returns nothing, since the driver never uses that value.
- Floating-point arithmetic is modelled as exact `real` arithmetic, so rounding in the total or the average is not captured.
- FuncTask records are values that `Record` replaces in the map. The source updates each record object in place. Only `tasklist` refers to these objects, so no aliasing is observable; a class over object references was too costly to verify.
- `tasklist` is a module-level global. It is modelled as a `Registry` object that the scope is given when it exits.
- Concurrency is not modelled: the dictionary is unsynchronised, per-process state.
- `DecoratorTimer/utils/ExecTimer.py` and `Multithreading-Multiprocessing/utils/timer.py` keep no aggregated state, and they are not part of this model.
- The driver imports `DecoratorTimer/utils/FuncTimer.py`, which is not part of this model. The driver is modelled against `Multiprocessing/utils/FuncTimer.py`.
- FuncTimerExample.TimedCall: the decorator form builds one shared scope object and re-enters it on every call, whereas the model creates one scope per call. For calls in sequence the registry ends the same. A reused scope would differ for nested or recursive calls, where the inner entry overwrites the shared start time; that case is not modelled.
- The driver's busy loops and prints inside `function_1` and `function_2` are not modelled; only their timing is.
- FuncTimer.FuncTimer.Exit: requires that the scope was entered, since the source fails with an attribute error on an exit without an entry. It does not require `now >= startTime`, because a wall clock can step back. Non-negativity is therefore proved under that hypothesis in `ReplayNonNegative` and `ElapsedNonNegative`.
- TaskStats.FuncTask.GetAverageTime: requires a count of at least 1. The source would divide by zero otherwise, but no record ever reaches count 0, as `ReplayWellFormed` and `Registry.Record` show.
