# pybench counting core, in Dafny

`bench.py` is a micro-benchmark that compares thread-backed with
process-backed workers. `allocate_work` splits the range `[0, work_size)`
into `n_workers` slices of `work_unit = work_size / n_workers` values each
(Python 2 floor division; the remainder is dropped). Worker `wid` takes the
slice `[wid * work_unit, wid * work_unit + work_unit)`. Its task walks the
slice and appends every even number to a list. It leaves early when its
stop flag is raised by the SIGINT handler, or when `--max-time` is positive
and the clock has passed the common deadline. `main` reads each
worker's count in worker order and reports `2 * sum(result)` as the total.

The model has four modules:

- `Partition` (`partition.dfy`): floor division, `work_unit` with its
  division-by-zero error, the slice of each worker, and the tiling lemmas.
- `Counting` (`counting.dfy`): the counting loop `Worker.task` as an
  imperative method over a list object. It is proved against the functions
  `Evens` (the ascending evens of a range) and `Iterations`/`Steps` (how many
  iterations a run performs). The stop predicate and the clock are oracles:
  `stop(i)` is the flag's value at the `i`-th evaluation of the loop
  condition, and `clock(i)` is the time read after the `i`-th iteration.
- `Workers` (`workers.dfy`): `ThreadWorker` and `ProcessWorker` as classes.
  The thread-backed worker counts into the list it shares with the
  controller. The process-backed worker counts into a fresh list and puts it
  on a queue, which `print_result` reads.
- `Benchmark` (`benchmark.dfy`): `main`'s build/start/collect sequence for
  either kind of worker, proved equal to the specification function
  `Expected`, plus lemmas about the reported total.

Thread-backed workers share one `threading.Event` as their stop flag
(bench.py:38, 47-51). Each process-backed worker has its own copy of
`ProcessWorker.stopper` (bench.py:82, 92-97). That copy is set only when
that process handles SIGINT itself, for example when Ctrl-C reaches the whole
foreground process group. The controller's handler never reaches a child.
The workers share nothing else, so they are run one after another. Either
way, worker `w` sees its flag and the clock through its own oracle
`oracles(w)`, and any interleaving of the real run gives each worker some
such view.

`Benchmark.RunBenchmark` raises the zero-work-size error only after every
worker has run and been read, as `main` does.

`Workers.ThreadWorker.Result` models `print_result` of a thread-backed worker
(bench.py:65-66). Its body, the length of the worker's list, is its
definition, so it has no row below. `Benchmark.StartThreadWorkers` states its
value after a run. Three more functions have no row for the same reason:

- `Counting.Deadline` is `end_time = Worker.start_time + timeout`
  (bench.py:25).
- `Benchmark.Total` is the reported total `2 * sum(result)` (bench.py:184).
  `Benchmark.RunBenchmark` computes it and `Benchmark.TotalAtMost` and
  `Benchmark.UninterruptedTotal` bound it.
- `Counting.IterationsAsWritten` is the loop of bench.py:26-33 exactly as
  written, with the condition `n != end`, run for at most `fuel` iterations.
  `Counting.AsWrittenAgrees` and `Counting.AsWrittenNeverExits` state what
  it does, and the finding below rests on it.

## Model

| member | source | states |
|---|---|---|
| `Partition.FloorDiv` | bench.py:140 | The quotient is the floor of `a / b` for either sign of the divisor, as Python 2 integer `/` computes it |
| `Partition.WorkUnit` | bench.py:136-140 | No workers is a division-by-zero error. With `n_workers > 0` the slices cover `n_workers * work_unit <= work_size` values and the dropped tail is shorter than `n_workers`. A non-negative work size gives a non-negative unit |
| `Partition.SliceOf` | bench.py:20-21 | Worker `wid`'s slice starts at `wid * job_size` and holds exactly `job_size` values |
| `Partition.Slices` | bench.py:149-152 | `range(0, n_workers)` builds one slice per worker, and none when `n_workers <= 0` |
| `Partition.SlicesContiguous` | bench.py:20-21 | Worker `i`'s `end` is worker `i + 1`'s `begin` |
| `Partition.SlicesDisjoint` | bench.py:20-21 | Two different workers never share a value |
| `Partition.SlicesCover` | bench.py:149-152 | A value lies in `[0, n_workers * work_unit)` if and only if some worker's slice holds it |
| `Partition.SlicesTotalLength` | bench.py:136-152 | The slice lengths add up to `n_workers * work_unit`, which falls short of `work_size` by fewer than `n_workers` values |
| `Counting.EvensMembership` | bench.py:26-29 | A value is among the evens of `[lo, hi)` if and only if it is even and lies in the range |
| `Counting.EvensAscending` | bench.py:26-29 | The evens are listed in strictly increasing order, as the loop appends them |
| `Counting.EvensCount` | bench.py:26-29 | `[lo, hi)` holds `(hi+1)/2 - (lo+1)/2` (floor) evens |
| `Counting.EvensSplit` | bench.py:26-29 | Splitting a range at `mid` concatenates the evens of the two parts |
| `Counting.EvensZeroToTen` | bench.py:26-29 | `[0, 10)` yields exactly `0, 2, 4, 6, 8` |
| `Counting.Iterations` | bench.py:24-33 | A run never does more iterations than the range has values, and none on an empty range |
| `Counting.Task` | bench.py:24-33 | The loop changes only `ret`. It appends the evens of the first `Steps` values of `[begin, end)` after the list's old contents |
| `Counting.AppendedIsPrefix` | bench.py:26-33 | Whatever the oracles do, what is appended is a prefix of the ascending evens of the slice: even, inside `[begin, end)`, strictly increasing |
| `Counting.IterationsUninterrupted` | bench.py:26-29 | With the flag never raised and no timeout, the loop visits every value of the range |
| `Counting.UninterruptedRun` | bench.py:24-29 | With the flag never raised and no timeout, the task appends exactly the evens of `[begin, end)`, `(end+1)/2 - (begin+1)/2` of them |
| `Counting.StoppedOnEntry` | bench.py:26 | A flag raised at the first check, or an empty range, means no iteration and nothing appended |
| `Counting.DeadlineAlreadyPassed` | bench.py:30-33 | With `timeout > 0` and the first clock reading past the deadline, at most one iteration runs and at most one value is appended |
| `Counting.ClockIgnoredWithoutTimeout` | bench.py:30-32 | With `timeout <= 0` the clock is never consulted: runs that differ only in their clocks do the same iterations |
| `Counting.AsWrittenAgrees` | bench.py:26 | When `n <= end`, the source's condition `n != end` gives the same run as the model's `n < end` |
| `Counting.AsWrittenNeverExits` | bench.py:26-29 | When `n > end`, with no stop flag and no timeout, the source's loop never exits |
| `Workers.ResultQueue.Put` | bench.py:89 | `put` adds the list at the back of the queue |
| `Workers.ResultQueue.Get` | bench.py:110 | `get` removes and returns the oldest list |
| `Workers.ThreadWorker.constructor` | bench.py:14-21 | A new worker has the slice of its id and a fresh empty list |
| `Workers.ThreadWorker.Task` | bench.py:41-43 | The thread task runs the counting loop on the list it is given |
| `Workers.ThreadWorker.Start` | bench.py:68-71 | Running the thread appends the slice's collected evens to the worker's own list |
| `Workers.ProcessWorker.constructor` | bench.py:104-107 | A new worker has the slice of its id and a fresh empty queue |
| `Workers.ProcessWorker.Task` | bench.py:85-89 | The process task counts into a fresh empty list, so the one list it puts holds only this run's evens |
| `Workers.ProcessWorker.Start` | bench.py:113-116 | Running the process puts exactly one list on the worker's queue: the evens of its slice that the run collected |
| `Workers.ProcessWorker.Result` | bench.py:109-111 | `print_result` consumes the oldest queued list and returns its length |
| `Benchmark.Counts` | bench.py:178 | `result` holds one count per worker, in worker order |
| `Benchmark.Expected` | bench.py:140-184 | A run fails with ZeroDivisionError if and only if there are no workers (`work_size / n_workers`) or the work size is zero (the report's percentages divide by `work_size`). Otherwise it reports one count per worker |
| `Benchmark.RunBenchmark` | bench.py:157-184 | A whole run reports `Expected`. Threads and processes report the same |
| `Benchmark.RunThreadWorkers` | bench.py:149-178 | Building, starting and reading thread-backed workers (each count read with `ThreadWorker.Result`, the length of its list) yields the worker counts in order |
| `Benchmark.AllocateThreadWorkers` | bench.py:149-150 | Worker `k` gets id `k`, the slice of `k` and an empty list, and no two workers share a list |
| `Benchmark.StartThreadWorkers` | bench.py:173-174 | Once every thread has run, worker `k`'s list holds exactly the evens its task collected from its slice, so its length is the worker's count. Nothing but the workers' lists changes |
| `Benchmark.RunProcessWorkers` | bench.py:152-178 | Building, starting and reading process-backed workers yields the worker counts in order |
| `Benchmark.AllocateProcessWorkers` | bench.py:151-152 | Worker `k` gets id `k`, the slice of `k` and an empty queue, and no two workers share a queue |
| `Benchmark.StartProcessWorkers` | bench.py:173-174 | Once every process has run, worker `k`'s queue holds exactly one list: the evens its task collected from its slice. Its length is the worker's count |
| `Benchmark.WorkerCountAtMost` | bench.py:178 | A worker never reports more than the evens of its own slice |
| `Benchmark.UninterruptedWorkerCount` | bench.py:178 | With no interrupt and no timeout, a worker reports every even of its slice |
| `Benchmark.SumOfCountsAtMost` | bench.py:178-184 | The first `m` workers together count at most the evens of `[0, m * work_unit)` |
| `Benchmark.SumOfCountsUninterrupted` | bench.py:178-184 | With no interrupt and no timeout, the first `m` workers together count exactly the evens of `[0, m * work_unit)` |
| `Benchmark.TotalAtMost` | bench.py:184 | With a positive work size and at least one worker, the run completes. Whatever the flag and clock do, the total is at most `c + c % 2`, where `c = n_workers * work_unit <= work_size` |
| `Benchmark.UninterruptedTotal` | bench.py:184 | With a positive work size, at least one worker, no interrupt and no timeout, the run completes and the total is twice the evens of `[0, c)`, that is `c + c % 2` |
| `Benchmark.FourWorkersOf400` | bench.py:140-184 | Four workers on a work size of 400 report 50 each and a total of 400 |
| `Benchmark.NegativeUnit` | bench.py:140 | A negative work size with at least one worker gives a negative work unit |
| `Benchmark.NegativeWorkSizeHangs` | bench.py:26 | With the source's condition, a negative work size gives every worker a slice with `begin > end`. With no interrupt and `--max-time 0` that loop never exits |
| `Benchmark.NegativeWorkSizeFinishes` | bench.py:136-184 | With the condition `n < end`, a negative work size completes: every worker reports 0 and so does the total |

## Left out

- Threads, processes, `start`/`is_alive` and the instance registries (bench.py:38-39, 62, 68-77, 83, 113-122): concurrency and foreign runtime calls. Starting a worker is modelled as running its task to the end.
- `wait_till_active` (bench.py:53-58, 99-102): a busy-poll wait with no sequential content. The model reads results after every worker has run.
- The SIGINT handler and `stop`/`is_stopped` (bench.py:45-51, 82, 91-97, 162-171): signalling between threads, and signal delivery to each process. Each worker's flag value is its own `stop` oracle. That oracle is not required to be one-way (false then true), so the results hold for any flag behaviour.
- `time.time()` and `Worker.start_time` (bench.py:12, 31, 148, 179): the start time is a parameter and clock readings are the `clock` oracle. Times are `real`.
- The elapsed time, the float percentages and `round` (bench.py:179, 183-185): floating-point reporting. Only their division by a zero `work_size`, which raises, is modelled (`Benchmark.Expected`).
- `argparse` and every `print` (bench.py:124-134, 143-146, 154, 181-185): I/O.
- `Workers.ResultQueue.Get`: requires a non-empty queue. The source's `get` blocks forever on an empty queue, for example after a crashed process; that case is not modelled.
- The loop uses the condition `n < end` rather than the source's `n != end`. The two agree whenever `begin <= end` (`Counting.AsWrittenAgrees`); see Findings for the other case. When `begin > end`, the source's loop does exit if `--max-time` is positive and the deadline passes, or if the stop flag is raised. The worker then reports the evens counted upward from `begin`, past its slice: worker 0 of `--workers 2 --work-size -8` counts 0, 2, 4, and so on. The model reports 0 for that worker.
- The code drops the remainder `work_size - n_workers * work_unit`: no worker gets it (`Partition.SlicesTotalLength`).

## Findings

| source | as written | input that shows it | evidently intended | confidence | as-written member | corrected member |
|---|---|---|---|---|---|---|
| bench.py:26 | The loop runs while `n != end`, and `n` only grows | `--thread --workers 2 --work-size -8`: `work_unit` is `-4`, worker 0 gets `begin 0`, `end -4`, and with the default `--max-time 0` it never stops until interrupted | The loop stops at the end of the slice (`n < end`), so a negative work size finishes with zero work | medium, not executed | `Counting.IterationsAsWritten`, `Benchmark.NegativeWorkSizeHangs` | `Benchmark.NegativeWorkSizeFinishes` |
