/** `allocate_work` and `main`: build `n_workers` workers over slices of
    `work_unit` values, run them all, read each worker's count in
    construction order and report the total `2 * sum(result)`.

    Thread-backed workers share one stop flag; each process-backed worker
    reads its own copy, set only when that process handles SIGINT. The
    workers share nothing else, so they are run here one after another.
    How its flag and the clock look to worker `w` is the oracle
    `oracles(w)`, which covers every interleaving of the real run. */
module Benchmark {
  import opened Partition
  import opened Counting
  import opened Workers

  function Sum(xs: seq<int>): (total: int)
  {
    if xs == [] then 0 else Sum(xs[..|xs| - 1]) + xs[|xs| - 1]
  }

  /** "Total work done": only evens were counted, so the sum is doubled. */
  function Total(results: seq<int>): (total: int)
  {
    2 * Sum(results)
  }

  /** The list worker `wid`'s task collected: the evens of the values of its
      slice that the run visited. */
  function Collected(wid: nat, unit: int, timeout: int, startTime: real, o: Oracles): (got: seq<int>)
  {
    var s := SliceOf(wid, unit);
    Evens(s.begin, s.begin + Steps(s.begin, s.end, timeout, startTime, o))
  }

  /** What worker `wid` reports: how many evens its task collected. */
  function WorkerCount(wid: nat, unit: int, timeout: int, startTime: real, o: Oracles): (count: nat)
  {
    |Collected(wid, unit, timeout, startTime, o)|
  }

  /** The `result` list of `main`, one count per worker in worker order. */
  function Counts(nWorkers: int, unit: int, timeout: int, startTime: real, oracles: nat -> Oracles): (rs: seq<int>)
    ensures |rs| == if nWorkers > 0 then nWorkers else 0
  {
    seq(if nWorkers > 0 then nWorkers else 0,
        i requires 0 <= i => WorkerCount(i, unit, timeout, startTime, oracles(i)))
  }

  datatype Report = Report(results: seq<int>, total: int)

  /** A run either reports, or dies dividing by zero: in `allocate_work`
      when there are no workers, or in the report's percentages, which
      divide by `work_size`, after every worker has run. */
  datatype Outcome = Completed(report: Report) | ZeroDivisionError

  /** What a whole benchmark run reports. It fails exactly when there are no
      workers or the work size is zero; otherwise it reports one count per
      worker. */
  function Expected(workSize: int, nWorkers: int, timeout: int, startTime: real, oracles: nat -> Oracles)
    : (out: Outcome)
    ensures out.ZeroDivisionError? <==> nWorkers == 0 || workSize == 0
    ensures out.Completed? ==> |out.report.results| == if nWorkers > 0 then nWorkers else 0
  {
    match WorkUnit(workSize, nWorkers)
    case DivideByZero => ZeroDivisionError
    case Quotient(unit) =>
      var rs := Counts(nWorkers, unit, timeout, startTime, oracles);
      if workSize == 0 then ZeroDivisionError else Completed(Report(rs, Total(rs)))
  }

  /** `main` for either kind of worker: both report the same figures. */
  method RunBenchmark(useThreads: bool, workSize: int, nWorkers: int, timeout: int, startTime: real,
                      oracles: nat -> Oracles)
    returns (out: Outcome)
    ensures out == Expected(workSize, nWorkers, timeout, startTime, oracles)
  {
    var d := WorkUnit(workSize, nWorkers);
    if d.DivideByZero? {
      return ZeroDivisionError;
    }
    var results: seq<int>;
    if useThreads {
      results := RunThreadWorkers(nWorkers, d.value, timeout, startTime, oracles);
    } else {
      results := RunProcessWorkers(nWorkers, d.value, timeout, startTime, oracles);
    }
    if workSize == 0 {
      return ZeroDivisionError;
    }
    out := Completed(Report(results, Total(results)));
  }

  /** Build, start and read `n_workers` thread-backed workers. */
  method RunThreadWorkers(nWorkers: int, unit: int, timeout: int, startTime: real, oracles: nat -> Oracles)
    returns (results: seq<int>)
    ensures results == Counts(nWorkers, unit, timeout, startTime, oracles)
  {
    var n := if nWorkers > 0 then nWorkers else 0;
    var ws := AllocateThreadWorkers(n, unit, timeout);
    StartThreadWorkers(ws, unit, timeout, startTime, oracles);
    results := [];
    var i := 0;
    while i < n
      invariant i <= n
      invariant results == Counts(nWorkers, unit, timeout, startTime, oracles)[..i]
    {
      results := results + [ws[i].Result()];
      i := i + 1;
    }
  }

  /** The list comprehension of `allocate_work` for thread-backed workers:
      worker `k` has id `k`, the slice of `k` and an empty list of its own. */
  method AllocateThreadWorkers(n: nat, unit: int, timeout: int) returns (ws: seq<ThreadWorker>)
    ensures |ws| == n
    ensures forall k :: 0 <= k < n ==>
      ws[k].wid == k && ws[k].timeout == timeout && Slice(ws[k].begin, ws[k].end) == SliceOf(k, unit)
    ensures forall k :: 0 <= k < n ==> fresh(ws[k].work) && ws[k].work.elems == []
    ensures forall j, k :: 0 <= j < k < n ==> ws[j].work != ws[k].work
  {
    ws := [];
    var i: nat := 0;
    while i < n
      invariant i <= n && |ws| == i
      invariant forall k :: 0 <= k < i ==>
        ws[k].wid == k && ws[k].timeout == timeout && Slice(ws[k].begin, ws[k].end) == SliceOf(k, unit)
      invariant forall k :: 0 <= k < i ==> fresh(ws[k].work) && ws[k].work.elems == []
      invariant forall j, k :: 0 <= j < k < i ==> ws[j].work != ws[k].work
    {
      var w := new ThreadWorker(i, unit, timeout);
      ws := ws + [w];
      i := i + 1;
    }
  }

  /** `w.start()` for every worker, each thread run to its end: afterwards
      worker `k`'s list holds exactly what its task collected. */
  method StartThreadWorkers(ws: seq<ThreadWorker>, unit: int, timeout: int, startTime: real, oracles: nat -> Oracles)
    requires forall k :: 0 <= k < |ws| ==>
      ws[k].timeout == timeout && Slice(ws[k].begin, ws[k].end) == SliceOf(k, unit) && ws[k].work.elems == []
    requires forall j, k :: 0 <= j < k < |ws| ==> ws[j].work != ws[k].work
    modifies set k | 0 <= k < |ws| :: ws[k].work
    ensures forall k :: 0 <= k < |ws| ==> ws[k].work.elems == Collected(k, unit, timeout, startTime, oracles(k))
    ensures forall k :: 0 <= k < |ws| ==> ws[k].Result() == WorkerCount(k, unit, timeout, startTime, oracles(k))
  {
    var i: nat := 0;
    while i < |ws|
      invariant i <= |ws|
      invariant forall k :: 0 <= k < i ==> ws[k].work.elems == Collected(k, unit, timeout, startTime, oracles(k))
      invariant forall k :: i <= k < |ws| ==> ws[k].work.elems == []
    {
      ws[i].Start(startTime, oracles(i));
      i := i + 1;
    }
  }

  /** Build, start and read `n_workers` process-backed workers. */
  method RunProcessWorkers(nWorkers: int, unit: int, timeout: int, startTime: real, oracles: nat -> Oracles)
    returns (results: seq<int>)
    ensures results == Counts(nWorkers, unit, timeout, startTime, oracles)
  {
    var n := if nWorkers > 0 then nWorkers else 0;
    var ws := AllocateProcessWorkers(n, unit, timeout);
    StartProcessWorkers(ws, unit, timeout, startTime, oracles);
    results := [];
    var i := 0;
    while i < n
      invariant i <= n
      invariant forall k :: i <= k < n ==>
        |ws[k].queue.items| == 1 && |ws[k].queue.items[0]| == WorkerCount(k, unit, timeout, startTime, oracles(k))
      invariant results == Counts(nWorkers, unit, timeout, startTime, oracles)[..i]
    {
      var count := ws[i].Result();
      results := results + [count];
      i := i + 1;
    }
  }

  /** The list comprehension of `allocate_work` for process-backed workers:
      worker `k` has id `k`, the slice of `k` and an empty queue of its own. */
  method AllocateProcessWorkers(n: nat, unit: int, timeout: int) returns (ws: seq<ProcessWorker>)
    ensures |ws| == n
    ensures forall k :: 0 <= k < n ==>
      ws[k].wid == k && ws[k].timeout == timeout && Slice(ws[k].begin, ws[k].end) == SliceOf(k, unit)
    ensures forall k :: 0 <= k < n ==> fresh(ws[k].queue) && ws[k].queue.items == []
    ensures forall j, k :: 0 <= j < k < n ==> ws[j].queue != ws[k].queue
  {
    ws := [];
    var i: nat := 0;
    while i < n
      invariant i <= n && |ws| == i
      invariant forall k :: 0 <= k < i ==>
        ws[k].wid == k && ws[k].timeout == timeout && Slice(ws[k].begin, ws[k].end) == SliceOf(k, unit)
      invariant forall k :: 0 <= k < i ==> fresh(ws[k].queue) && ws[k].queue.items == []
      invariant forall j, k :: 0 <= j < k < i ==> ws[j].queue != ws[k].queue
    {
      var w := new ProcessWorker(i, unit, timeout);
      ws := ws + [w];
      i := i + 1;
    }
  }

  /** `w.start()` for every worker, each process run to its end: afterwards
      worker `k`'s queue holds exactly the one list its task collected. */
  method StartProcessWorkers(ws: seq<ProcessWorker>, unit: int, timeout: int, startTime: real, oracles: nat -> Oracles)
    requires forall k :: 0 <= k < |ws| ==>
      ws[k].timeout == timeout && Slice(ws[k].begin, ws[k].end) == SliceOf(k, unit) && ws[k].queue.items == []
    requires forall j, k :: 0 <= j < k < |ws| ==> ws[j].queue != ws[k].queue
    modifies set k | 0 <= k < |ws| :: ws[k].queue
    ensures forall k :: 0 <= k < |ws| ==> ws[k].queue.items == [Collected(k, unit, timeout, startTime, oracles(k))]
    ensures forall k :: 0 <= k < |ws| ==>
      |ws[k].queue.items| == 1 && |ws[k].queue.items[0]| == WorkerCount(k, unit, timeout, startTime, oracles(k))
  {
    var i: nat := 0;
    while i < |ws|
      invariant i <= |ws|
      invariant forall k :: 0 <= k < i ==> ws[k].queue.items == [Collected(k, unit, timeout, startTime, oracles(k))]
      invariant forall k :: i <= k < |ws| ==> ws[k].queue.items == []
    {
      ws[i].Start(startTime, oracles(i));
      i := i + 1;
    }
  }

  /** A worker never reports more than the evens of its own slice. */
  lemma WorkerCountAtMost(wid: nat, unit: int, timeout: int, startTime: real, o: Oracles)
    ensures WorkerCount(wid, unit, timeout, startTime, o) <= |Evens(wid * unit, wid * unit + unit)|
  {
    var s := SliceOf(wid, unit);
    AppendedIsPrefix(s.begin, s.end, timeout, startTime, o);
  }

  /** The first `m` workers together count at most the evens of
      `[0, m * unit)`. */
  lemma {:induction false} SumOfCountsAtMost(m: nat, nWorkers: int, unit: int, timeout: int, startTime: real,
                                             oracles: nat -> Oracles)
    requires m <= nWorkers
    ensures Sum(Counts(nWorkers, unit, timeout, startTime, oracles)[..m]) <= |Evens(0, m * unit)|
  {
    if unit < 0 {
      EmptySlicesCountNothing(m, nWorkers, unit, timeout, startTime, oracles);
    } else if m > 0 {
      var rs := Counts(nWorkers, unit, timeout, startTime, oracles);
      SumOfCountsAtMost(m - 1, nWorkers, unit, timeout, startTime, oracles);
      SumOfPrefix(rs, m);
      var lo := (m - 1) * unit;
      DistributeOne(m, unit);
      MulAtLeastMul(0, m - 1, unit);
      EvensSplit(0, lo, lo + unit);
      WorkerCountAtMost(m - 1, unit, timeout, startTime, oracles(m - 1));
    }
  }

  /** With no interrupt and no timeout the first `m` workers together count
      exactly the evens of `[0, m * unit)`. */
  lemma {:induction false} SumOfCountsUninterrupted(m: nat, nWorkers: int, unit: int, timeout: int, startTime: real,
                                                    oracles: nat -> Oracles)
    requires m <= nWorkers && timeout <= 0
    requires forall w: nat, k: nat :: !oracles(w).stop(k)
    ensures Sum(Counts(nWorkers, unit, timeout, startTime, oracles)[..m]) == |Evens(0, m * unit)|
  {
    if unit < 0 {
      EmptySlicesCountNothing(m, nWorkers, unit, timeout, startTime, oracles);
      MulAtLeastMul(unit, 0, m);
    } else if m > 0 {
      var rs := Counts(nWorkers, unit, timeout, startTime, oracles);
      SumOfCountsUninterrupted(m - 1, nWorkers, unit, timeout, startTime, oracles);
      SumOfPrefix(rs, m);
      var lo := (m - 1) * unit;
      DistributeOne(m, unit);
      MulAtLeastMul(0, m - 1, unit);
      EvensSplit(0, lo, lo + unit);
      var o := oracles(m - 1);
      assert forall k: nat :: !o.stop(k);
      UninterruptedWorkerCount(m - 1, unit, timeout, startTime, o);
      assert rs[m - 1] == |Evens(lo, lo + unit)|;
    }
  }

  /** With a negative unit every slice is empty, so the first `m` workers
      count nothing. */
  lemma EmptySlicesCountNothing(m: nat, nWorkers: int, unit: int, timeout: int, startTime: real,
                                oracles: nat -> Oracles)
    requires m <= nWorkers && unit < 0
    ensures Sum(Counts(nWorkers, unit, timeout, startTime, oracles)[..m]) == 0
  {
    var rs := Counts(nWorkers, unit, timeout, startTime, oracles)[..m];
    forall i | 0 <= i < m
      ensures rs[i] == 0
    {
      StoppedOnEntry(i * unit, i * unit + unit, timeout, startTime, oracles(i));
    }
    SumOfZeros(rs);
  }

  lemma SumOfPrefix(xs: seq<int>, m: nat)
    requires 0 < m <= |xs|
    ensures Sum(xs[..m]) == Sum(xs[..m - 1]) + xs[m - 1]
  {
    assert xs[..m][..m - 1] == xs[..m - 1];
  }

  /** Whatever the stop flag and the clock do, the reported total is at most
      `c + c % 2` where `c = n_workers * work_unit` is the number of values
      the slices cover, which is itself at most `work_size`. */
  lemma TotalAtMost(workSize: int, nWorkers: int, timeout: int, startTime: real, oracles: nat -> Oracles)
    requires nWorkers > 0 && workSize > 0
    ensures var c := nWorkers * WorkUnit(workSize, nWorkers).value;
      && c <= workSize
      && Expected(workSize, nWorkers, timeout, startTime, oracles).Completed?
      && Expected(workSize, nWorkers, timeout, startTime, oracles).report.total <= c + c % 2
  {
    var unit := WorkUnit(workSize, nWorkers).value;
    var rs := Counts(nWorkers, unit, timeout, startTime, oracles);
    SumOfCountsAtMost(nWorkers, nWorkers, unit, timeout, startTime, oracles);
    assert rs[..nWorkers] == rs;
    EvensCount(0, nWorkers * unit);
  }

  /** With no interrupt and no timeout every worker counts its whole slice
      and the total is `c + c % 2` for `c = n_workers * work_unit`: twice the
      number of evens in `[0, c)`. */
  lemma UninterruptedTotal(workSize: int, nWorkers: int, timeout: int, startTime: real, oracles: nat -> Oracles)
    requires nWorkers > 0 && workSize > 0 && timeout <= 0
    requires forall w: nat, k: nat :: !oracles(w).stop(k)
    ensures var c := nWorkers * WorkUnit(workSize, nWorkers).value;
      && Expected(workSize, nWorkers, timeout, startTime, oracles).Completed?
      && Expected(workSize, nWorkers, timeout, startTime, oracles).report.total == 2 * |Evens(0, c)|
      && Expected(workSize, nWorkers, timeout, startTime, oracles).report.total == c + c % 2
  {
    var unit := WorkUnit(workSize, nWorkers).value;
    var rs := Counts(nWorkers, unit, timeout, startTime, oracles);
    SumOfCountsUninterrupted(nWorkers, nWorkers, unit, timeout, startTime, oracles);
    assert rs[..nWorkers] == rs;
    EvensCount(0, nWorkers * unit);
  }

  /** Four workers over a work size of 400, with no interrupt and no
      timeout: each counts 50 evens and the total is 400. */
  lemma FourWorkersOf400(startTime: real, oracles: nat -> Oracles)
    requires forall w: nat, k: nat :: !oracles(w).stop(k)
    ensures Expected(400, 4, 0, startTime, oracles) == Completed(Report([50, 50, 50, 50], 400))
  {
    assert WorkUnit(400, 4) == Quotient(100);
    var rs := Counts(4, 100, 0, startTime, oracles);
    forall w: nat | w < 4
      ensures rs[w] == 50
    {
      var o := oracles(w);
      assert forall k: nat :: !o.stop(k);
      UninterruptedWorkerCount(w, 100, 0, startTime, o);
      HalfOfHundreds(w);
    }
    assert rs == [50, 50, 50, 50];
    assert Sum(rs) == 200 by {
      assert rs[..4] == rs && rs[..0] == [];
      SumOfPrefix(rs, 4);
      SumOfPrefix(rs, 3);
      SumOfPrefix(rs, 2);
      SumOfPrefix(rs, 1);
    }
  }

  lemma HalfOfHundreds(w: int)
    ensures (w * 100 + 100 + 1) / 2 - (w * 100 + 1) / 2 == 50
  {
    assert w * 100 + 101 == 2 * (w * 50 + 50) + 1;
    assert w * 100 + 1 == 2 * (w * 50) + 1;
  }

  /** With no interrupt and no timeout worker `wid` reports every even of
      its slice. */
  lemma UninterruptedWorkerCount(wid: nat, unit: int, timeout: int, startTime: real, o: Oracles)
    requires unit >= 0 && timeout <= 0
    requires forall k: nat :: !o.stop(k)
    ensures WorkerCount(wid, unit, timeout, startTime, o) == |Evens(wid * unit, wid * unit + unit)|
    ensures WorkerCount(wid, unit, timeout, startTime, o) == (wid * unit + unit + 1) / 2 - (wid * unit + 1) / 2
  {
    UninterruptedRun(wid * unit, wid * unit + unit, timeout, startTime, o);
  }

  /** As the source is written: any negative work size with at least one
      worker (`--work-size -8 --workers 2` gives `work_unit == -4`) hands
      every worker a slice with `begin > end`, and with no interrupt and the
      default `--max-time 0` the loop `n != end` never exits, however many
      iterations are allowed. */
  lemma NegativeWorkSizeHangs(workSize: int, nWorkers: int, wid: nat, startTime: real, o: Oracles)
    requires workSize < 0 && nWorkers > 0
    requires forall k :: !o.stop(k)
    ensures var s := SliceOf(wid, WorkUnit(workSize, nWorkers).value);
      && s.begin > s.end
      && forall fuel: nat :: IterationsAsWritten(s.begin, s.end, 0, 0, Deadline(startTime, 0), o, fuel) == None
  {
    var unit := WorkUnit(workSize, nWorkers).value;
    NegativeUnit(workSize, nWorkers);
    var s := SliceOf(wid, unit);
    forall fuel: nat
      ensures IterationsAsWritten(s.begin, s.end, 0, 0, Deadline(startTime, 0), o, fuel) == None
    {
      AsWrittenNeverExits(s.begin, s.end, 0, 0, Deadline(startTime, 0), o, fuel);
    }
  }

  lemma NegativeUnit(workSize: int, nWorkers: int)
    requires workSize < 0 && nWorkers > 0
    ensures WorkUnit(workSize, nWorkers).value < 0
  {
    var unit := WorkUnit(workSize, nWorkers).value;
    if unit >= 0 {
      MulAtLeastMul(0, nWorkers, unit);
    }
  }

  /** With the loop condition `n < end` a negative work size gives every
      worker an empty slice: the run completes, every worker reports 0 and
      so does the total. */
  lemma NegativeWorkSizeFinishes(workSize: int, nWorkers: int, timeout: int, startTime: real, oracles: nat -> Oracles)
    requires workSize < 0 && nWorkers > 0
    ensures Expected(workSize, nWorkers, timeout, startTime, oracles).Completed?
    ensures var r := Expected(workSize, nWorkers, timeout, startTime, oracles).report;
      |r.results| == nWorkers && (forall i :: 0 <= i < nWorkers ==> r.results[i] == 0) && r.total == 0
  {
    var unit := WorkUnit(workSize, nWorkers).value;
    NegativeUnit(workSize, nWorkers);
    var rs := Counts(nWorkers, unit, timeout, startTime, oracles);
    forall i | 0 <= i < nWorkers
      ensures rs[i] == 0
    {
      StoppedOnEntry(i * unit, i * unit + unit, timeout, startTime, oracles(i));
    }
    SumOfZeros(rs);
  }

  lemma {:induction false} SumOfZeros(xs: seq<int>)
    requires forall i :: 0 <= i < |xs| ==> xs[i] == 0
    ensures Sum(xs) == 0
  {
    if xs != [] {
      SumOfZeros(xs[..|xs| - 1]);
    }
  }
}
