/** How `allocate_work` splits the range `[0, work_size)` between the
    workers, and the slice each `Worker` takes in its constructor. */
module Partition {

  /** Python 2 `/` on two integers: the quotient rounded towards minus
      infinity. Dafny's `/` agrees with it for a positive divisor only. */
  function FloorDiv(a: int, b: int): (q: int)
    requires b != 0
    ensures b > 0 ==> b * q <= a < b * q + b
    ensures b < 0 ==> b * q + b < a <= b * q
  {
    if b > 0 then a / b else (-a) / (-b)
  }

  /** The result of `work_size / n_workers`: Python raises
      ZeroDivisionError when there are no workers. */
  datatype Division = Quotient(value: int) | DivideByZero

  /** `work_unit` as `allocate_work` computes it. With at least one worker
      the slices cover `n_workers * work_unit` values, never more than
      `work_size`, and the tail that no worker gets is shorter than
      `n_workers`. */
  function WorkUnit(workSize: int, nWorkers: int): (d: Division)
    ensures d.DivideByZero? <==> nWorkers == 0
    ensures nWorkers > 0 ==> 0 <= workSize - nWorkers * d.value < nWorkers
    ensures nWorkers > 0 && workSize >= 0 ==> d.value >= 0
  {
    if nWorkers == 0 then DivideByZero else Quotient(FloorDiv(workSize, nWorkers))
  }

  /** The half-open range `[begin, end)` a worker counts over. */
  datatype Slice = Slice(begin: int, end: int) {
    function Length(): (len: int) { end - begin }
    predicate Contains(x: int) { begin <= x < end }
  }

  /** The slice worker `wid` takes when built with `job_size == unit`:
      it starts at `wid * unit` and holds exactly `unit` values. */
  function SliceOf(wid: int, unit: int): (s: Slice)
    ensures s.Length() == unit
    ensures s.begin == wid * unit
  {
    Slice(wid * unit, wid * unit + unit)
  }

  /** The slices of the workers `0 .. n_workers-1` (`range(0, n_workers)`,
      which is empty when `n_workers <= 0`). */
  function Slices(nWorkers: int, unit: int): (ss: seq<Slice>)
    ensures |ss| == if nWorkers > 0 then nWorkers else 0
  {
    seq(if nWorkers > 0 then nWorkers else 0, i => SliceOf(i, unit))
  }

  /** Worker `i` ends where worker `i + 1` begins. */
  lemma SlicesContiguous(nWorkers: int, unit: int)
    ensures forall i :: 0 <= i < |Slices(nWorkers, unit)| - 1 ==>
      Slices(nWorkers, unit)[i].end == Slices(nWorkers, unit)[i + 1].begin
  {
    var ss := Slices(nWorkers, unit);
    forall i | 0 <= i < |ss| - 1
      ensures ss[i].end == ss[i + 1].begin
    {
      assert (i + 1) * unit == i * unit + unit;
    }
  }

  /** Two different workers never share a value. */
  lemma SlicesDisjoint(unit: int, i: int, j: int, x: int)
    requires i != j
    ensures !(SliceOf(i, unit).Contains(x) && SliceOf(j, unit).Contains(x))
  {
    if unit > 0 {
      var lo, hi := if i < j then i else j, if i < j then j else i;
      MulAtLeastMul(lo + 1, hi, unit);
      assert (lo + 1) * unit == lo * unit + unit;
      assert SliceOf(lo, unit).end <= SliceOf(hi, unit).begin;
    }
  }

  /** The slices of `n_workers` workers cover exactly `[0, n_workers * unit)`:
      a value lies in that range if and only if some worker's slice holds it. */
  lemma SlicesCover(nWorkers: int, unit: int, x: int)
    requires nWorkers >= 0
    ensures (0 <= x < nWorkers * unit) <==>
            (exists i :: 0 <= i < nWorkers && SliceOf(i, unit).Contains(x))
  {
    if unit < 0 {
      // Every slice is empty, and so is the range.
      MulAtLeastMul(unit, 0, nWorkers);
    } else {
      if 0 <= x < nWorkers * unit {
        CoveringWorker(nWorkers, unit, x);
      }
      if exists i :: 0 <= i < nWorkers && SliceOf(i, unit).Contains(x) {
        var i :| 0 <= i < nWorkers && SliceOf(i, unit).Contains(x);
        SliceInsideRange(nWorkers, unit, i, x);
      }
    }
  }

  lemma CoveringWorker(nWorkers: int, unit: int, x: int)
    requires nWorkers >= 0 && unit >= 0 && 0 <= x < nWorkers * unit
    ensures unit > 0 && 0 <= x / unit < nWorkers && SliceOf(x / unit, unit).Contains(x)
  {
    var i := x / unit;
    assert i * unit <= x < i * unit + unit;
    if i >= nWorkers {
      MulAtLeastMul(nWorkers, i, unit);
    }
  }

  lemma SliceInsideRange(nWorkers: int, unit: int, i: int, x: int)
    requires unit >= 0 && 0 <= i < nWorkers && SliceOf(i, unit).Contains(x)
    ensures 0 <= x < nWorkers * unit
  {
    MulAtLeastMul(0, i, unit);
    MulAtLeastMul(i + 1, nWorkers, unit);
    DistributeOne(i + 1, unit);
  }

  lemma MulAtLeastMul(a: int, b: int, unit: int)
    requires a <= b && unit >= 0
    ensures a * unit <= b * unit
  {
    assert b * unit == a * unit + (b - a) * unit;
  }

  /** Sum of the lengths of a list of slices. */
  function TotalLength(ss: seq<Slice>): (len: int)
  {
    if ss == [] then 0 else TotalLength(ss[..|ss| - 1]) + ss[|ss| - 1].Length()
  }

  /** Together the slices hold `n_workers * work_unit` values, which is at
      most `work_size`; what is left over is fewer than `n_workers` values. */
  lemma {:induction false} SlicesTotalLength(workSize: int, nWorkers: int)
    requires nWorkers > 0
    ensures TotalLength(Slices(nWorkers, WorkUnit(workSize, nWorkers).value))
            == nWorkers * WorkUnit(workSize, nWorkers).value
    ensures 0 <= workSize - TotalLength(Slices(nWorkers, WorkUnit(workSize, nWorkers).value)) < nWorkers
  {
    PrefixLength(nWorkers, WorkUnit(workSize, nWorkers).value);
  }

  lemma {:induction false} PrefixLength(n: nat, unit: int)
    ensures TotalLength(Slices(n, unit)) == n * unit
  {
    if n > 0 {
      var ss := Slices(n, unit);
      PrefixLength(n - 1, unit);
      assert ss[..n - 1] == Slices(n - 1, unit);
      assert ss[n - 1].Length() == unit;
      assert TotalLength(ss) == (n - 1) * unit + unit;
      DistributeOne(n, unit);
    }
  }

  lemma DistributeOne(n: int, unit: int)
    ensures n * unit == (n - 1) * unit + unit
  {
  }
}
