/** The counting task `Worker.task`: walk `n` from `begin` towards `end`,
    append every even `n` to a list, and stop early when the stop flag is
    raised or the deadline has passed. */
module Counting {

  datatype Option<T> = None | Some(value: T)

  /** What the loop polls from outside: `stop(i)` is what the stop predicate
      answers the `i`-th time the loop condition is evaluated, and
      `clock(i)` is what `time.time()` returns after the `i`-th iteration. */
  datatype Oracles = Oracles(stop: nat -> bool, clock: nat -> real)

  /** A Python list of integers, appended to in place. */
  class IntList {
    var elems: seq<int>

    constructor ()
      ensures elems == []
    {
      elems := [];
    }

    method Append(x: int)
      modifies this
      ensures elems == old(elems) + [x]
    {
      elems := elems + [x];
    }
  }

  /** The even integers of `[lo, hi)` in ascending order. Python's `n % 2`
      and Dafny's agree on every integer (both are never negative for the
      divisor 2), so "even" means the same here for negative `n` too. */
  function Evens(lo: int, hi: int): (evens: seq<int>)
    decreases hi - lo
  {
    if hi <= lo then []
    else Evens(lo, hi - 1) + (if (hi - 1) % 2 == 0 then [hi - 1] else [])
  }

  /** `Evens` holds precisely the even values of the range. */
  lemma {:induction false} EvensMembership(lo: int, hi: int, x: int)
    ensures x in Evens(lo, hi) <==> lo <= x < hi && x % 2 == 0
    decreases hi - lo
  {
    if lo < hi {
      EvensMembership(lo, hi - 1, x);
    }
  }

  /** `Evens` is strictly increasing. */
  lemma {:induction false} EvensAscending(lo: int, hi: int)
    ensures forall a, b :: 0 <= a < b < |Evens(lo, hi)| ==> Evens(lo, hi)[a] < Evens(lo, hi)[b]
    decreases hi - lo
  {
    if lo < hi {
      EvensAscending(lo, hi - 1);
      var s := Evens(lo, hi - 1);
      forall a | 0 <= a < |s|
        ensures s[a] < hi - 1
      {
        EvensMembership(lo, hi - 1, s[a]);
      }
    }
  }

  /** The closed form of the count: there are `(hi+1)/2 - (lo+1)/2`
      (floor division) even integers in `[lo, hi)`. */
  lemma {:induction false} EvensCount(lo: int, hi: int)
    requires lo <= hi
    ensures |Evens(lo, hi)| == (hi + 1) / 2 - (lo + 1) / 2
    decreases hi - lo
  {
    if lo < hi {
      EvensCount(lo, hi - 1);
    }
  }

  /** Splitting the range splits the list of evens. */
  lemma {:induction false} EvensSplit(lo: int, mid: int, hi: int)
    requires lo <= mid <= hi
    ensures Evens(lo, hi) == Evens(lo, mid) + Evens(mid, hi)
    decreases hi - mid
  {
    if mid < hi {
      EvensSplit(lo, mid, hi - 1);
    }
  }

  /** `[0, 10)` holds the five evens 0, 2, 4, 6, 8. */
  lemma EvensZeroToTen()
    ensures Evens(0, 10) == [0, 2, 4, 6, 8]
  {
    EvensSplit(0, 5, 10);
    assert Evens(0, 5) == [0, 2, 4] by {
      EvensSplit(0, 2, 5);
    }
    assert Evens(5, 10) == [6, 8] by {
      EvensSplit(5, 7, 10);
    }
  }

  /** `Worker.start_time + timeout`. */
  function Deadline(startTime: real, timeout: int): (endTime: real)
  {
    startTime + timeout as real
  }

  /** How many iterations the loop still performs when `n` is the current
      value and `i` iterations are already done. The loop condition is
      `n < end` here; the source writes `n != end`, which means the same
      whenever `n <= end` (see `IterationsAsWritten`). An iteration ends the
      task when `timeout > 0` and the clock has passed the deadline. */
  function Iterations(n: int, end: int, i: nat, timeout: int, endTime: real, o: Oracles): (k: nat)
    ensures k <= if n < end then end - n else 0
    decreases end - n
  {
    if o.stop(i) || n >= end then 0
    else if timeout > 0 && o.clock(i) > endTime then 1
    else 1 + Iterations(n + 1, end, i + 1, timeout, endTime, o)
  }

  /** How many iterations a whole run of the task performs. */
  function Steps(begin: int, end: int, timeout: int, startTime: real, o: Oracles): (k: nat)
  {
    Iterations(begin, end, 0, timeout, Deadline(startTime, timeout), o)
  }

  /** `Worker.task`: the counting loop. It changes nothing but `ret`, to
      which it appends the evens of the first `Steps(...)` values of the
      range. */
  method Task(begin: int, end: int, ret: IntList, timeout: int, startTime: real, o: Oracles)
    modifies ret
    ensures ret.elems == old(ret.elems) + Evens(begin, begin + Steps(begin, end, timeout, startTime, o))
  {
    var endTime := Deadline(startTime, timeout);
    var n := begin;
    var i: nat := 0;
    while !o.stop(i) && n < end
      invariant n == begin + i
      invariant Steps(begin, end, timeout, startTime, o) == i + Iterations(n, end, i, timeout, endTime, o)
      invariant ret.elems == old(ret.elems) + Evens(begin, n)
      decreases end - n
    {
      assert Evens(begin, n + 1) == Evens(begin, n) + (if n % 2 == 0 then [n] else []);
      if n % 2 == 0 {
        ret.Append(n);
      }
      n := n + 1;
      if timeout > 0 {
        var currTime := o.clock(i);
        if currTime > endTime {
          return;
        }
      }
      i := i + 1;
    }
  }

  /** Whatever the oracles do, the task appends a prefix of the ascending
      evens of `[begin, end)`: only even values, all inside the range, in
      strictly increasing order. */
  lemma AppendedIsPrefix(begin: int, end: int, timeout: int, startTime: real, o: Oracles)
    ensures var got := Evens(begin, begin + Steps(begin, end, timeout, startTime, o));
      && got <= Evens(begin, end)
      && (forall x :: x in got ==> x % 2 == 0 && begin <= x < end)
      && (forall a, b :: 0 <= a < b < |got| ==> got[a] < got[b])
  {
    var stop := begin + Steps(begin, end, timeout, startTime, o);
    var got := Evens(begin, stop);
    if begin <= end {
      EvensSplit(begin, stop, end);
    }
    forall x | x in got
      ensures x % 2 == 0 && begin <= x < end
    {
      EvensMembership(begin, stop, x);
    }
    EvensAscending(begin, stop);
  }

  /** When the stop flag never rises and there is no timeout, the loop runs
      over the whole range. */
  lemma {:induction false} IterationsUninterrupted(n: int, end: int, i: nat, timeout: int, endTime: real, o: Oracles)
    requires n <= end && timeout <= 0
    requires forall k :: !o.stop(k)
    ensures Iterations(n, end, i, timeout, endTime, o) == end - n
    decreases end - n
  {
    if n < end {
      IterationsUninterrupted(n + 1, end, i + 1, timeout, endTime, o);
    }
  }

  /** An uninterrupted run without a timeout appends exactly the ascending
      evens of `[begin, end)`, `(end+1)/2 - (begin+1)/2` of them. */
  lemma UninterruptedRun(begin: int, end: int, timeout: int, startTime: real, o: Oracles)
    requires begin <= end && timeout <= 0
    requires forall k :: !o.stop(k)
    ensures Evens(begin, begin + Steps(begin, end, timeout, startTime, o)) == Evens(begin, end)
    ensures |Evens(begin, begin + Steps(begin, end, timeout, startTime, o))| == (end + 1) / 2 - (begin + 1) / 2
  {
    IterationsUninterrupted(begin, end, 0, timeout, Deadline(startTime, timeout), o);
    EvensCount(begin, end);
  }

  /** A stop flag raised before the first check, or an empty range, means
      the body never runs and nothing is appended. */
  lemma StoppedOnEntry(begin: int, end: int, timeout: int, startTime: real, o: Oracles)
    requires o.stop(0) || begin >= end
    ensures Steps(begin, end, timeout, startTime, o) == 0
    ensures Evens(begin, begin + Steps(begin, end, timeout, startTime, o)) == []
  {
  }

  /** With a positive timeout and a deadline already passed at the first
      clock reading, the loop does at most one iteration and so appends at
      most one value. */
  lemma DeadlineAlreadyPassed(begin: int, end: int, timeout: int, startTime: real, o: Oracles)
    requires timeout > 0 && o.clock(0) > Deadline(startTime, timeout)
    ensures Steps(begin, end, timeout, startTime, o) <= 1
    ensures |Evens(begin, begin + Steps(begin, end, timeout, startTime, o))| <= 1
  {
    var k := Steps(begin, end, timeout, startTime, o);
    if k == 1 {
      assert Evens(begin, begin + 1) == Evens(begin, begin) + (if begin % 2 == 0 then [begin] else []);
    }
  }

  /** Without a positive timeout the clock is never consulted: two runs
      that see the same stop flag do the same number of iterations whatever
      their clocks say. */
  lemma {:induction false} ClockIgnoredWithoutTimeout(n: int, end: int, i: nat, timeout: int, endTime: real,
                                                      stop: nat -> bool, clock1: nat -> real, clock2: nat -> real)
    requires timeout <= 0
    ensures Iterations(n, end, i, timeout, endTime, Oracles(stop, clock1))
         == Iterations(n, end, i, timeout, endTime, Oracles(stop, clock2))
    decreases end - n
  {
    if !stop(i) && n < end {
      ClockIgnoredWithoutTimeout(n + 1, end, i + 1, timeout, endTime, stop, clock1, clock2);
    }
  }

  /** The loop exactly as the source writes it, with the condition
      `n != end`, run for at most `fuel` iterations: `None` means the loop
      was still running when the fuel ran out. */
  function IterationsAsWritten(n: int, end: int, i: nat, timeout: int, endTime: real, o: Oracles, fuel: nat)
    : (k: Option<nat>)
    decreases fuel
  {
    if fuel == 0 then None
    else if o.stop(i) || n == end then Some(0)
    else if timeout > 0 && o.clock(i) > endTime then Some(1)
    else match IterationsAsWritten(n + 1, end, i + 1, timeout, endTime, o, fuel - 1)
      case None => None
      case Some(k) => Some(k + 1)
  }

  /** On a range with `n <= end` the source's condition and the model's
      agree: given enough fuel the source's loop does `Iterations` steps. */
  lemma {:induction false} AsWrittenAgrees(n: int, end: int, i: nat, timeout: int, endTime: real, o: Oracles, fuel: nat)
    requires n <= end && fuel > end - n
    ensures IterationsAsWritten(n, end, i, timeout, endTime, o, fuel) == Some(Iterations(n, end, i, timeout, endTime, o))
    decreases end - n
  {
    if !o.stop(i) && n < end && !(timeout > 0 && o.clock(i) > endTime) {
      AsWrittenAgrees(n + 1, end, i + 1, timeout, endTime, o, fuel - 1);
    }
  }

  /** With `n > end`, no stop flag and no timeout, the source's loop never
      exits: `n` only grows, so `n != end` holds forever. */
  lemma {:induction false} AsWrittenNeverExits(n: int, end: int, i: nat, timeout: int, endTime: real, o: Oracles, fuel: nat)
    requires n > end && timeout <= 0
    requires forall k :: !o.stop(k)
    ensures IterationsAsWritten(n, end, i, timeout, endTime, o, fuel) == None
    decreases fuel
  {
    if fuel > 0 {
      AsWrittenNeverExits(n + 1, end, i + 1, timeout, endTime, o, fuel - 1);
    }
  }
}
