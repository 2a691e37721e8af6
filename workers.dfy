/** The two kinds of worker. Both take the slice
    `[wid * job_size, wid * job_size + job_size)` when built; a thread-backed
    worker counts into a list it shares with the controller, a
    process-backed one counts into a fresh list of its own and hands it back
    through a queue. Starting a worker is modelled as running its task to
    completion. */
module Workers {
  import opened Partition
  import opened Counting

  /** A `multiprocessing.Queue` of lists. */
  class ResultQueue {
    var items: seq<seq<int>>

    constructor ()
      ensures items == []
    {
      items := [];
    }

    method Put(x: seq<int>)
      modifies this
      ensures items == old(items) + [x]
    {
      items := items + [x];
    }

    /** Takes the oldest list. The source's `get` blocks on an empty queue;
        here it is only called once the worker has put its result. */
    method Get() returns (x: seq<int>)
      requires items != []
      modifies this
      ensures x == old(items)[0] && items == old(items)[1..]
    {
      x := items[0];
      items := items[1..];
    }
  }

  class ThreadWorker {
    const wid: int
    const jobSize: int
    const timeout: int
    const begin: int
    const end: int
    const work: IntList

    /** `Worker.__init__`: the slice of worker `wid` and an empty list. */
    constructor (wid: int, jobSize: int, timeout: int)
      ensures this.wid == wid && this.jobSize == jobSize && this.timeout == timeout
      ensures Slice(begin, end) == SliceOf(wid, jobSize)
      ensures fresh(work) && work.elems == []
    {
      this.wid := wid;
      this.jobSize := jobSize;
      this.timeout := timeout;
      work := new IntList();
      begin := wid * jobSize;
      end := wid * jobSize + jobSize;
    }

    /** `ThreadWorker.task`: the counting loop on the list it is given. */
    static method Task(wid: int, n: int, end: int, ret: IntList, timeout: int, startTime: real, o: Oracles)
      modifies ret
      ensures ret.elems == old(ret.elems) + Evens(n, n + Steps(n, end, timeout, startTime, o))
    {
      Counting.Task(n, end, ret, timeout, startTime, o);
    }

    /** `start`, with the thread run to its end: the task appends to the
        worker's own list. */
    method Start(startTime: real, o: Oracles)
      modifies work
      ensures work.elems == old(work.elems) + Evens(begin, begin + Steps(begin, end, timeout, startTime, o))
    {
      Task(wid, begin, end, work, timeout, startTime, o);
    }

    /** `print_result`: how many evens the list holds. */
    function Result(): (count: nat)
      reads work
    {
      |work.elems|
    }
  }

  class ProcessWorker {
    const wid: int
    const jobSize: int
    const timeout: int
    const begin: int
    const end: int
    const queue: ResultQueue

    /** `ProcessWorker.__init__`: the slice of worker `wid` and an empty
        queue in place of the list. */
    constructor (wid: int, jobSize: int, timeout: int)
      ensures this.wid == wid && this.jobSize == jobSize && this.timeout == timeout
      ensures Slice(begin, end) == SliceOf(wid, jobSize)
      ensures fresh(queue) && queue.items == []
    {
      this.wid := wid;
      this.jobSize := jobSize;
      this.timeout := timeout;
      queue := new ResultQueue();
      begin := wid * jobSize;
      end := wid * jobSize + jobSize;
    }

    /** `ProcessWorker.task`: the loop runs on a fresh empty list, so what is
        put on the queue holds this run's evens and nothing else. */
    static method Task(wid: int, n: int, end: int, ret: ResultQueue, timeout: int, startTime: real, o: Oracles)
      modifies ret
      ensures ret.items == old(ret.items) + [Evens(n, n + Steps(n, end, timeout, startTime, o))]
    {
      var r := new IntList();
      Counting.Task(n, end, r, timeout, startTime, o);
      assert r.elems == Evens(n, n + Steps(n, end, timeout, startTime, o));
      ret.Put(r.elems);
    }

    /** `start`, with the process run to its end. */
    method Start(startTime: real, o: Oracles)
      modifies queue
      ensures queue.items == old(queue.items) + [Evens(begin, begin + Steps(begin, end, timeout, startTime, o))]
    {
      Task(wid, begin, end, queue, timeout, startTime, o);
    }

    /** `print_result`: the length of the list the process handed back. */
    method Result() returns (count: nat)
      requires queue.items != []
      modifies queue
      ensures count == |old(queue.items)[0]| && queue.items == old(queue.items)[1..]
    {
      var val := queue.Get();
      count := |val|;
    }
  }
}
