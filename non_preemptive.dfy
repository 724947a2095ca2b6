/** What FIFO and SJF have in common: each process, once dispatched, runs to
    completion, and each dispatch emits exactly one segment. */
module NonPreemptive {
  import opened Processes
  import opened Indices
  import opened Traces

  /** The working copy describes the same jobs as the submitted list; FIFO and
      SJF never touch `remaining`. */
  predicate Copies(ps: seq<Process>, work: seq<Process>)
  {
    |work| == |ps| &&
    forall i :: 0 <= i < |ps| ==> SameJob(work[i], ps[i]) && work[i].remaining == ps[i].remaining
  }

  /** A process dispatched once, at `start`, for its whole duration: it did
      not start before it arrived, and its waiting time and its response time
      are both the delay between arrival and start. */
  predicate RanToCompletion(p: Process)
  {
    p.arrival <= p.start &&
    p.completion == p.start + p.duration &&
    p.waiting == p.start - p.arrival &&
    p.response == p.waiting
  }

  /** Lines 45-48 and 86-89 of the source: the record of a process that is
      dispatched at `start` and runs for its whole duration. */
  function Dispatch(p: Process, start: int): (q: Process)
    requires p.arrival <= start
    ensures RanToCompletion(q) && SameJob(q, p) && q.remaining == p.remaining
    ensures q.start == start
  {
    p.(start := start, completion := start + p.duration,
       waiting := start - p.arrival, response := start - p.arrival)
  }

  /** The clock when the k-th dispatch decision is taken: 0 before the first
      one, afterwards the completion time of the previous dispatch. */
  function PrevEnd(work: seq<Process>, order: seq<nat>, k: nat): int
    requires k <= |order| && Below(order, |work|)
  {
    if k == 0 then 0 else work[order[k - 1]].completion
  }

  /** The trace holds one segment per dispatch, in dispatch order, covering
      the interval from the process's start to its completion. */
  predicate OneSegmentEach(work: seq<Process>, order: seq<nat>, trace: seq<Segment>)
  {
    Below(order, |work|) && |trace| == |order| &&
    forall k :: 0 <= k < |order| ==>
      trace[k] == Segment(work[order[k]].name, work[order[k]].start, work[order[k]].completion)
  }

  /** When no dispatch starts before the previous one has completed, the
      trace is sequential. */
  lemma NonPreemptiveSequential(work: seq<Process>, order: seq<nat>, trace: seq<Segment>)
    requires OneSegmentEach(work, order, trace)
    requires forall k :: 0 <= k < |order| ==>
      RanToCompletion(work[order[k]]) && work[order[k]].duration > 0 &&
      work[order[k]].start >= PrevEnd(work, order, k)
    ensures Sequential(trace)
  {
    forall k | 0 <= k < |trace| - 1 ensures trace[k].finish <= trace[k + 1].start {
      assert PrevEnd(work, order, k + 1) == work[order[k]].completion;
    }
  }
}
