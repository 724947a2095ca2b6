/** First-come-first-served (`PlanificadorProcesos.fifo`). */
module FifoScheduler {
  import opened Processes
  import opened Indices
  import opened Arrivals
  import opened Traces
  import opened NonPreemptive

  /** What a first-come-first-served run returns: the processes in stable
      arrival order, each run to completion from the moment the CPU was free
      and it had arrived, with one segment per dispatch, one after another. */
  ghost predicate FifoOutcome(ps: seq<Process>, work: seq<Process>, order: seq<nat>, trace: seq<Segment>)
  {
    order == ArrivalOrder(ps) && Copies(ps, work) &&
    (forall i :: 0 <= i < |work| ==> RanToCompletion(work[i])) &&
    (forall k {:trigger PrevEnd(work, order, k)} :: 0 <= k < |order| ==>
      work[order[k]].start == Max(PrevEnd(work, order, k), ps[order[k]].arrival)) &&
    OneSegmentEach(work, order, trace) &&
    Sequential(trace)
  }

  /** Sorts the processes by arrival, stably, and runs them in that order,
      each to completion, on a clock that jumps over idle gaps. `work` is the
      working copy (indexed as `ps`); `order` is the returned list, the
      processes in the order they ran; `trace` the emitted segments. The
      caller's `ps` is a value and is left as it was. */
  method Fifo(ps: seq<Process>) returns (work: seq<Process>, order: seq<nat>, trace: seq<Segment>)
    requires AllWellFormed(ps)
    ensures FifoOutcome(ps, work, order, trace)
  {
    order := ArrivalOrder(ps);
    work, trace := RunInOrder(ps, order);
  }

  /** Position `m` of `order` has been dispatched: its process ran to
      completion, starting when both the CPU and the process were ready, and
      the m-th segment of the trace records it. */
  ghost predicate Ran(ps: seq<Process>, work: seq<Process>, order: seq<nat>, trace: seq<Segment>, m: nat)
  {
    m < |order| && m < |trace| && Below(order, |work|) && |work| == |ps| &&
    RanToCompletion(work[order[m]]) &&
    work[order[m]].start == Max(PrevEnd(work, order, m), ps[order[m]].arrival) &&
    trace[m] == Segment(work[order[m]].name, work[order[m]].start, work[order[m]].completion)
  }

  /** Dispatching another process leaves earlier dispatches as they were. */
  lemma RanFrame(ps: seq<Process>, work: seq<Process>, work': seq<Process>, order: seq<nat>,
                 trace: seq<Segment>, trace': seq<Segment>, m: nat)
    requires Ran(ps, work, order, trace, m) && |work'| == |work|
    requires work'[order[m]] == work[order[m]]
    requires m > 0 ==> work'[order[m - 1]] == work[order[m - 1]]
    requires |trace| <= |trace'| && trace'[..|trace|] == trace
    ensures Ran(ps, work', order, trace', m)
  {
    assert trace'[m] == trace[m];
  }

  /** The dispatch loop: runs the processes to completion in the given order.
      A process starts when the CPU is free or when it arrives, whichever is
      later. */
  method RunInOrder(ps: seq<Process>, order: seq<nat>) returns (work: seq<Process>, trace: seq<Segment>)
    requires AllWellFormed(ps) && IsPermutation(order, |ps|)
    ensures Copies(ps, work)
    ensures forall i :: 0 <= i < |work| ==> RanToCompletion(work[i])
    ensures forall k {:trigger PrevEnd(work, order, k)} :: 0 <= k < |order| ==>
      work[order[k]].start == Max(PrevEnd(work, order, k), ps[order[k]].arrival)
    ensures OneSegmentEach(work, order, trace)
    ensures Sequential(trace)
  {
    work := ps;
    var clock := 0;
    trace := [];
    for k := 0 to |order|
      invariant Copies(ps, work) && |trace| == k
      invariant clock == PrevEnd(work, order, k)
      invariant forall m :: 0 <= m < k ==> Ran(ps, work, order, trace, m)
    {
      var i := order[k];
      if clock < work[i].arrival {
        clock := work[i].arrival;
      }
      ghost var before := work;
      ghost var trace0 := trace;
      work := work[i := Dispatch(work[i], clock)];
      trace := trace + [Segment(work[i].name, work[i].start, work[i].completion)];
      clock := work[i].completion;
      forall m | 0 <= m < k ensures Ran(ps, work, order, trace, m) {
        assert order[m] != i;
        assert m > 0 ==> order[m - 1] != i;
        RanFrame(ps, before, work, order, trace0, trace, m);
      }
      assert k > 0 ==> order[k - 1] != i;
      assert Ran(ps, work, order, trace, k);
    }
    Conclusion(ps, work, order, trace);
  }

  /** The loop's invariant at its exit gives RunInOrder's postcondition. */
  lemma Conclusion(ps: seq<Process>, work: seq<Process>, order: seq<nat>, trace: seq<Segment>)
    requires AllWellFormed(ps) && IsPermutation(order, |ps|) && Copies(ps, work)
    requires |trace| == |order|
    requires forall m :: 0 <= m < |order| ==> Ran(ps, work, order, trace, m)
    ensures forall i :: 0 <= i < |work| ==> RanToCompletion(work[i])
    ensures forall k {:trigger PrevEnd(work, order, k)} :: 0 <= k < |order| ==>
      work[order[k]].start == Max(PrevEnd(work, order, k), ps[order[k]].arrival)
    ensures OneSegmentEach(work, order, trace)
    ensures Sequential(trace)
  {
    EveryProcessRan(ps, work, order, trace);
    assert OneSegmentEach(work, order, trace) by {
      forall k | 0 <= k < |order|
        ensures trace[k] == Segment(work[order[k]].name, work[order[k]].start, work[order[k]].completion)
      {
        assert Ran(ps, work, order, trace, k);
      }
    }
    forall k | 0 <= k < |order|
      ensures RanToCompletion(work[order[k]]) && work[order[k]].duration > 0
      ensures work[order[k]].start == Max(PrevEnd(work, order, k), ps[order[k]].arrival)
    {
      assert Ran(ps, work, order, trace, k);
      assert WellFormed(ps[order[k]]);
    }
    NonPreemptiveSequential(work, order, trace);
  }

  lemma EveryProcessRan(ps: seq<Process>, work: seq<Process>, order: seq<nat>, trace: seq<Segment>)
    requires IsPermutation(order, |ps|) && |work| == |ps|
    requires forall m :: 0 <= m < |order| ==> Ran(ps, work, order, trace, m)
    ensures forall i :: 0 <= i < |work| ==> RanToCompletion(work[i])
  {
    PermutationCovers(order, |ps|);
    forall i | 0 <= i < |work| ensures RanToCompletion(work[i]) {
      assert i in order;
      var m :| 0 <= m < |order| && order[m] == i;
      assert Ran(ps, work, order, trace, m);
    }
  }
}
