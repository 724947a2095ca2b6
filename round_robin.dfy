/** Preemptive round robin (`PlanificadorProcesos.round_robin`). */
module RoundRobinScheduler {
  import opened Processes
  import opened Indices
  import opened Arrivals
  import opened Traces

  /** `min(self.quantum, proceso_actual.tiempo_restante)`: the length of the
      next slice. */
  function SliceLength(quantum: int, remaining: int): (e: int)
    ensures e <= quantum && e <= remaining && (e == quantum || e == remaining)
    ensures quantum > 0 && remaining > 0 ==> e > 0
  {
    if quantum <= remaining then quantum else remaining
  }

  /** Where the admission loop that starts at `cursor` stops at `clock`: at
      the first process in arrival order, from `cursor` on, that has not yet
      arrived, or at the end of the list. */
  function AdmitCursor(work: seq<Process>, ord: seq<nat>, cursor: nat, clock: int): (c: nat)
    requires cursor <= |ord| && Below(ord, |work|)
    ensures cursor <= c <= |ord|
    ensures forall a :: cursor <= a < c ==> work[ord[a]].arrival <= clock
    ensures c < |ord| ==> work[ord[c]].arrival > clock
    decreases |ord| - cursor
  {
    if cursor < |ord| && work[ord[cursor]].arrival <= clock then AdmitCursor(work, ord, cursor + 1, clock)
    else cursor
  }

  /** The stopping point is the only one with those properties. */
  lemma {:induction false} AdmitCursorUnique(work: seq<Process>, ord: seq<nat>, cursor: nat, clock: int, c: nat)
    requires Below(ord, |work|) && cursor <= c <= |ord|
    requires forall a :: cursor <= a < c ==> work[ord[a]].arrival <= clock
    requires c < |ord| ==> work[ord[c]].arrival > clock
    ensures c == AdmitCursor(work, ord, cursor, clock)
    decreases c - cursor
  {
    if cursor < c {
      AdmitCursorUnique(work, ord, cursor + 1, clock, c);
    }
  }

  /** The admission loops (lines 114-117 and 144-147): appends to the queue,
      in arrival order, every process from `cursor` on that has arrived by
      `clock`, and stops at the first one that has not. */
  method Admit(work: seq<Process>, ord: seq<nat>, queue: seq<nat>, cursor: nat, clock: int)
    returns (queue': seq<nat>, cursor': nat)
    requires cursor <= |ord| && Below(ord, |work|)
    ensures cursor <= cursor' <= |ord| && queue' == queue + ord[cursor..cursor']
    ensures forall a :: cursor <= a < cursor' ==> work[ord[a]].arrival <= clock
    ensures cursor' < |ord| ==> work[ord[cursor']].arrival > clock
    ensures cursor' == AdmitCursor(work, ord, cursor, clock)
  {
    queue', cursor' := queue, cursor;
    while cursor' < |ord| && work[ord[cursor']].arrival <= clock
      invariant cursor <= cursor' <= |ord| && queue' == queue + ord[cursor..cursor']
      invariant forall a :: cursor <= a < cursor' ==> work[ord[a]].arrival <= clock
      invariant AdmitCursor(work, ord, cursor', clock) == AdmitCursor(work, ord, cursor, clock)
    {
      assert ord[cursor..cursor' + 1] == ord[cursor..cursor'] + [ord[cursor']];
      queue' := queue' + [ord[cursor']];
      cursor' := cursor' + 1;
    }
  }

  /** No process is owed a negative amount of CPU time. */
  ghost predicate NonNegative(work: seq<Process>)
  {
    forall i :: 0 <= i < |work| ==> work[i].remaining >= 0
  }

  /** The total CPU time still owed to the processes. */
  ghost function Outstanding(work: seq<Process>): nat
    requires NonNegative(work)
  {
    if |work| == 0 then 0
    else Outstanding(work[..|work| - 1]) + work[|work| - 1].remaining
  }

  lemma {:induction false} OutstandingUpdate(work: seq<Process>, h: nat, p: Process)
    requires h < |work| && p.remaining >= 0 && NonNegative(work)
    ensures NonNegative(work[h := p])
    ensures Outstanding(work[h := p]) == Outstanding(work) - work[h].remaining + p.remaining
  {
    var n := |work| - 1;
    if h == n {
      assert work[h := p][..n] == work[..n];
    } else {
      assert work[h := p][..n] == work[..n][h := p];
      OutstandingUpdate(work[..n], h, p);
    }
  }

  /** The processes keep their jobs and their start (round robin never sets
      `tiempo_inicio`); the segment owners are process indices. */
  ghost predicate Basics(ps: seq<Process>, quantum: int, ord: seq<nat>, work: seq<Process>,
                         cursor: nat, trace: seq<Segment>, owner: seq<nat>)
  {
    AllWellFormed(ps) && quantum > 0 && IsPermutation(ord, |ps|) &&
    |work| == |ps| && cursor <= |ps| && |owner| == |trace| && Below(owner, |ps|) &&
    forall i :: 0 <= i < |ps| ==> SameJob(work[i], ps[i]) && work[i].start == ps[i].start
  }

  /** The admitted processes, the first `cursor` in arrival order, are each
      either queued or completed, exactly once. */
  ghost predicate Partition(ps: seq<Process>, ord: seq<nat>, queue: seq<nat>, order: seq<nat>, cursor: nat)
  {
    |ord| == |ps| && cursor <= |ord| &&
    multiset(queue) + multiset(order) == multiset(ord[..cursor])
  }

  /** What the partition says about the two lists: neither holds a process
      twice, no process is in both, and together they hold exactly the
      admitted processes. */
  /** The process at the head of the ready queue is one of the submitted ones. */
  lemma HeadIsProcess(ps: seq<Process>, ord: seq<nat>, queue: seq<nat>, order: seq<nat>, cursor: nat)
    requires Partition(ps, ord, queue, order, cursor) && IsPermutation(ord, |ps|) && queue != []
    ensures queue[0] < |ps|
  {
    PartitionFacts(ps, ord, queue, order, cursor);
    assert queue[0] in queue;
  }

  lemma PartitionFacts(ps: seq<Process>, ord: seq<nat>, queue: seq<nat>, order: seq<nat>, cursor: nat)
    requires Partition(ps, ord, queue, order, cursor) && IsPermutation(ord, |ps|)
    ensures Distinct(queue) && Distinct(order) && Below(queue, |ps|) && Below(order, |ps|)
    ensures forall x :: x in queue ==> x !in order
    ensures forall x :: x in queue || x in order <==> x in ord[..cursor]
  {
    var admitted := ord[..cursor];
    assert Distinct(admitted);
    DistinctMultiplicity(admitted);
    assert forall x :: multiset(queue)[x] <= multiset(admitted)[x];
    assert forall x :: multiset(order)[x] <= multiset(admitted)[x];
    MultiplicityDistinct(queue);
    MultiplicityDistinct(order);
    forall x | x in queue || x in order ensures x in admitted {
      assert x in multiset(queue) + multiset(order);
    }
    forall x | x in admitted ensures x < |ps| {
      var a :| 0 <= a < |admitted| && admitted[a] == x;
      assert ord[a] == x;
    }
    forall x | x in admitted ensures x in queue || x in order {
      assert x in multiset(admitted);
    }
    forall x | x in queue ensures x !in order {
      assert multiset(queue)[x] >= 1;
    }
    forall a | 0 <= a < |queue| ensures queue[a] < |ps| { assert queue[a] in queue; }
    forall a | 0 <= a < |order| ensures order[a] < |ps| { assert order[a] in order; }
  }

  /** The record of process `i` agrees with the trace: its remaining time is
      its duration less the CPU time it has had; it is completed exactly when
      nothing remains, and then its completion is the end of its last segment
      and its waiting time what the source computes; its response is -1 until
      its first segment and then the delay from arrival to that segment; and
      a process not yet admitted is untouched. */
  ghost predicate ProcWell(ps: seq<Process>, work: seq<Process>, queue: seq<nat>, order: seq<nat>,
                           trace: seq<Segment>, owner: seq<nat>, i: nat)
  {
    i < |ps| && |work| == |ps| && |trace| == |owner| &&
    Busy(trace, owner, i) + work[i].remaining == ps[i].duration &&
    (i in order ==>
      work[i].remaining == 0 && i in owner &&
      work[i].completion == trace[LastOf(owner, i)].finish &&
      work[i].waiting == work[i].completion - ps[i].arrival - ps[i].duration) &&
    (i !in order ==> work[i].remaining > 0) &&
    (i !in owner ==> work[i].response == NotDispatched) &&
    (i in owner ==> work[i].response == trace[FirstOf(owner, i)].start - ps[i].arrival) &&
    (i !in queue && i !in order ==> i !in owner && work[i] == ps[i])
  }

  ghost predicate Bookkeeping(ps: seq<Process>, work: seq<Process>, queue: seq<nat>, order: seq<nat>,
                              trace: seq<Segment>, owner: seq<nat>)
  {
    forall i :: 0 <= i < |ps| ==> ProcWell(ps, work, queue, order, trace, owner, i)
  }

  /** Segment `k` ran its owner, which had arrived, for `min(quantum,
      remaining)`, where remaining is what the earlier segments left of its
      duration. */
  ghost predicate SegWell(ps: seq<Process>, quantum: int, trace: seq<Segment>, owner: seq<nat>, k: nat)
  {
    k < |trace| && |trace| == |owner| && owner[k] < |ps| &&
    trace[k].process == ps[owner[k]].name &&
    ps[owner[k]].arrival <= trace[k].start &&
    0 < trace[k].finish - trace[k].start <= quantum &&
    trace[k].finish - trace[k].start ==
      SliceLength(quantum, ps[owner[k]].duration - Busy(trace[..k], owner[..k], owner[k]))
  }

  ghost predicate Segments(ps: seq<Process>, quantum: int, trace: seq<Segment>, owner: seq<nat>)
  {
    (forall k :: 0 <= k < |trace| ==> SegWell(ps, quantum, trace, owner, k)) &&
    Sequential(trace)
  }

  /** The clock is past every admitted arrival, every segment and every
      completion, and not past the next arrival in line; processes complete
      in the order of `completados`. */
  ghost predicate Timing(ps: seq<Process>, ord: seq<nat>, work: seq<Process>, order: seq<nat>,
                         cursor: nat, clock: int, trace: seq<Segment>)
  {
    |ord| == |ps| && cursor <= |ord| && Below(ord, |ps|) && |work| == |ps| && Below(order, |ps|) &&
    (forall a :: 0 <= a < cursor ==> ps[ord[a]].arrival <= clock) &&
    (cursor < |ord| ==> ps[ord[cursor]].arrival >= clock) &&
    (|trace| > 0 ==> trace[|trace| - 1].finish <= clock) &&
    (forall a, b :: 0 <= a < b < |order| ==> work[order[a]].completion < work[order[b]].completion) &&
    (|order| > 0 ==> work[order[|order| - 1]].completion <= clock)
  }

  /** What holds each time the outer `while` condition is evaluated, and
      again after each admission. `ord` is `procesos_ordenados`, `queue` is
      `cola`, `order` is `completados`, `cursor` is `indice_proceso`, and the
      ghost `owner` names the process of each segment. */
  ghost predicate RrInv(ps: seq<Process>, quantum: int, ord: seq<nat>, work: seq<Process>,
                        queue: seq<nat>, order: seq<nat>, cursor: nat, clock: int,
                        trace: seq<Segment>, owner: seq<nat>)
  {
    Basics(ps, quantum, ord, work, cursor, trace, owner) &&
    Partition(ps, ord, queue, order, cursor) &&
    Bookkeeping(ps, work, queue, order, trace, owner) &&
    Segments(ps, quantum, trace, owner) &&
    Timing(ps, ord, work, order, cursor, clock, trace)
  }

  lemma InitialInv(ps: seq<Process>, quantum: int, ord: seq<nat>)
    requires AllWellFormed(ps) && quantum > 0 && IsPermutation(ord, |ps|)
    requires forall i :: 0 <= i < |ps| ==> Undispatched(ps[i])
    ensures RrInv(ps, quantum, ord, ps, [], [], 0, 0, [], [])
  {
    forall i | 0 <= i < |ps| ensures ProcWell(ps, ps, [], [], [], [], i) {
      assert WellFormed(ps[i]) && Undispatched(ps[i]);
    }
    forall a | 0 <= a < |ord| ensures ps[ord[a]].arrival >= 0 {
      assert WellFormed(ps[ord[a]]);
    }
  }

  /** The sentinel works: a process's response is -1 exactly when it has
      not yet had a segment. */
  lemma SentinelMeansUndispatched(ps: seq<Process>, quantum: int, work: seq<Process>, queue: seq<nat>,
                                  order: seq<nat>, trace: seq<Segment>, owner: seq<nat>, i: nat)
    requires Bookkeeping(ps, work, queue, order, trace, owner) && Segments(ps, quantum, trace, owner)
    requires i < |ps| && |work| == |ps|
    ensures work[i].response == NotDispatched <==> i !in owner
  {
    assert ProcWell(ps, work, queue, order, trace, owner, i);
    if i in owner {
      assert SegWell(ps, quantum, trace, owner, FirstOf(owner, i));
    }
  }

  /** An empty queue while some process is uncompleted means some process
      has not been admitted yet: every admitted, uncompleted process is in
      the queue. So the idle branch always has an arrival to jump to. */
  lemma EmptyQueueMeansArrivalPending(ps: seq<Process>, ord: seq<nat>, order: seq<nat>, cursor: nat)
    requires Partition(ps, ord, [], order, cursor) && IsPermutation(ord, |ps|) && |order| < |ps|
    ensures cursor < |ord|
  {
    PartitionFacts(ps, ord, [], order, cursor);
    MissingIndex(order, |ps|);
    var i :| 0 <= i < |ps| && i !in order;
    PermutationCovers(ord, |ps|);
    assert i in ord;
    var p :| 0 <= p < |ord| && ord[p] == i;
    assert i !in ord[..cursor];
    forall a | 0 <= a < cursor ensures ord[a] in ord[..cursor] {
      assert ord[..cursor][a] == ord[a];
    }
    assert p >= cursor;
  }

  /** Admission keeps the invariant. */
  lemma AdmitKeepsInv(ps: seq<Process>, quantum: int, ord: seq<nat>, work: seq<Process>,
                      queue: seq<nat>, order: seq<nat>, cursor: nat, clock: int,
                      trace: seq<Segment>, owner: seq<nat>, queue': seq<nat>, cursor': nat)
    requires RrInv(ps, quantum, ord, work, queue, order, cursor, clock, trace, owner)
    requires cursor <= cursor' <= |ord| && queue' == queue + ord[cursor..cursor']
    requires forall a :: cursor <= a < cursor' ==> work[ord[a]].arrival <= clock
    requires cursor' < |ord| ==> work[ord[cursor']].arrival > clock
    ensures RrInv(ps, quantum, ord, work, queue', order, cursor', clock, trace, owner)
  {
    AdmitPartition(ps, ord, queue, order, cursor, cursor');
    forall i | 0 <= i < |ps| ensures ProcWell(ps, work, queue', order, trace, owner, i) {
      assert ProcWell(ps, work, queue, order, trace, owner, i);
      assert i in queue ==> i in queue';
    }
    forall a | 0 <= a < cursor' ensures ps[ord[a]].arrival <= clock {
      assert SameJob(work[ord[a]], ps[ord[a]]);
    }
    assert cursor' < |ord| ==> SameJob(work[ord[cursor']], ps[ord[cursor']]);
  }

  lemma AdmitPartition(ps: seq<Process>, ord: seq<nat>, queue: seq<nat>, order: seq<nat>,
                       cursor: nat, cursor': nat)
    requires Partition(ps, ord, queue, order, cursor)
    requires cursor <= cursor' <= |ord|
    ensures Partition(ps, ord, queue + ord[cursor..cursor'], order, cursor')
  {
    assert ord[..cursor'] == ord[..cursor] + ord[cursor..cursor'];
  }

  /** The idle jump keeps the invariant: nothing is queued, and the clock
      moves forward to the next arrival in line. */
  lemma JumpKeepsInv(ps: seq<Process>, quantum: int, ord: seq<nat>, work: seq<Process>,
                     order: seq<nat>, cursor: nat, clock: int, trace: seq<Segment>, owner: seq<nat>)
    requires RrInv(ps, quantum, ord, work, [], order, cursor, clock, trace, owner)
    requires cursor < |ord|
    ensures ps[ord[cursor]].arrival >= clock
    ensures RrInv(ps, quantum, ord, work, [], order, cursor, ps[ord[cursor]].arrival, trace, owner)
  {
  }

  /** One pass of the outer loop with a non-empty queue (lines 125-158),
      stated on the state before and after: the head of the queue runs for
      `min(quantum, remaining)` from `clock`, getting its response time if this
      is its first segment; the processes that arrived meanwhile are queued;
      then the head either goes back to the end of the queue or, with nothing
      left, is completed with its completion and waiting times. */
  ghost predicate SliceStep(ps: seq<Process>, quantum: int, ord: seq<nat>,
                            work: seq<Process>, queue: seq<nat>, order: seq<nat>, cursor: nat,
                            clock: int, trace: seq<Segment>, owner: seq<nat>,
                            work': seq<Process>, queue': seq<nat>, order': seq<nat>, cursor': nat,
                            clock': int, trace': seq<Segment>, owner': seq<nat>)
  {
    queue != [] && |work| == |ps| && queue[0] < |ps| && cursor <= cursor' <= |ord| &&
    Below(ord, |ps|) &&
    var h := queue[0];
    var e := SliceLength(quantum, work[h].remaining);
    var left := work[h].remaining - e;
    clock' == clock + e &&
    trace' == trace + [Segment(ps[h].name, clock, clock')] && owner' == owner + [h] &&
    (forall a :: cursor <= a < cursor' ==> ps[ord[a]].arrival <= clock') &&
    (cursor' < |ord| ==> ps[ord[cursor']].arrival > clock') &&
    queue' == queue[1..] + ord[cursor..cursor'] + (if left > 0 then [h] else []) &&
    order' == order + (if left > 0 then [] else [h]) &&
    |work'| == |work| &&
    (forall i :: 0 <= i < |work| && i != h ==> work'[i] == work[i]) &&
    work'[h] == work[h].(remaining := left,
                         response := if work[h].response == NotDispatched then clock - ps[h].arrival
                                     else work[h].response,
                         completion := if left > 0 then work[h].completion else clock',
                         waiting := if left > 0 then work[h].waiting
                                    else clock' - ps[h].arrival - ps[h].duration)
  }

  /** The state of the outer loop each time its condition is evaluated:
      the working copies, `cola`, `completados`, `indice_proceso`,
      `tiempo_actual`, `secuencia`, and the owner of each segment. */
  datatype State = State(work: seq<Process>, queue: seq<nat>, order: seq<nat>, cursor: nat,
                         clock: int, trace: seq<Segment>, owner: seq<nat>)

  /** One pass of the outer loop, from the state `s` to the state `s'`: the
      admission loop runs; with the queue still empty the clock jumps to the
      next arrival in line, otherwise the head of the queue gets a slice. */
  ghost predicate Pass(ps: seq<Process>, quantum: int, ord: seq<nat>, s: State, s': State)
  {
    s.cursor <= |ord| && Below(ord, |s.work|) &&
    var c := AdmitCursor(s.work, ord, s.cursor, s.clock);
    var q := s.queue + ord[s.cursor..c];
    if q == [] then
      c < |ord| && s' == s.(cursor := c, clock := s.work[ord[c]].arrival)
    else
      SliceStep(ps, quantum, ord, s.work, q, s.order, c, s.clock, s.trace, s.owner,
                s'.work, s'.queue, s'.order, s'.cursor, s'.clock, s'.trace, s'.owner)
  }

  /** `runs` is the sequence of states the loop goes through: it starts with
      nothing queued, completed or traced at time 0, and each state that
      leaves some process uncompleted is followed by the state one pass
      later. */
  ghost predicate Run(ps: seq<Process>, quantum: int, ord: seq<nat>, runs: seq<State>)
  {
    |runs| > 0 && runs[0] == State(ps, [], [], 0, 0, [], []) &&
    forall i :: 0 <= i < |runs| - 1 ==>
      |runs[i].order| < |ps| && Pass(ps, quantum, ord, runs[i], runs[i + 1])
  }

  /** One slice of the outer loop (lines 125-158), specified by the step
      relation; SliceKeepsInv shows that the step keeps the invariant. */
  method Slice(ps: seq<Process>, quantum: int, ord: seq<nat>, work: seq<Process>,
               queue: seq<nat>, order: seq<nat>, cursor: nat, clock: int,
               trace: seq<Segment>, ghost owner: seq<nat>)
    returns (work': seq<Process>, queue': seq<nat>, order': seq<nat>, cursor': nat,
             clock': int, trace': seq<Segment>, ghost owner': seq<nat>)
    requires Basics(ps, quantum, ord, work, cursor, trace, owner) && |ord| == |ps|
    requires queue != [] && queue[0] < |ps|
    ensures SliceStep(ps, quantum, ord, work, queue, order, cursor, clock, trace, owner,
                      work', queue', order', cursor', clock', trace', owner')
  {
    var h := queue[0];
    assert SameJob(work[h], ps[h]);
    queue' := queue[1..];
    work' := work;
    if work'[h].response == NotDispatched {
      work' := work'[h := work'[h].(response := clock - work'[h].arrival)];
    }
    var e := SliceLength(quantum, work'[h].remaining);
    var segmentStart := clock;
    clock' := clock + e;
    work' := work'[h := work'[h].(remaining := work'[h].remaining - e)];
    trace' := trace + [Segment(work'[h].name, segmentStart, clock')];
    owner' := owner + [h];
    assert Below(ord, |work'|);
    queue', cursor' := Admit(work', ord, queue', cursor, clock');
    if work'[h].remaining > 0 {
      queue' := queue' + [h];
      order' := order;
    } else {
      work' := work'[h := work'[h].(completion := clock',
                                    waiting := clock' - work'[h].arrival - work'[h].duration)];
      order' := order + [h];
    }
    forall a | cursor <= a < cursor' ensures ps[ord[a]].arrival <= clock' {
      assert SameJob(work[ord[a]], ps[ord[a]]);
    }
    assert cursor' < |ord| ==> SameJob(work[ord[cursor']], ps[ord[cursor']]);
  }

  lemma SliceKeepsInv(ps: seq<Process>, quantum: int, ord: seq<nat>,
                      work: seq<Process>, queue: seq<nat>, order: seq<nat>, cursor: nat,
                      clock: int, trace: seq<Segment>, owner: seq<nat>,
                      work': seq<Process>, queue': seq<nat>, order': seq<nat>, cursor': nat,
                      clock': int, trace': seq<Segment>, owner': seq<nat>)
    requires RrInv(ps, quantum, ord, work, queue, order, cursor, clock, trace, owner)
    requires SliceStep(ps, quantum, ord, work, queue, order, cursor, clock, trace, owner,
                       work', queue', order', cursor', clock', trace', owner')
    ensures RrInv(ps, quantum, ord, work', queue', order', cursor', clock', trace', owner')
    ensures NonNegative(work) && NonNegative(work')
    ensures Outstanding(work') < Outstanding(work)
  {
    SliceBasics(ps, quantum, ord, work, queue, order, cursor, clock, trace, owner,
                work', queue', order', cursor', clock', trace', owner');
    SlicePartition(ps, quantum, ord, work, queue, order, cursor, clock, trace, owner,
                   work', queue', order', cursor', clock', trace', owner');
    SliceBookkeeping(ps, quantum, ord, work, queue, order, cursor, clock, trace, owner,
                     work', queue', order', cursor', clock', trace', owner');
    SliceSegments(ps, quantum, ord, work, queue, order, cursor, clock, trace, owner,
                  work', queue', order', cursor', clock', trace', owner');
    SliceTiming(ps, quantum, ord, work, queue, order, cursor, clock, trace, owner,
                work', queue', order', cursor', clock', trace', owner');
    SliceOutstanding(ps, quantum, ord, work, queue, order, cursor, clock, trace, owner,
                     work', queue', order', cursor', clock', trace', owner');
  }

  /** Each slice takes a positive amount off the CPU time owed. */
  lemma SliceOutstanding(ps: seq<Process>, quantum: int, ord: seq<nat>,
                         work: seq<Process>, queue: seq<nat>, order: seq<nat>, cursor: nat,
                         clock: int, trace: seq<Segment>, owner: seq<nat>,
                         work': seq<Process>, queue': seq<nat>, order': seq<nat>, cursor': nat,
                         clock': int, trace': seq<Segment>, owner': seq<nat>)
    requires RrInv(ps, quantum, ord, work, queue, order, cursor, clock, trace, owner)
    requires SliceStep(ps, quantum, ord, work, queue, order, cursor, clock, trace, owner,
                       work', queue', order', cursor', clock', trace', owner')
    ensures NonNegative(work) && NonNegative(work')
    ensures Outstanding(work') < Outstanding(work)
  {
    var h := queue[0];
    assert h in queue;
    PartitionFacts(ps, ord, queue, order, cursor);
    assert ProcWell(ps, work, queue, order, trace, owner, h);
    var e := SliceLength(quantum, work[h].remaining);
    assert e > 0;
    assert NonNegative(work) by {
      forall i | 0 <= i < |work| ensures work[i].remaining >= 0 {
        assert ProcWell(ps, work, queue, order, trace, owner, i);
      }
    }
    OutstandingUpdate(work, h, work'[h]);
    assert work' == work[h := work'[h]];
  }

  lemma SliceBasics(ps: seq<Process>, quantum: int, ord: seq<nat>,
                    work: seq<Process>, queue: seq<nat>, order: seq<nat>, cursor: nat,
                    clock: int, trace: seq<Segment>, owner: seq<nat>,
                    work': seq<Process>, queue': seq<nat>, order': seq<nat>, cursor': nat,
                    clock': int, trace': seq<Segment>, owner': seq<nat>)
    requires RrInv(ps, quantum, ord, work, queue, order, cursor, clock, trace, owner)
    requires SliceStep(ps, quantum, ord, work, queue, order, cursor, clock, trace, owner,
                       work', queue', order', cursor', clock', trace', owner')
    ensures Basics(ps, quantum, ord, work', cursor', trace', owner')
  {
    assert queue[0] in queue;
  }

  lemma SlicePartition(ps: seq<Process>, quantum: int, ord: seq<nat>,
                       work: seq<Process>, queue: seq<nat>, order: seq<nat>, cursor: nat,
                       clock: int, trace: seq<Segment>, owner: seq<nat>,
                       work': seq<Process>, queue': seq<nat>, order': seq<nat>, cursor': nat,
                       clock': int, trace': seq<Segment>, owner': seq<nat>)
    requires RrInv(ps, quantum, ord, work, queue, order, cursor, clock, trace, owner)
    requires SliceStep(ps, quantum, ord, work, queue, order, cursor, clock, trace, owner,
                       work', queue', order', cursor', clock', trace', owner')
    ensures Partition(ps, ord, queue', order', cursor')
  {
    var h := queue[0];
    var left := work[h].remaining - SliceLength(quantum, work[h].remaining);
    RotatePartition(ps, ord, queue, order, cursor, cursor', left > 0);
  }

  /** Taking the head off the queue, admitting the next arrivals behind the
      rest, and then requeueing the head or marking it completed keeps every
      admitted process in exactly one of the two lists. */
  lemma RotatePartition(ps: seq<Process>, ord: seq<nat>, queue: seq<nat>, order: seq<nat>,
                        cursor: nat, cursor': nat, requeue: bool)
    requires Partition(ps, ord, queue, order, cursor) && queue != [] && cursor <= cursor' <= |ord|
    ensures Partition(ps, ord, queue[1..] + ord[cursor..cursor'] + (if requeue then [queue[0]] else []),
                      order + (if requeue then [] else [queue[0]]), cursor')
  {
    assert queue == [queue[0]] + queue[1..];
    assert ord[..cursor'] == ord[..cursor] + ord[cursor..cursor'];
  }

  lemma SliceBookkeeping(ps: seq<Process>, quantum: int, ord: seq<nat>,
                         work: seq<Process>, queue: seq<nat>, order: seq<nat>, cursor: nat,
                         clock: int, trace: seq<Segment>, owner: seq<nat>,
                         work': seq<Process>, queue': seq<nat>, order': seq<nat>, cursor': nat,
                         clock': int, trace': seq<Segment>, owner': seq<nat>)
    requires RrInv(ps, quantum, ord, work, queue, order, cursor, clock, trace, owner)
    requires SliceStep(ps, quantum, ord, work, queue, order, cursor, clock, trace, owner,
                       work', queue', order', cursor', clock', trace', owner')
    ensures Bookkeeping(ps, work', queue', order', trace', owner')
  {
    var h := queue[0];
    forall i | 0 <= i < |ps| ensures ProcWell(ps, work', queue', order', trace', owner', i) {
      if i == h {
        SliceHead(ps, quantum, ord, work, queue, order, cursor, clock, trace, owner,
                  work', queue', order', cursor', clock', trace', owner');
      } else {
        SliceOther(ps, quantum, ord, work, queue, order, cursor, clock, trace, owner,
                   work', queue', order', cursor', clock', trace', owner', i);
      }
    }
  }

  lemma SliceHead(ps: seq<Process>, quantum: int, ord: seq<nat>,
                  work: seq<Process>, queue: seq<nat>, order: seq<nat>, cursor: nat,
                  clock: int, trace: seq<Segment>, owner: seq<nat>,
                  work': seq<Process>, queue': seq<nat>, order': seq<nat>, cursor': nat,
                  clock': int, trace': seq<Segment>, owner': seq<nat>)
    requires RrInv(ps, quantum, ord, work, queue, order, cursor, clock, trace, owner)
    requires SliceStep(ps, quantum, ord, work, queue, order, cursor, clock, trace, owner,
                       work', queue', order', cursor', clock', trace', owner')
    ensures ProcWell(ps, work', queue', order', trace', owner', queue[0])
  {
    var h := queue[0];
    assert h in queue;
    PartitionFacts(ps, ord, queue, order, cursor);
    assert ProcWell(ps, work, queue, order, trace, owner, h);
    SentinelMeansUndispatched(ps, quantum, work, queue, order, trace, owner, h);
    BusyAppend(trace, owner, trace'[|trace|], h, h);
    assert trace' == trace + [trace'[|trace|]];
    FirstOfAppend(owner, h, h);
    LastOfAppend(owner, h, h);
    assert h in owner';
    assert FirstOf(owner', h) < |trace| ==> trace'[FirstOf(owner', h)] == trace[FirstOf(owner', h)];
  }

  lemma SliceOther(ps: seq<Process>, quantum: int, ord: seq<nat>,
                   work: seq<Process>, queue: seq<nat>, order: seq<nat>, cursor: nat,
                   clock: int, trace: seq<Segment>, owner: seq<nat>,
                   work': seq<Process>, queue': seq<nat>, order': seq<nat>, cursor': nat,
                   clock': int, trace': seq<Segment>, owner': seq<nat>, i: nat)
    requires RrInv(ps, quantum, ord, work, queue, order, cursor, clock, trace, owner)
    requires SliceStep(ps, quantum, ord, work, queue, order, cursor, clock, trace, owner,
                       work', queue', order', cursor', clock', trace', owner')
    requires i < |ps| && i != queue[0]
    ensures ProcWell(ps, work', queue', order', trace', owner', i)
  {
    var h := queue[0];
    assert ProcWell(ps, work, queue, order, trace, owner, i);
    BusyAppend(trace, owner, trace'[|trace|], h, i);
    assert trace' == trace + [trace'[|trace|]];
    FirstOfAppend(owner, h, i);
    LastOfAppend(owner, h, i);
    assert i in owner' <==> i in owner;
    assert i in order' <==> i in order;
    assert i in queue ==> i in queue' by {
      if i in queue {
        var a :| 0 <= a < |queue| && queue[a] == i;
        assert queue[1..][a - 1] == i;
      }
    }
    assert FirstOf(owner, i) >= 0 ==> trace'[FirstOf(owner, i)] == trace[FirstOf(owner, i)];
    assert LastOf(owner, i) >= 0 ==> trace'[LastOf(owner, i)] == trace[LastOf(owner, i)];
  }

  lemma SliceSegments(ps: seq<Process>, quantum: int, ord: seq<nat>,
                      work: seq<Process>, queue: seq<nat>, order: seq<nat>, cursor: nat,
                      clock: int, trace: seq<Segment>, owner: seq<nat>,
                      work': seq<Process>, queue': seq<nat>, order': seq<nat>, cursor': nat,
                      clock': int, trace': seq<Segment>, owner': seq<nat>)
    requires RrInv(ps, quantum, ord, work, queue, order, cursor, clock, trace, owner)
    requires SliceStep(ps, quantum, ord, work, queue, order, cursor, clock, trace, owner,
                       work', queue', order', cursor', clock', trace', owner')
    ensures Segments(ps, quantum, trace', owner')
  {
    var h := queue[0];
    assert h in queue;
    assert ProcWell(ps, work, queue, order, trace, owner, h);
    assert SameJob(work[h], ps[h]);
    PartitionFacts(ps, ord, queue, order, cursor);
    assert h in ord[..cursor];
    var a :| 0 <= a < cursor && ord[..cursor][a] == h;
    AppendSegment(ps, quantum, trace, owner, h, clock, clock');
  }

  /** Appending a segment in which an arrived process with work left runs
      for a slice, from a clock past the last segment, keeps the trace well
      formed. */
  lemma AppendSegment(ps: seq<Process>, quantum: int, trace: seq<Segment>, owner: seq<nat>,
                      h: nat, clock: int, clock': int)
    requires Segments(ps, quantum, trace, owner) && |trace| == |owner| && quantum > 0
    requires h < |ps| && ps[h].arrival <= clock
    requires |trace| > 0 ==> trace[|trace| - 1].finish <= clock
    requires ps[h].duration - Busy(trace, owner, h) > 0
    requires clock' == clock + SliceLength(quantum, ps[h].duration - Busy(trace, owner, h))
    ensures Segments(ps, quantum, trace + [Segment(ps[h].name, clock, clock')], owner + [h])
  {
    var trace', owner' := trace + [Segment(ps[h].name, clock, clock')], owner + [h];
    var n := |trace|;
    assert trace'[..n] == trace && owner'[..n] == owner;
    forall k | 0 <= k < n ensures SegWell(ps, quantum, trace', owner', k) {
      SegWellExtend(ps, quantum, trace, owner, trace', owner', k);
    }
    assert SegWell(ps, quantum, trace', owner', n);
  }

  /** Segment `k` stays well formed when the trace grows at its end. */
  lemma SegWellExtend(ps: seq<Process>, quantum: int, trace: seq<Segment>, owner: seq<nat>,
                      trace': seq<Segment>, owner': seq<nat>, k: nat)
    requires SegWell(ps, quantum, trace, owner, k) && |trace'| == |owner'| && |trace| <= |trace'|
    requires trace'[..|trace|] == trace && owner'[..|owner|] == owner
    ensures SegWell(ps, quantum, trace', owner', k)
  {
    assert trace'[..k] == trace[..k] && owner'[..k] == owner[..k];
    assert trace'[k] == trace[k] && owner'[k] == owner[k];
  }

  lemma SliceTiming(ps: seq<Process>, quantum: int, ord: seq<nat>,
                    work: seq<Process>, queue: seq<nat>, order: seq<nat>, cursor: nat,
                    clock: int, trace: seq<Segment>, owner: seq<nat>,
                    work': seq<Process>, queue': seq<nat>, order': seq<nat>, cursor': nat,
                    clock': int, trace': seq<Segment>, owner': seq<nat>)
    requires RrInv(ps, quantum, ord, work, queue, order, cursor, clock, trace, owner)
    requires SliceStep(ps, quantum, ord, work, queue, order, cursor, clock, trace, owner,
                       work', queue', order', cursor', clock', trace', owner')
    ensures Timing(ps, ord, work', order', cursor', clock', trace')
  {
    var h := queue[0];
    assert h in queue;
    assert ProcWell(ps, work, queue, order, trace, owner, h);
    assert SameJob(work[h], ps[h]) && WellFormed(ps[h]);
    PartitionFacts(ps, ord, queue, order, cursor);
    forall a | 0 <= a < |order| ensures work'[order[a]] == work[order[a]] {
      assert order[a] in order;
    }
    Extend(order, h, |ps|);
  }

  /** What a round-robin run returns: every process completed; each got
      exactly its duration of CPU time, its response time is the delay to its
      first segment and its completion the end of its last; every segment ran
      an arrived process for `min(quantum, remaining)`, one after another;
      `order` lists the processes by completion time; and `runs` is the run
      of the loop that ends in these results. */
  ghost predicate RoundRobinOutcome(ps: seq<Process>, quantum: int, work: seq<Process>, order: seq<nat>,
                                    trace: seq<Segment>, owner: seq<nat>, runs: seq<State>)
  {
    IsPermutation(order, |ps|) && |work| == |ps| && |owner| == |trace| && Below(owner, |ps|) &&
    (forall i :: 0 <= i < |ps| ==>
      SameJob(work[i], ps[i]) && work[i].start == ps[i].start && work[i].remaining == 0 &&
      Busy(trace, owner, i) == ps[i].duration && i in owner) &&
    (forall i :: 0 <= i < |ps| ==>
      work[i].response == trace[FirstOf(owner, i)].start - ps[i].arrival &&
      work[i].completion == trace[LastOf(owner, i)].finish &&
      work[i].waiting == work[i].completion - ps[i].arrival - ps[i].duration &&
      0 <= work[i].response <= work[i].waiting) &&
    (forall k :: 0 <= k < |trace| ==> SegWell(ps, quantum, trace, owner, k)) &&
    Sequential(trace) &&
    (forall a, b :: 0 <= a < b < |order| ==> work[order[a]].completion < work[order[b]].completion) &&
    Run(ps, quantum, ArrivalOrder(ps), runs) &&
    (var last := runs[|runs| - 1];
     last.work == work && last.order == order && last.trace == trace && last.owner == owner)
  }

  /** Runs the processes round robin with the given quantum. `order` is the
      returned list `completados`, in completion order; `trace` is
      `secuencia`, and the ghost `owner` names the process of each segment. */
  method RoundRobin(ps: seq<Process>, quantum: int)
    returns (work: seq<Process>, order: seq<nat>, trace: seq<Segment>, ghost owner: seq<nat>,
             ghost runs: seq<State>)
    requires AllWellFormed(ps) && quantum > 0
    requires forall i :: 0 <= i < |ps| ==> Undispatched(ps[i])
    ensures RoundRobinOutcome(ps, quantum, work, order, trace, owner, runs)
  {
    work := ps;
    var clock := 0;
    trace := [];
    var queue: seq<nat> := [];
    order := [];
    owner := [];
    var ord := ArrivalOrder(work);
    var cursor := 0;
    ghost var jumped := false;
    runs := [State(ps, [], [], 0, 0, [], [])];
    InitialInv(ps, quantum, ord);
    while |order| < |work|
      invariant RrInv(ps, quantum, ord, work, queue, order, cursor, clock, trace, owner)
      invariant RunTo(ps, quantum, ord, runs, State(work, queue, order, cursor, clock, trace, owner))
      invariant NonNegative(work)
      invariant jumped ==> cursor < |ord| && ps[ord[cursor]].arrival <= clock
      decreases Outstanding(work) + (|ps| - cursor), if jumped then 0 else 1
    {
      ghost var cursor0 := cursor;
      ghost var queue0 := queue;
      queue, cursor := Admit(work, ord, queue, cursor, clock);
      AdmitKeepsInv(ps, quantum, ord, work, queue0, order, cursor0, clock, trace, owner, queue, cursor);
      if queue == [] {
        EmptyQueueMeansArrivalPending(ps, ord, order, cursor);
        NoSecondJump(ps, ord, work, cursor0, cursor, clock, jumped);
        JumpKeepsInv(ps, quantum, ord, work, order, cursor, clock, trace, owner);
        assert SameJob(work[ord[cursor]], ps[ord[cursor]]);
        RunJump(ps, quantum, ord, runs, work, queue0, order, cursor0, clock, trace, owner, cursor);
        runs := runs + [State(work, [], order, cursor, work[ord[cursor]].arrival, trace, owner)];
        clock := work[ord[cursor]].arrival;
        jumped := true;
      } else {
        HeadIsProcess(ps, ord, queue, order, cursor);
        var work', queue', order', cursor', clock', trace', owner' :=
          Slice(ps, quantum, ord, work, queue, order, cursor, clock, trace, owner);
        SliceKeepsInv(ps, quantum, ord, work, queue, order, cursor, clock, trace, owner,
                      work', queue', order', cursor', clock', trace', owner');
        RunSlice(ps, quantum, ord, runs, work, queue0, order, cursor0, clock, trace, owner, queue, cursor,
                 work', queue', order', cursor', clock', trace', owner');
        runs := runs + [State(work', queue', order', cursor', clock', trace', owner')];
        work, queue, order, cursor, clock, trace, owner := work', queue', order', cursor', clock', trace', owner';
        jumped := false;
      }
    }
    RrOutcome(ps, quantum, ord, work, queue, order, cursor, clock, trace, owner, runs);
  }

  /** The invariant and the run, once every process has completed, give
      RoundRobin's postcondition. */
  lemma RrOutcome(ps: seq<Process>, quantum: int, ord: seq<nat>, work: seq<Process>,
                  queue: seq<nat>, order: seq<nat>, cursor: nat, clock: int,
                  trace: seq<Segment>, owner: seq<nat>, runs: seq<State>)
    requires ord == ArrivalOrder(ps)
    requires RrInv(ps, quantum, ord, work, queue, order, cursor, clock, trace, owner)
    requires RunTo(ps, quantum, ord, runs, State(work, queue, order, cursor, clock, trace, owner))
    requires |order| >= |work|
    ensures RoundRobinOutcome(ps, quantum, work, order, trace, owner, runs)
  {
    RrConclusion(ps, quantum, ord, work, queue, order, cursor, clock, trace, owner);
  }

  /** After an idle jump the next admission takes the process the clock
      jumped to, so two idle jumps never follow each other. */
  lemma NoSecondJump(ps: seq<Process>, ord: seq<nat>, work: seq<Process>,
                     cursor0: nat, cursor: nat, clock: int, jumped: bool)
    requires |work| == |ps| && Below(ord, |ps|) && cursor0 == cursor <= |ord|
    requires forall i :: 0 <= i < |ps| ==> SameJob(work[i], ps[i])
    requires cursor < |ord| ==> work[ord[cursor]].arrival > clock
    requires jumped ==> cursor0 < |ord| && ps[ord[cursor0]].arrival <= clock
    ensures !jumped
  {
    if cursor < |ord| {
      assert SameJob(work[ord[cursor]], ps[ord[cursor]]);
    }
  }

  /** The invariant, once every process has completed, gives RoundRobin's
      postcondition. */
  lemma RrConclusion(ps: seq<Process>, quantum: int, ord: seq<nat>, work: seq<Process>,
                     queue: seq<nat>, order: seq<nat>, cursor: nat, clock: int,
                     trace: seq<Segment>, owner: seq<nat>)
    requires RrInv(ps, quantum, ord, work, queue, order, cursor, clock, trace, owner)
    requires |order| >= |work|
    ensures IsPermutation(order, |ps|) && |work| == |ps| && |owner| == |trace| && Below(owner, |ps|)
    ensures forall i :: 0 <= i < |ps| ==>
      SameJob(work[i], ps[i]) && work[i].start == ps[i].start && work[i].remaining == 0 &&
      Busy(trace, owner, i) == ps[i].duration && i in owner
    ensures forall i :: 0 <= i < |ps| ==>
      work[i].response == trace[FirstOf(owner, i)].start - ps[i].arrival &&
      work[i].completion == trace[LastOf(owner, i)].finish &&
      work[i].waiting == work[i].completion - ps[i].arrival - ps[i].duration &&
      0 <= work[i].response <= work[i].waiting
    ensures forall k :: 0 <= k < |trace| ==> SegWell(ps, quantum, trace, owner, k)
    ensures Sequential(trace)
    ensures forall a, b :: 0 <= a < b < |order| ==> work[order[a]].completion < work[order[b]].completion
  {
    PartitionFacts(ps, ord, queue, order, cursor);
    DistinctBound(order, |ps|);
    PermutationCovers(order, |ps|);
    forall i | 0 <= i < |ps|
      ensures work[i].remaining == 0 && Busy(trace, owner, i) == ps[i].duration && i in owner
      ensures work[i].response == trace[FirstOf(owner, i)].start - ps[i].arrival
      ensures work[i].completion == trace[LastOf(owner, i)].finish
      ensures work[i].waiting == work[i].completion - ps[i].arrival - ps[i].duration
      ensures 0 <= work[i].response <= work[i].waiting
    {
      assert i in order;
      assert ProcWell(ps, work, queue, order, trace, owner, i);
      assert SegWell(ps, quantum, trace, owner, FirstOf(owner, i));
      BusyWithinSpan(trace, owner, i);
    }
  }

  /** `runs` is a run from the processes that has so far reached `s`. */
  ghost predicate RunTo(ps: seq<Process>, quantum: int, ord: seq<nat>, runs: seq<State>, s: State)
  {
    Run(ps, quantum, ord, runs) && runs[|runs| - 1] == s
  }

  /** An idle jump extends the run. */
  lemma RunJump(ps: seq<Process>, quantum: int, ord: seq<nat>, runs: seq<State>,
                work: seq<Process>, queue0: seq<nat>, order: seq<nat>, cursor0: nat, clock: int,
                trace: seq<Segment>, owner: seq<nat>, cursor: nat)
    requires RunTo(ps, quantum, ord, runs, State(work, queue0, order, cursor0, clock, trace, owner))
    requires |order| < |ps| && cursor0 <= |ord| && Below(ord, |work|)
    requires cursor == AdmitCursor(work, ord, cursor0, clock) && queue0 + ord[cursor0..cursor] == []
    requires cursor < |ord|
    ensures RunTo(ps, quantum, ord, runs + [State(work, [], order, cursor, work[ord[cursor]].arrival, trace, owner)],
                  State(work, [], order, cursor, work[ord[cursor]].arrival, trace, owner))
  {
    var s := State(work, queue0, order, cursor0, clock, trace, owner);
    var s' := State(work, [], order, cursor, work[ord[cursor]].arrival, trace, owner);
    assert queue0 == [] by {
      assert |queue0 + ord[cursor0..cursor]| == |queue0| + |ord[cursor0..cursor]|;
    }
    assert Pass(ps, quantum, ord, s, s');
    RunExtend(ps, quantum, ord, runs, s');
  }

  /** A slice extends the run. */
  lemma RunSlice(ps: seq<Process>, quantum: int, ord: seq<nat>, runs: seq<State>,
                 work: seq<Process>, queue0: seq<nat>, order: seq<nat>, cursor0: nat, clock: int,
                 trace: seq<Segment>, owner: seq<nat>, queue: seq<nat>, cursor: nat,
                 work': seq<Process>, queue': seq<nat>, order': seq<nat>, cursor': nat,
                 clock': int, trace': seq<Segment>, owner': seq<nat>)
    requires RunTo(ps, quantum, ord, runs, State(work, queue0, order, cursor0, clock, trace, owner))
    requires |order| < |ps| && cursor0 <= |ord| && Below(ord, |work|)
    requires cursor == AdmitCursor(work, ord, cursor0, clock) && queue == queue0 + ord[cursor0..cursor]
    requires queue != []
    requires SliceStep(ps, quantum, ord, work, queue, order, cursor, clock, trace, owner,
                       work', queue', order', cursor', clock', trace', owner')
    ensures RunTo(ps, quantum, ord, runs + [State(work', queue', order', cursor', clock', trace', owner')],
                  State(work', queue', order', cursor', clock', trace', owner'))
  {
    var s := State(work, queue0, order, cursor0, clock, trace, owner);
    var s' := State(work', queue', order', cursor', clock', trace', owner');
    assert Pass(ps, quantum, ord, s, s');
    RunExtend(ps, quantum, ord, runs, s');
  }

  /** Appending the state one pass later to a run gives a run. */
  lemma RunExtend(ps: seq<Process>, quantum: int, ord: seq<nat>, runs: seq<State>, s': State)
    requires Run(ps, quantum, ord, runs)
    requires |runs[|runs| - 1].order| < |ps| && Pass(ps, quantum, ord, runs[|runs| - 1], s')
    ensures Run(ps, quantum, ord, runs + [s'])
  {
    var runs' := runs + [s'];
    forall i | 0 <= i < |runs'| - 1
      ensures |runs'[i].order| < |ps| && Pass(ps, quantum, ord, runs'[i], runs'[i + 1])
    {
      if i < |runs| - 1 {
        assert runs'[i] == runs[i] && runs'[i + 1] == runs[i + 1];
      } else {
        assert runs'[i] == runs[|runs| - 1] && runs'[i + 1] == s';
      }
    }
  }

  /** A pass is deterministic: from a given state there is only one state
      one pass later. */
  lemma PassDeterministic(ps: seq<Process>, quantum: int, ord: seq<nat>, s: State, s1: State, s2: State)
    requires Pass(ps, quantum, ord, s, s1) && Pass(ps, quantum, ord, s, s2)
    ensures s1 == s2
  {
    var c := AdmitCursor(s.work, ord, s.cursor, s.clock);
    var q := s.queue + ord[s.cursor..c];
    if q != [] {
      AdmitCursorUnique(ps, ord, c, s1.clock, s1.cursor);
      AdmitCursorUnique(ps, ord, c, s2.clock, s2.cursor);
      assert s1.work == s2.work by {
        forall i | 0 <= i < |s1.work| ensures s1.work[i] == s2.work[i] {
        }
      }
    }
  }

  /** Two runs from the same processes agree as far as both go. */
  lemma {:induction false} RunsAgree(ps: seq<Process>, quantum: int, ord: seq<nat>,
                                     r1: seq<State>, r2: seq<State>, i: nat)
    requires Run(ps, quantum, ord, r1) && Run(ps, quantum, ord, r2)
    requires i < |r1| && i < |r2|
    ensures r1[i] == r2[i]
  {
    if i > 0 {
      RunsAgree(ps, quantum, ord, r1, r2, i - 1);
      assert Pass(ps, quantum, ord, r1[i - 1], r1[i]);
      assert Pass(ps, quantum, ord, r2[i - 1], r2[i]);
      PassDeterministic(ps, quantum, ord, r1[i - 1], r1[i], r2[i]);
    }
  }

  /** There is only one complete run: the processes, the quantum and the
      arrival order fix the whole schedule, and so which process runs each
      slice. */
  lemma RunIsUnique(ps: seq<Process>, quantum: int, ord: seq<nat>, r1: seq<State>, r2: seq<State>)
    requires Run(ps, quantum, ord, r1) && |r1[|r1| - 1].order| >= |ps|
    requires Run(ps, quantum, ord, r2) && |r2[|r2| - 1].order| >= |ps|
    ensures r1 == r2
  {
    if |r1| < |r2| {
      RunsAgree(ps, quantum, ord, r1, r2, |r1| - 1);
      assert false;
    } else if |r2| < |r1| {
      RunsAgree(ps, quantum, ord, r1, r2, |r2| - 1);
      assert false;
    }
    forall i | 0 <= i < |r1| ensures r1[i] == r2[i] {
      RunsAgree(ps, quantum, ord, r1, r2, i);
    }
  }
}
