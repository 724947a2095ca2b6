/** Non-preemptive shortest-job-first (`PlanificadorProcesos.sjf`). */
module SjfScheduler {
  import opened Processes
  import opened Indices
  import opened Traces
  import opened NonPreemptive

  /** The smallest arrival among the processes below `m` that are not in
      `done`. */
  function EarliestBelow(ps: seq<Process>, done: seq<nat>, m: nat): (t: int)
    requires m <= |ps|
    requires exists j :: 0 <= j < m && j !in done
    ensures exists j :: 0 <= j < m && j !in done && ps[j].arrival == t
    ensures forall j :: 0 <= j < m && j !in done ==> t <= ps[j].arrival
  {
    if m - 1 in done then EarliestBelow(ps, done, m - 1)
    else if exists j :: 0 <= j < m - 1 && j !in done then
      var t := EarliestBelow(ps, done, m - 1);
      if t <= ps[m - 1].arrival then t else ps[m - 1].arrival
    else ps[m - 1].arrival
  }

  /** `min([p.tiempo_llegada for p in procesos if p not in completados])`:
      the earliest arrival among the processes not yet completed. While fewer
      than all processes are completed there is one. */
  function EarliestArrival(ps: seq<Process>, done: seq<nat>): (t: int)
    requires Distinct(done) && Below(done, |ps|) && |done| < |ps|
    ensures exists j :: 0 <= j < |ps| && j !in done && ps[j].arrival == t
    ensures forall j :: 0 <= j < |ps| && j !in done ==> t <= ps[j].arrival
  {
    MissingIndex(done, |ps|);
    EarliestBelow(ps, done, |ps|)
  }

  /** The working copy has the arrivals of the submitted list, so the
      earliest arrival is the same whichever of the two is asked. */
  lemma EarliestArrivalOfCopy(ps: seq<Process>, work: seq<Process>, done: seq<nat>)
    requires Copies(ps, work)
    requires Distinct(done) && Below(done, |ps|) && |done| < |ps|
    ensures EarliestArrival(work, done) == EarliestArrival(ps, done)
  {
    var t := EarliestArrival(ps, done);
    var u := EarliestArrival(work, done);
    var j :| 0 <= j < |ps| && j !in done && ps[j].arrival == t;
    var i :| 0 <= i < |ps| && i !in done && work[i].arrival == u;
    assert SameJob(work[i], ps[i]) && SameJob(work[j], ps[j]);
  }

  /** `min(pendientes, key=lambda x: x.duracion)`, as a position in
      `pendientes`: a shortest pending process, the first one when several
      are equally short. */
  function ShortestAt(work: seq<Process>, pend: seq<nat>): (p: nat)
    requires |pend| > 0 && Below(pend, |work|)
    ensures p < |pend|
    ensures forall a :: 0 <= a < |pend| ==> work[pend[p]].duration <= work[pend[a]].duration
    ensures forall a :: 0 <= a < p ==> work[pend[a]].duration > work[pend[p]].duration
  {
    if |pend| == 1 then 0
    else
      var front := pend[..|pend| - 1];
      var q := ShortestAt(work, front);
      assert forall a :: 0 <= a < |front| ==> front[a] == pend[a];
      if work[pend[|pend| - 1]].duration < work[pend[q]].duration then |pend| - 1 else q
  }

  /** The processes the admission loop appends, among the first `m`: those
      that have arrived by `clock` and are neither completed nor pending, in
      list order. */
  function Newcomers(work: seq<Process>, done: seq<nat>, pend: seq<nat>, clock: int, m: nat): (r: seq<nat>)
    requires m <= |work|
    ensures forall x :: x in r <==>
      0 <= x < m && work[x].arrival <= clock && x !in done && x !in pend
    ensures forall a, b :: 0 <= a < b < |r| ==> r[a] < r[b]
  {
    if m == 0 then []
    else
      var r := Newcomers(work, done, pend, clock, m - 1);
      if work[m - 1].arrival <= clock && m - 1 !in done && m - 1 !in pend then
        assert forall a :: 0 <= a < |r| ==> r[a] in r;
        r + [m - 1]
      else r
  }

  /** The admission loop (lines 70-74): appends to `pend` every process that
      has arrived by `clock` and is neither completed nor already pending. */
  method Admit(work: seq<Process>, done: seq<nat>, pend: seq<nat>, clock: int) returns (pend': seq<nat>)
    ensures pend' == pend + Newcomers(work, done, pend, clock, |work|)
  {
    pend' := pend;
    for i := 0 to |work|
      invariant pend' == pend + Newcomers(work, done, pend, clock, i)
    {
      if work[i].arrival <= clock && i !in done && i !in pend' {
        pend' := pend' + [i];
      }
    }
  }

  /** The admission stamp of each process: the clock at which it entered the
      pending list, or -1 while it has not. */
  ghost function Stamp(admitted: seq<int>, s: seq<nat>, t: int): (r: seq<int>)
    ensures |r| == |admitted|
    ensures forall j :: 0 <= j < |r| ==> r[j] == if j in s then t else admitted[j]
  {
    seq(|admitted|, j requires 0 <= j < |admitted| => if j in s then t else admitted[j])
  }

  /** `x` entered the pending list before `y`: at an earlier decision point,
      or at the same one and earlier in list order. */
  predicate InsertedBefore(admitted: seq<int>, x: nat, y: nat)
    requires x < |admitted| && y < |admitted|
  {
    admitted[x] < admitted[y] || (admitted[x] == admitted[y] && x < y)
  }

  /** The dispatch of `c` at time `t`, after the processes in `before` had
      completed, was a shortest-job-first choice: `c` was pending, and every
      process that had arrived by `t` and was not completed was pending too,
      was no shorter than `c`, and, when exactly as short, had entered the
      pending list after `c`. */
  predicate ShortestChoice(ps: seq<Process>, before: seq<nat>, admitted: seq<int>, c: nat, t: int)
    requires c < |ps| && |admitted| == |ps|
  {
    ps[c].arrival <= admitted[c] <= t &&
    forall j :: 0 <= j < |ps| && j !in before && ps[j].arrival <= t ==>
      ps[c].duration <= ps[j].duration &&
      ps[j].arrival <= admitted[j] <= t &&
      (j != c && ps[j].duration == ps[c].duration ==> InsertedBefore(admitted, c, j))
  }

  /** Position `k` of `order` has been dispatched: it ran to completion,
      starting when the CPU was free and some uncompleted process had
      arrived; it was a shortest-job-first choice; and the k-th segment
      records it. */
  ghost predicate Ran(ps: seq<Process>, work: seq<Process>, order: seq<nat>, trace: seq<Segment>,
                      admitted: seq<int>, k: nat)
  {
    k < |order| && k < |trace| && |order| <= |ps| && |work| == |ps| && |admitted| == |ps| &&
    Below(order, |ps|) && Distinct(order[..k]) &&
    RanToCompletion(work[order[k]]) &&
    work[order[k]].start == Max(PrevEnd(work, order, k), EarliestArrival(ps, order[..k])) &&
    ShortestChoice(ps, order[..k], admitted, order[k], work[order[k]].start) &&
    trace[k] == Segment(work[order[k]].name, work[order[k]].start, work[order[k]].completion)
  }

  /** Dispatching another process, and stamping processes not yet admitted,
      leaves an earlier dispatch as it was. */
  lemma RanFrame(ps: seq<Process>, work: seq<Process>, work': seq<Process>, order: seq<nat>,
                 order': seq<nat>, trace: seq<Segment>, trace': seq<Segment>,
                 admitted: seq<int>, admitted': seq<int>, k: nat)
    requires AllWellFormed(ps) && Ran(ps, work, order, trace, admitted, k)
    requires |work'| == |work| && work'[order[k]] == work[order[k]]
    requires k > 0 ==> work'[order[k - 1]] == work[order[k - 1]]
    requires |order| <= |order'| <= |ps| && order'[..|order|] == order && Below(order', |ps|)
    requires |trace| <= |trace'| && trace'[..|trace|] == trace
    requires |admitted'| == |admitted|
    requires forall j :: 0 <= j < |admitted| ==> admitted'[j] == admitted[j] || admitted[j] == -1
    ensures Ran(ps, work', order', trace', admitted', k)
  {
    assert trace'[k] == trace[k];
    assert order'[k] == order[k];
    assert k > 0 ==> order'[k - 1] == order[k - 1];
    assert order'[..k] == order[..k];
    var c := order[k];
    var t := work[c].start;
    assert WellFormed(ps[c]);
    forall j | 0 <= j < |ps| && j !in order[..k] && ps[j].arrival <= t
      ensures admitted'[j] == admitted[j]
    {
      assert WellFormed(ps[j]);
    }
  }

  /** The pending list holds distinct, uncompleted processes in the order
      they joined it, each stamped no earlier than its arrival and no later
      than `clock`. */
  ghost predicate PendingWell(ps: seq<Process>, order: seq<nat>, pend: seq<nat>, clock: int, admitted: seq<int>)
  {
    |admitted| == |ps| && Distinct(pend) && Below(pend, |ps|) &&
    (forall a :: 0 <= a < |pend| ==>
      pend[a] !in order && ps[pend[a]].arrival <= admitted[pend[a]] <= clock) &&
    (forall a, b :: 0 <= a < b < |pend| ==> InsertedBefore(admitted, pend[a], pend[b]))
  }

  /** Every pending process was stamped before `clock`: at a decision point
      since followed by a dispatch, which takes time. */
  ghost predicate StampsBefore(pend: seq<nat>, clock: int, admitted: seq<int>)
  {
    forall a :: 0 <= a < |pend| && pend[a] < |admitted| ==> admitted[pend[a]] < clock
  }

  /** Some dispatch so far started at `t`. */
  ghost predicate DispatchedAt(work: seq<Process>, order: seq<nat>, t: int)
  {
    exists k :: 0 <= k < |order| && order[k] < |work| && work[order[k]].start == t
  }

  /** Every stamp is a time at which a dispatch started: a process joins the
      pending list at a decision point, and the list is then non-empty, so a
      dispatch starts at that same clock. The stamps of pending processes may
      still be the current clock, whose dispatch is about to happen. */
  ghost predicate StampsDispatched(ps: seq<Process>, work: seq<Process>, order: seq<nat>,
                                   pend: seq<nat>, clock: int, admitted: seq<int>)
  {
    |admitted| == |ps| &&
    (forall j :: 0 <= j < |ps| && j in order ==> DispatchedAt(work, order, admitted[j])) &&
    (forall a :: 0 <= a < |pend| && pend[a] < |ps| ==>
      admitted[pend[a]] == clock || DispatchedAt(work, order, admitted[pend[a]]))
  }

  /** Admission stamps the newcomers with the current clock and leaves the
      other stamps as they were. */
  lemma AdmitStamps(ps: seq<Process>, work: seq<Process>, order: seq<nat>, pend: seq<nat>,
                    clock: int, admitted: seq<int>)
    requires StampsDispatched(ps, work, order, pend, clock, admitted)
    ensures var joined := Newcomers(work, order, pend, clock, |work|);
      StampsDispatched(ps, work, order, pend + joined, clock, Stamp(admitted, joined, clock))
  {
    var joined := Newcomers(work, order, pend, clock, |work|);
    var admitted' := Stamp(admitted, joined, clock);
    forall a | 0 <= a < |pend| ensures pend[a] !in joined {
      assert pend[a] in pend;
    }
    forall a | 0 <= a < |pend + joined| && (pend + joined)[a] < |ps|
      ensures admitted'[(pend + joined)[a]] == clock ||
              DispatchedAt(work, order, admitted'[(pend + joined)[a]])
    {
      if a >= |pend| {
        assert (pend + joined)[a] == joined[a - |pend|] && joined[a - |pend|] in joined;
      }
    }
  }

  /** A dispatch at `clock` makes `clock` a dispatch time and keeps the
      earlier ones. */
  lemma DispatchStamps(ps: seq<Process>, work: seq<Process>, order: seq<nat>, pend: seq<nat>,
                       clock: int, clock': int, trace: seq<Segment>, admitted: seq<int>,
                       jumped: bool, p: nat)
    requires StampsDispatched(ps, work, order, pend, clock, admitted)
    requires SjfInv(ps, work, order, pend, clock, trace, admitted, jumped) && p < |pend|
    ensures var c := pend[p];
      StampsDispatched(ps, work[c := Dispatch(work[c], clock)], order + [c], RemoveAt(pend, p),
                       clock', admitted)
  {
    var c := pend[p];
    assert SameJob(work[c], ps[c]);
    var work' := work[c := Dispatch(work[c], clock)];
    var order' := order + [c];
    assert DispatchedAt(work', order', clock) by {
      assert order'[|order|] == c && work'[c].start == clock;
    }
    forall t | DispatchedAt(work, order, t) ensures DispatchedAt(work', order', t) {
      var k :| 0 <= k < |order| && order[k] < |work| && work[order[k]].start == t;
      assert order[k] in order;
      assert order'[k] == order[k] && work'[order[k]] == work[order[k]];
    }
    assert c in pend;
    RemoveAtFacts(pend, p);
    var pend' := RemoveAt(pend, p);
    forall a | 0 <= a < |pend'| && pend'[a] < |ps|
      ensures DispatchedAt(work', order', admitted[pend'[a]])
    {
      assert pend'[a] in pend;
      var b :| 0 <= b < |pend| && pend[b] == pend'[a];
    }
  }

  /** Processes neither completed nor pending carry no stamp. */
  ghost predicate Unstamped(ps: seq<Process>, order: seq<nat>, pend: seq<nat>, admitted: seq<int>)
  {
    |admitted| == |ps| &&
    forall j :: 0 <= j < |ps| && j !in order && j !in pend ==> admitted[j] == -1
  }

  ghost predicate AllRan(ps: seq<Process>, work: seq<Process>, order: seq<nat>, trace: seq<Segment>,
                         admitted: seq<int>)
  {
    forall k :: 0 <= k < |order| ==> Ran(ps, work, order, trace, admitted, k)
  }

  /** The clock is where the last dispatch ended, or, right after an idle
      jump, the earliest arrival among the uncompleted processes. */
  ghost predicate ClockWell(ps: seq<Process>, work: seq<Process>, order: seq<nat>, clock: int, jumped: bool)
  {
    |work| == |ps| && Distinct(order) && Below(order, |ps|) &&
    clock >= PrevEnd(work, order, |order|) &&
    (if jumped then |order| < |ps| && clock == EarliestArrival(ps, order)
     else clock == PrevEnd(work, order, |order|))
  }

  /** What holds each time the `while` condition is evaluated. `order` is
      `completados`, `pend` is `pendientes`, `admitted` stamps each process
      with the clock at which it entered `pendientes`, and `jumped` says the
      previous iteration was an idle jump. */
  ghost predicate SjfInv(ps: seq<Process>, work: seq<Process>, order: seq<nat>, pend: seq<nat>,
                         clock: int, trace: seq<Segment>, admitted: seq<int>, jumped: bool)
  {
    AllWellFormed(ps) && Copies(ps, work) && |trace| == |order| &&
    ClockWell(ps, work, order, clock, jumped) &&
    PendingWell(ps, order, pend, clock, admitted) &&
    Unstamped(ps, order, pend, admitted) &&
    AllRan(ps, work, order, trace, admitted)
  }

  /** After admission every uncompleted process that has arrived is
      pending. */
  predicate Saturated(ps: seq<Process>, order: seq<nat>, pend: seq<nat>, clock: int)
  {
    forall j :: 0 <= j < |ps| && j !in order && ps[j].arrival <= clock ==> j in pend
  }

  /** Admission keeps the invariant and leaves every arrived, uncompleted
      process pending. */
  lemma AdmitKeepsInv(ps: seq<Process>, work: seq<Process>, order: seq<nat>, pend: seq<nat>,
                      clock: int, trace: seq<Segment>, admitted: seq<int>, jumped: bool)
    requires SjfInv(ps, work, order, pend, clock, trace, admitted, jumped)
    requires StampsBefore(pend, clock, admitted)
    ensures var joined := Newcomers(work, order, pend, clock, |work|);
      SjfInv(ps, work, order, pend + joined, clock, trace, Stamp(admitted, joined, clock), jumped) &&
      Saturated(ps, order, pend + joined, clock)
  {
    var joined := Newcomers(work, order, pend, clock, |work|);
    var admitted' := Stamp(admitted, joined, clock);
    StampOnlyUnstamped(ps, order, pend, clock, admitted, joined);
    forall k | 0 <= k < |order| ensures Ran(ps, work, order, trace, admitted', k) {
      RanFrame(ps, work, work, order, order, trace, trace, admitted, admitted', k);
    }
    AdmitPending(ps, work, order, pend, clock, admitted, joined);
    AdmitSaturates(ps, work, order, pend, clock, joined);
    forall j | 0 <= j < |ps| && j !in order && j !in pend + joined ensures admitted'[j] == -1 {
      assert j !in joined;
    }
  }

  lemma StampOnlyUnstamped(ps: seq<Process>, order: seq<nat>, pend: seq<nat>, clock: int,
                           admitted: seq<int>, joined: seq<nat>)
    requires Unstamped(ps, order, pend, admitted)
    requires forall x :: x in joined ==> 0 <= x < |ps| && x !in order && x !in pend
    ensures forall j :: 0 <= j < |admitted| ==>
      Stamp(admitted, joined, clock)[j] == admitted[j] || admitted[j] == -1
  {
  }

  lemma AdmitSaturates(ps: seq<Process>, work: seq<Process>, order: seq<nat>, pend: seq<nat>,
                       clock: int, joined: seq<nat>)
    requires Copies(ps, work) && joined == Newcomers(work, order, pend, clock, |work|)
    ensures Saturated(ps, order, pend + joined, clock)
  {
    forall j | 0 <= j < |ps| && j !in order && ps[j].arrival <= clock ensures j in pend + joined {
      assert SameJob(work[j], ps[j]);
    }
  }

  lemma AdmitPending(ps: seq<Process>, work: seq<Process>, order: seq<nat>, pend: seq<nat>,
                     clock: int, admitted: seq<int>, joined: seq<nat>)
    requires Copies(ps, work) && PendingWell(ps, order, pend, clock, admitted)
    requires StampsBefore(pend, clock, admitted)
    requires joined == Newcomers(work, order, pend, clock, |work|)
    ensures PendingWell(ps, order, pend + joined, clock, Stamp(admitted, joined, clock))
  {
    var pend' := pend + joined;
    var admitted' := Stamp(admitted, joined, clock);
    forall a | 0 <= a < |pend| ensures admitted'[pend[a]] == admitted[pend[a]] {
      assert pend[a] in pend;
    }
    forall a | 0 <= a < |pend'|
      ensures pend'[a] < |ps| && pend'[a] !in order
      ensures ps[pend'[a]].arrival <= admitted'[pend'[a]] <= clock
    {
      if a >= |pend| {
        assert pend'[a] == joined[a - |pend|] && joined[a - |pend|] in joined;
        assert SameJob(work[pend'[a]], ps[pend'[a]]);
      }
    }
    forall a, b | 0 <= a < b < |pend'|
      ensures pend'[a] != pend'[b] && InsertedBefore(admitted', pend'[a], pend'[b])
    {
      if b >= |pend| {
        assert joined[b - |pend|] in joined;
        if a >= |pend| {
          assert joined[a - |pend|] in joined;
          assert joined[a - |pend|] < joined[b - |pend|];
        }
      }
    }
  }

  /** With nothing pending after admission, no uncompleted process has
      arrived, so the clock jumps strictly forward to the earliest arrival
      among them; the previous iteration was not a jump. */
  lemma IdleJump(ps: seq<Process>, work: seq<Process>, order: seq<nat>, clock: int,
                 trace: seq<Segment>, admitted: seq<int>, jumped: bool)
    requires SjfInv(ps, work, order, [], clock, trace, admitted, jumped)
    requires Saturated(ps, order, [], clock) && |order| < |ps|
    ensures !jumped && EarliestArrival(ps, order) > clock
    ensures SjfInv(ps, work, order, [], EarliestArrival(ps, order), trace, admitted, true)
  {
    var t := EarliestArrival(ps, order);
    var j :| 0 <= j < |ps| && j !in order && ps[j].arrival == t;
    assert t > clock;
  }

  /** One dispatch (lines 82-98): removes the shortest pending process from
      `pend`, runs it to completion at `clock`, records its segment and
      appends it to `order`. */
  method DispatchShortest(ps: seq<Process>, work: seq<Process>, order: seq<nat>, pend: seq<nat>,
                          clock: int, trace: seq<Segment>, ghost admitted: seq<int>, ghost jumped: bool)
    returns (work': seq<Process>, order': seq<nat>, pend': seq<nat>, clock': int, trace': seq<Segment>)
    requires SjfInv(ps, work, order, pend, clock, trace, admitted, jumped)
    requires Saturated(ps, order, pend, clock) && pend != []
    ensures var p := ShortestAt(work, pend); var c := pend[p];
      order' == order + [c] && pend' == RemoveAt(pend, p) &&
      work' == work[c := Dispatch(work[c], clock)] && clock' == clock + ps[c].duration &&
      trace' == trace + [Segment(ps[c].name, clock, clock')]
    ensures SjfInv(ps, work', order', pend', clock', trace', admitted, false)
    ensures StampsBefore(pend', clock', admitted)
  {
    var p := ShortestAt(work, pend);
    var c := pend[p];
    DispatchKeepsInv(ps, work, order, pend, clock, trace, admitted, jumped, p);
    assert SameJob(work[c], ps[c]);
    pend' := RemoveAt(pend, p);
    work' := work[c := Dispatch(work[c], clock)];
    assert work'[c] == Dispatch(work[c], clock);
    trace' := trace + [Segment(work'[c].name, work'[c].start, work'[c].completion)];
    clock' := work'[c].completion;
    order' := order + [c];
  }

  lemma DispatchKeepsInv(ps: seq<Process>, work: seq<Process>, order: seq<nat>, pend: seq<nat>,
                         clock: int, trace: seq<Segment>, admitted: seq<int>, jumped: bool, p: nat)
    requires SjfInv(ps, work, order, pend, clock, trace, admitted, jumped)
    requires Saturated(ps, order, pend, clock) && pend != [] && p == ShortestAt(work, pend)
    ensures var c := pend[p];
      (ps[c].arrival <= clock &&
       SjfInv(ps, work[c := Dispatch(work[c], clock)], order + [c], RemoveAt(pend, p),
              clock + ps[c].duration,
              trace + [Segment(ps[c].name, clock, clock + ps[c].duration)], admitted, false) &&
       StampsBefore(RemoveAt(pend, p), clock + ps[c].duration, admitted))
  {
    var c := pend[p];
    assert c in pend;
    assert SameJob(work[c], ps[c]) && WellFormed(ps[c]);
    var work' := work[c := Dispatch(work[c], clock)];
    var order' := order + [c];
    var clock' := clock + ps[c].duration;
    var trace' := trace + [Segment(ps[c].name, clock, clock')];
    Extend(order, c, |ps|);
    DispatchRanBefore(ps, work, work', order, order', trace, trace', admitted, c, clock);
    DispatchRanNew(ps, work, order, pend, clock, trace, admitted, jumped, p);
    assert AllRan(ps, work', order', trace', admitted) by {
      forall k | 0 <= k < |order'| ensures Ran(ps, work', order', trace', admitted, k) {
        if k < |order| {
        } else {
          assert k == |order|;
        }
      }
    }
    DispatchCopies(ps, work, c, clock);
    DispatchClock(ps, work, work', order, order', c, clock);
    DispatchPending(ps, order, pend, clock, clock', admitted, p);
    DispatchUnstamped(ps, order, pend, admitted, p);
  }

  lemma DispatchCopies(ps: seq<Process>, work: seq<Process>, c: nat, clock: int)
    requires Copies(ps, work) && c < |ps| && ps[c].arrival <= clock
    ensures Copies(ps, work[c := Dispatch(work[c], clock)])
  {
    assert SameJob(work[c], ps[c]);
  }

  lemma DispatchClock(ps: seq<Process>, work: seq<Process>, work': seq<Process>, order: seq<nat>,
                      order': seq<nat>, c: nat, clock: int)
    requires |work| == |ps| && Copies(ps, work) && c < |ps| && ps[c].arrival <= clock
    requires Distinct(order') && Below(order', |ps|)
    requires work' == work[c := Dispatch(work[c], clock)] && order' == order + [c]
    ensures ClockWell(ps, work', order', clock + ps[c].duration, false)
  {
    assert SameJob(work[c], ps[c]);
  }

  lemma DispatchUnstamped(ps: seq<Process>, order: seq<nat>, pend: seq<nat>, admitted: seq<int>, p: nat)
    requires Unstamped(ps, order, pend, admitted) && Distinct(pend) && p < |pend|
    ensures Unstamped(ps, order + [pend[p]], RemoveAt(pend, p), admitted)
  {
    RemoveAtFacts(pend, p);
  }

  lemma DispatchRanBefore(ps: seq<Process>, work: seq<Process>, work': seq<Process>, order: seq<nat>,
                          order': seq<nat>, trace: seq<Segment>, trace': seq<Segment>,
                          admitted: seq<int>, c: nat, clock: int)
    requires AllWellFormed(ps) && Copies(ps, work) && |trace| == |order|
    requires Distinct(order) && Below(order, |ps|) && AllRan(ps, work, order, trace, admitted)
    requires c < |ps| && c !in order && ps[c].arrival <= clock
    requires work' == work[c := Dispatch(work[c], clock)] && order' == order + [c]
    requires trace' == trace + [Segment(ps[c].name, clock, clock + ps[c].duration)]
    ensures forall k :: 0 <= k < |order| ==> Ran(ps, work', order', trace', admitted, k)
  {
    assert SameJob(work[c], ps[c]);
    Extend(order, c, |ps|);
    forall k | 0 <= k < |order| ensures Ran(ps, work', order', trace', admitted, k) {
      assert order[k] in order;
      assert k > 0 ==> order[k - 1] in order;
      assert trace'[..|trace|] == trace;
      assert order'[..|order|] == order;
      RanFrame(ps, work, work', order, order', trace, trace', admitted, admitted, k);
    }
  }

  lemma DispatchRanNew(ps: seq<Process>, work: seq<Process>, order: seq<nat>, pend: seq<nat>,
                       clock: int, trace: seq<Segment>, admitted: seq<int>, jumped: bool, p: nat)
    requires SjfInv(ps, work, order, pend, clock, trace, admitted, jumped)
    requires Saturated(ps, order, pend, clock) && pend != [] && p == ShortestAt(work, pend)
    ensures var c := pend[p];
      (ps[c].arrival <= clock &&
       Ran(ps, work[c := Dispatch(work[c], clock)], order + [c],
           trace + [Segment(ps[c].name, clock, clock + ps[c].duration)], admitted, |order|))
  {
    var c := pend[p];
    assert c in pend;
    assert SameJob(work[c], ps[c]);
    var work' := work[c := Dispatch(work[c], clock)];
    var order' := order + [c];
    var k := |order|;
    assert order'[..k] == order;
    assert k > 0 ==> order[k - 1] != c by {
      if k > 0 { assert order[k - 1] in order; }
    }
    assert PrevEnd(work', order', k) == PrevEnd(work, order, k);
    Extend(order, c, |ps|);
    assert EarliestArrival(ps, order) <= clock;
    assert work'[c].start == Max(PrevEnd(work', order', k), EarliestArrival(ps, order));
    ChoiceIsShortest(ps, work, order, pend, clock, admitted, p);
  }

  lemma ChoiceIsShortest(ps: seq<Process>, work: seq<Process>, order: seq<nat>, pend: seq<nat>,
                         clock: int, admitted: seq<int>, p: nat)
    requires Copies(ps, work) && PendingWell(ps, order, pend, clock, admitted)
    requires Saturated(ps, order, pend, clock) && pend != [] && p == ShortestAt(work, pend)
    ensures ShortestChoice(ps, order, admitted, pend[p], clock)
  {
    var c := pend[p];
    forall j | 0 <= j < |ps| && j !in order && ps[j].arrival <= clock
      ensures ps[c].duration <= ps[j].duration
      ensures ps[j].arrival <= admitted[j] <= clock
      ensures j != c && ps[j].duration == ps[c].duration ==> InsertedBefore(admitted, c, j)
    {
      assert j in pend;
      var q :| 0 <= q < |pend| && pend[q] == j;
      assert SameJob(work[j], ps[j]) && SameJob(work[c], ps[c]);
    }
  }

  lemma DispatchPending(ps: seq<Process>, order: seq<nat>, pend: seq<nat>, clock: int, clock': int,
                        admitted: seq<int>, p: nat)
    requires PendingWell(ps, order, pend, clock, admitted) && p < |pend| && clock < clock'
    ensures PendingWell(ps, order + [pend[p]], RemoveAt(pend, p), clock', admitted)
    ensures StampsBefore(RemoveAt(pend, p), clock', admitted)
  {
    var pend' := RemoveAt(pend, p);
    RemoveAtFacts(pend, p);
    forall a | 0 <= a < |pend'|
      ensures pend'[a] < |ps| && pend'[a] !in order + [pend[p]]
      ensures ps[pend'[a]].arrival <= admitted[pend'[a]] <= clock'
    {
      if a < p { assert pend'[a] == pend[a]; } else { assert pend'[a] == pend[a + 1]; }
    }
    forall a, b | 0 <= a < b < |pend'| ensures InsertedBefore(admitted, pend'[a], pend'[b]) {
      if b < p {
        assert pend'[a] == pend[a] && pend'[b] == pend[b];
      } else if a < p {
        assert pend'[a] == pend[a] && pend'[b] == pend[b + 1];
      } else {
        assert pend'[a] == pend[a + 1] && pend'[b] == pend[b + 1];
      }
    }
  }

  /** What a shortest-job-first run returns: every process completed once,
      each dispatch started when the CPU was free and some uncompleted
      process had arrived, each was a shortest-job-first choice among the
      pending processes, every admission stamp is the start time of some
      dispatch, and the trace records the dispatches one after another. */
  ghost predicate SjfOutcome(ps: seq<Process>, work: seq<Process>, order: seq<nat>, trace: seq<Segment>,
                             admitted: seq<int>)
  {
    IsPermutation(order, |ps|) && Copies(ps, work) && |admitted| == |ps| &&
    (forall i :: 0 <= i < |work| ==> RanToCompletion(work[i])) &&
    (forall k {:trigger PrevEnd(work, order, k)} :: 0 <= k < |order| ==>
      work[order[k]].start == Max(PrevEnd(work, order, k), EarliestArrival(ps, order[..k]))) &&
    (forall k :: 0 <= k < |order| ==>
      ShortestChoice(ps, order[..k], admitted, order[k], work[order[k]].start)) &&
    (forall j :: 0 <= j < |ps| ==> DispatchedAt(work, order, admitted[j])) &&
    OneSegmentEach(work, order, trace) &&
    Sequential(trace)
  }

  /** Runs the processes shortest job first. At each decision point every
      arrived, uncompleted process joins the pending list; if none is pending
      the clock jumps to the next arrival, otherwise the shortest pending
      process runs to completion. `order` is the returned list `completados`
      and `admitted`, a ghost output, records when each process joined the
      pending list. */
  method Sjf(ps: seq<Process>) returns (work: seq<Process>, order: seq<nat>, trace: seq<Segment>,
                                        ghost admitted: seq<int>)
    requires AllWellFormed(ps)
    ensures SjfOutcome(ps, work, order, trace, admitted)
  {
    work := ps;
    var clock := 0;
    trace := [];
    order := [];
    var pend := [];
    admitted := seq(|ps|, _ => -1);
    ghost var jumped := false;
    while |order| < |work|
      invariant SjfInv(ps, work, order, pend, clock, trace, admitted, jumped)
      invariant StampsBefore(pend, clock, admitted)
      invariant StampsDispatched(ps, work, order, pend, clock, admitted)
      decreases |ps| - |order|, if jumped then 0 else 1
    {
      ghost var before := pend;
      pend := Admit(work, order, pend, clock);
      AdmitKeepsInv(ps, work, order, before, clock, trace, admitted, jumped);
      AdmitStamps(ps, work, order, before, clock, admitted);
      admitted := Stamp(admitted, Newcomers(work, order, before, clock, |work|), clock);
      if pend == [] {
        IdleJump(ps, work, order, clock, trace, admitted, jumped);
        EarliestArrivalOfCopy(ps, work, order);
        clock := EarliestArrival(work, order);
        jumped := true;
      } else {
        ghost var work0, order0, pend0, clock0, trace0 := work, order, pend, clock, trace;
        ghost var p := ShortestAt(work, pend);
        work, order, pend, clock, trace := DispatchShortest(ps, work, order, pend, clock, trace, admitted, jumped);
        DispatchStamps(ps, work0, order0, pend0, clock0, clock, trace0, admitted, jumped, p);
        jumped := false;
      }
    }
    SjfConclusion(ps, work, order, pend, clock, trace, admitted, jumped);
    StampsAreDispatchTimes(ps, work, order, pend, clock, admitted);
  }

  /** Once every process has completed, every stamp is a dispatch time. */
  lemma StampsAreDispatchTimes(ps: seq<Process>, work: seq<Process>, order: seq<nat>, pend: seq<nat>,
                               clock: int, admitted: seq<int>)
    requires StampsDispatched(ps, work, order, pend, clock, admitted) && IsPermutation(order, |ps|)
    ensures forall j :: 0 <= j < |ps| ==> DispatchedAt(work, order, admitted[j])
  {
    PermutationCovers(order, |ps|);
  }

  /** The invariant, once every process has completed, gives Sjf's
      postcondition. */
  lemma SjfConclusion(ps: seq<Process>, work: seq<Process>, order: seq<nat>, pend: seq<nat>,
                      clock: int, trace: seq<Segment>, admitted: seq<int>, jumped: bool)
    requires SjfInv(ps, work, order, pend, clock, trace, admitted, jumped) && |order| >= |ps|
    ensures IsPermutation(order, |ps|) && Copies(ps, work) && |admitted| == |ps|
    ensures forall i :: 0 <= i < |work| ==> RanToCompletion(work[i])
    ensures forall k {:trigger PrevEnd(work, order, k)} :: 0 <= k < |order| ==>
      work[order[k]].start == Max(PrevEnd(work, order, k), EarliestArrival(ps, order[..k]))
    ensures forall k :: 0 <= k < |order| ==>
      ShortestChoice(ps, order[..k], admitted, order[k], work[order[k]].start)
    ensures OneSegmentEach(work, order, trace)
    ensures Sequential(trace)
  {
    DistinctBound(order, |ps|);
    PermutationCovers(order, |ps|);
    forall i | 0 <= i < |work|
      ensures RanToCompletion(work[i])
    {
      assert i in order;
      var m :| 0 <= m < |order| && order[m] == i;
      assert Ran(ps, work, order, trace, admitted, m);
    }
    forall k | 0 <= k < |order|
      ensures work[order[k]].start == Max(PrevEnd(work, order, k), EarliestArrival(ps, order[..k]))
      ensures ShortestChoice(ps, order[..k], admitted, order[k], work[order[k]].start)
      ensures RanToCompletion(work[order[k]]) && work[order[k]].duration > 0
      ensures work[order[k]].start >= PrevEnd(work, order, k)
      ensures trace[k] == Segment(work[order[k]].name, work[order[k]].start, work[order[k]].completion)
    {
      assert Ran(ps, work, order, trace, admitted, k);
      assert WellFormed(ps[order[k]]);
    }
    NonPreemptiveSequential(work, order, trace);
  }

  /** Dispatch start times never decrease along the returned order. */
  lemma {:induction false} StartsIncrease(work: seq<Process>, order: seq<nat>, m: nat, k: nat)
    requires Below(order, |work|) && m <= k < |order|
    requires forall i :: 0 < i < |order| ==> work[order[i - 1]].start <= work[order[i]].start
    ensures work[order[m]].start <= work[order[k]].start
    decreases k - m
  {
    if m < k {
      StartsIncrease(work, order, m, k - 1);
    }
  }

  /** Each dispatch starts no earlier than the previous one, which ran to
      completion before it. */
  lemma AdjacentStarts(ps: seq<Process>, work: seq<Process>, order: seq<nat>)
    requires AllWellFormed(ps) && Copies(ps, work) && IsPermutation(order, |ps|)
    requires forall i :: 0 <= i < |work| ==> RanToCompletion(work[i])
    requires forall k {:trigger PrevEnd(work, order, k)} :: 0 <= k < |order| ==>
      work[order[k]].start == Max(PrevEnd(work, order, k), EarliestArrival(ps, order[..k]))
    ensures forall i :: 0 < i < |order| ==> work[order[i - 1]].start <= work[order[i]].start
  {
    forall i | 0 < i < |order|
      ensures work[order[i - 1]].start <= work[order[i]].start
    {
      var c := order[i - 1];
      assert SameJob(work[c], ps[c]) && WellFormed(ps[c]) && RanToCompletion(work[c]);
      assert PrevEnd(work, order, i) == work[c].completion;
      assert work[order[i]].start >= PrevEnd(work, order, i);
    }
  }

  /** Shortest-job-first choices in order of non-decreasing start time put
      each stamp at or after the arrival and at or before every start not
      earlier than the arrival. */
  lemma FirstDispatchBound(ps: seq<Process>, work: seq<Process>, order: seq<nat>, admitted: seq<int>)
    requires IsPermutation(order, |ps|) && |work| == |ps| && |admitted| == |ps|
    requires forall k :: 0 <= k < |order| ==>
      ShortestChoice(ps, order[..k], admitted, order[k], work[order[k]].start)
    requires forall i :: 0 < i < |order| ==> work[order[i - 1]].start <= work[order[i]].start
    ensures forall j :: 0 <= j < |ps| ==>
      ps[j].arrival <= admitted[j] &&
      forall k :: 0 <= k < |order| && ps[j].arrival <= work[order[k]].start ==>
        admitted[j] <= work[order[k]].start
  {
    PermutationCovers(order, |ps|);
    forall j | 0 <= j < |ps|
      ensures ps[j].arrival <= admitted[j]
      ensures forall k :: 0 <= k < |order| && ps[j].arrival <= work[order[k]].start ==>
        admitted[j] <= work[order[k]].start
    {
      assert j in order;
      var m :| 0 <= m < |order| && order[m] == j;
      assert ShortestChoice(ps, order[..m], admitted, order[m], work[order[m]].start);
      forall k | 0 <= k < |order| && ps[j].arrival <= work[order[k]].start
        ensures admitted[j] <= work[order[k]].start
      {
        if m <= k {
          StartsIncrease(work, order, m, k);
        } else {
          assert j !in order[..k] by {
            assert forall x :: 0 <= x < k ==> order[..k][x] == order[x] != order[m];
          }
          assert ShortestChoice(ps, order[..k], admitted, order[k], work[order[k]].start);
        }
      }
    }
  }

  /** The admission stamps are determined by the dispatches: a process joins
      the pending list at the first decision point at or after its arrival,
      which is the earliest dispatch start not before that arrival. */
  lemma AdmissionIsFirstDispatch(ps: seq<Process>, work: seq<Process>, order: seq<nat>,
                                 trace: seq<Segment>, admitted: seq<int>)
    requires AllWellFormed(ps) && SjfOutcome(ps, work, order, trace, admitted)
    ensures forall j :: 0 <= j < |ps| ==>
      ps[j].arrival <= admitted[j] && DispatchedAt(work, order, admitted[j]) &&
      forall k :: 0 <= k < |order| && ps[j].arrival <= work[order[k]].start ==>
        admitted[j] <= work[order[k]].start
  {
    AdjacentStarts(ps, work, order);
    FirstDispatchBound(ps, work, order, admitted);
  }
}
