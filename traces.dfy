/** Execution traces (`secuencia`): the list of CPU segments an algorithm
    emits, and the per-process bookkeeping read off it. */
module Traces {
  import opened Processes

  /** Every segment has positive length, and each segment starts no earlier
      than the one before it ends: the CPU runs one process at a time. */
  predicate Sequential(t: seq<Segment>)
  {
    (forall k :: 0 <= k < |t| ==> t[k].start < t[k].finish) &&
    (forall k :: 0 <= k < |t| - 1 ==> t[k].finish <= t[k + 1].start)
  }

  /** In a sequential trace any two segments are disjoint, the earlier one
      ending before the later one starts. */
  lemma {:induction false} SequentialDisjoint(t: seq<Segment>)
    requires Sequential(t)
    ensures forall j, k :: 0 <= j < k < |t| ==> t[j].finish <= t[k].start
  {
    if |t| > 1 {
      var front := t[..|t| - 1];
      assert Sequential(front);
      SequentialDisjoint(front);
      forall j | 0 <= j < |t| - 1 ensures t[j].finish <= t[|t| - 1].start {
        if j < |t| - 2 {
          assert front[j].finish <= front[|t| - 2].start;
        }
      }
    }
  }

  /** The time the whole run ends: the largest `fin` in the trace. */
  function Makespan(t: seq<Segment>): (m: int)
    requires |t| > 0
    ensures forall k :: 0 <= k < |t| ==> t[k].finish <= m
    ensures exists k :: 0 <= k < |t| && t[k].finish == m
  {
    if |t| == 1 then t[0].finish
    else
      var m := Makespan(t[..|t| - 1]);
      assert forall k :: 0 <= k < |t| - 1 ==> t[..|t| - 1][k] == t[k];
      Max(m, t[|t| - 1].finish)
  }

  /** For a sequential trace the makespan is where the last segment ends. */
  lemma SequentialMakespan(t: seq<Segment>)
    requires Sequential(t) && |t| > 0
    ensures Makespan(t) == t[|t| - 1].finish
  {
    SequentialDisjoint(t);
  }

  /** The CPU time the trace gives process `i`, where `owner[k]` is the
      process that ran during segment `k`. */
  function Busy(t: seq<Segment>, owner: seq<nat>, i: nat): int
    requires |t| == |owner|
  {
    if |t| == 0 then 0
    else
      Busy(t[..|t| - 1], owner[..|t| - 1], i) +
      (if owner[|t| - 1] == i then t[|t| - 1].finish - t[|t| - 1].start else 0)
  }

  /** The first segment of process `i`, or -1 when it has none. */
  function FirstOf(owner: seq<nat>, i: nat): (f: int)
    ensures -1 <= f < |owner|
    ensures f == -1 <==> i !in owner
    ensures f >= 0 ==> owner[f] == i
    ensures forall k :: 0 <= k < f ==> owner[k] != i
  {
    if |owner| == 0 then -1
    else if i in owner[..|owner| - 1] then FirstOf(owner[..|owner| - 1], i)
    else if owner[|owner| - 1] == i then |owner| - 1
    else -1
  }

  /** The last segment of process `i`, or -1 when it has none. */
  function LastOf(owner: seq<nat>, i: nat): (f: int)
    ensures -1 <= f < |owner|
    ensures f == -1 <==> i !in owner
    ensures f >= 0 ==> owner[f] == i
    ensures forall k :: f < k < |owner| ==> owner[k] != i
  {
    if |owner| == 0 then -1
    else if owner[|owner| - 1] == i then |owner| - 1
    else
      var front := owner[..|owner| - 1];
      assert owner == front + [owner[|owner| - 1]];
      LastOf(front, i)
  }

  /** Appending a segment adds its length to the busy time of its owner
      only. */
  lemma BusyAppend(t: seq<Segment>, owner: seq<nat>, s: Segment, j: nat, i: nat)
    requires |t| == |owner|
    ensures Busy(t + [s], owner + [j], i) ==
      Busy(t, owner, i) + (if j == i then s.finish - s.start else 0)
  {
    assert (t + [s])[..|t|] == t;
    assert (owner + [j])[..|t|] == owner;
  }

  /** A process that owns no segment has no busy time. */
  lemma {:induction false} BusyAbsent(t: seq<Segment>, owner: seq<nat>, i: nat)
    requires |t| == |owner| && i !in owner
    ensures Busy(t, owner, i) == 0
  {
    if |t| > 0 {
      BusyAbsent(t[..|t| - 1], owner[..|t| - 1], i);
    }
  }

  /** Appending a segment owned by `j` leaves the first segment of every
      process that already had one, and gives `j` its first one if it had
      none. */
  lemma FirstOfAppend(owner: seq<nat>, j: nat, i: nat)
    ensures FirstOf(owner + [j], i) ==
      if i in owner then FirstOf(owner, i) else if j == i then |owner| else -1
  {
    assert (owner + [j])[..|owner|] == owner;
  }

  /** Appending a segment owned by `j` makes it `j`'s last one and leaves the
      last segment of every other process. */
  lemma LastOfAppend(owner: seq<nat>, j: nat, i: nat)
    ensures LastOf(owner + [j], i) == if j == i then |owner| else LastOf(owner, i)
  {
    assert (owner + [j])[..|owner|] == owner;
  }

  /** In a sequential trace the CPU time of a process fits between the start
      of its first segment and the end of its last. */
  lemma {:induction false} BusyWithinSpan(t: seq<Segment>, owner: seq<nat>, i: nat)
    requires |t| == |owner| && Sequential(t) && i in owner
    ensures Busy(t, owner, i) <= t[LastOf(owner, i)].finish - t[FirstOf(owner, i)].start
  {
    var n := |t| - 1;
    var t', o' := t[..n], owner[..n];
    assert owner == o' + [owner[n]];
    assert forall k :: 0 <= k < n ==> t'[k] == t[k];
    FirstOfAppend(o', owner[n], i);
    LastOfAppend(o', owner[n], i);
    if i in o' {
      assert Sequential(t');
      BusyWithinSpan(t', o', i);
      if owner[n] == i {
        SequentialDisjoint(t);
        assert t[LastOf(o', i)].finish <= t[n].start;
      }
    } else {
      BusyAbsent(t', o', i);
    }
  }
}
