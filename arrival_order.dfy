/** The order `sorted(procesos, key=lambda x: x.tiempo_llegada)` produces:
    a stable sort by arrival time, so that processes that arrive together keep
    the order in which they were submitted. Processes are named by their index
    in the submitted list. */
module Arrivals {
  import opened Processes
  import opened Indices

  /** A stable sort by arrival puts process `i` ahead of process `j`. */
  predicate Before(ps: seq<Process>, i: nat, j: nat)
    requires i < |ps| && j < |ps|
  {
    ps[i].arrival < ps[j].arrival || (ps[i].arrival == ps[j].arrival && i < j)
  }

  /** `ord` lists indices of `ps` by non-decreasing arrival, ties by index. */
  predicate StablySorted(ps: seq<Process>, ord: seq<nat>)
  {
    Below(ord, |ps|) &&
    forall a, b :: 0 <= a < b < |ord| ==> Before(ps, ord[a], ord[b])
  }

  /** Places index `i`, larger than every index already in `ord`, behind every
      process that arrives no later than it does. */
  function Insert(ps: seq<Process>, ord: seq<nat>, i: nat): (r: seq<nat>)
    requires i < |ps| && StablySorted(ps, ord)
    requires forall a :: 0 <= a < |ord| ==> ord[a] < i
    ensures |r| == |ord| + 1 && StablySorted(ps, r)
    ensures forall x :: x in r <==> x in ord || x == i
  {
    if ord == [] then [i]
    else if ps[ord[|ord| - 1]].arrival <= ps[i].arrival then ord + [i]
    else
      var last := ord[|ord| - 1];
      var front := Insert(ps, ord[..|ord| - 1], i);
      assert forall a :: 0 <= a < |front| ==> front[a] in ord[..|ord| - 1] || front[a] == i;
      front + [last]
  }

  /** The stable order of the first `m` processes. */
  function SortedPrefix(ps: seq<Process>, m: nat): (ord: seq<nat>)
    requires m <= |ps|
    ensures |ord| == m && StablySorted(ps, ord)
    ensures forall x: nat :: x in ord <==> x < m
  {
    if m == 0 then []
    else
      var prev := SortedPrefix(ps, m - 1);
      assert forall a :: 0 <= a < |prev| ==> prev[a] in prev;
      Insert(ps, prev, m - 1)
  }

  /** The processes of `ps`, as indices, in the order `sorted` by arrival
      time returns them. */
  function ArrivalOrder(ps: seq<Process>): (ord: seq<nat>)
    ensures IsPermutation(ord, |ps|) && StablySorted(ps, ord)
    ensures forall x: nat :: x in ord <==> x < |ps|
  {
    var ord := SortedPrefix(ps, |ps|);
    assert Distinct(ord) by {
      forall a, b | 0 <= a < b < |ord| ensures ord[a] != ord[b] {
        assert Before(ps, ord[a], ord[b]);
      }
    }
    ord
  }

  /** Stable sorting by arrival has exactly one outcome: two stably sorted
      lists of the same processes are equal. So every stable sort, and
      Python's `sorted` in particular, yields ArrivalOrder. */
  lemma {:induction false} StableOrderIsUnique(ps: seq<Process>, o1: seq<nat>, o2: seq<nat>)
    requires StablySorted(ps, o1) && StablySorted(ps, o2)
    requires forall x :: x in o1 <==> x in o2
    ensures o1 == o2
  {
    assert o2 != [] ==> o2[0] in o2;
    if o1 != [] {
      assert o1[0] in o2 && o2[0] in o1;
      var a :| 0 <= a < |o1| && o1[a] == o2[0];
      var b :| 0 <= b < |o2| && o2[b] == o1[0];
      assert o1[0] == o2[0];
      forall x ensures x in o1[1..] <==> x in o2[1..] {
        if x in o1[1..] {
          var c :| 1 <= c < |o1| && o1[c] == x;
          assert Before(ps, o1[0], o1[c]);
          assert x in o1;
          var d :| 0 <= d < |o2| && o2[d] == x;
          assert d != 0;
          assert o2[1..][d - 1] == x;
        }
        if x in o2[1..] {
          var c :| 1 <= c < |o2| && o2[c] == x;
          assert Before(ps, o2[0], o2[c]);
          assert x in o2;
          var d :| 0 <= d < |o1| && o1[d] == x;
          assert d != 0;
          assert o1[1..][d - 1] == x;
        }
      }
      StableOrderIsUnique(ps, o1[1..], o2[1..]);
      assert o1 == [o1[0]] + o1[1..];
      assert o2 == [o2[0]] + o2[1..];
    }
  }
}
