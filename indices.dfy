/** Sequences of process indices: the lists `completados`, `pendientes` and
    `cola` hold process objects, which this model identifies by their index in
    the working copy. */
module Indices {

  /** No index occurs twice. */
  predicate Distinct(s: seq<nat>)
  {
    forall a, b :: 0 <= a < b < |s| ==> s[a] != s[b]
  }

  /** Every index is smaller than `n`. */
  predicate Below(s: seq<nat>, n: nat)
  {
    forall a :: 0 <= a < |s| ==> s[a] < n
  }

  /** `s` lists each of 0 .. n-1 exactly once. */
  predicate IsPermutation(s: seq<nat>, n: nat)
  {
    |s| == n && Below(s, n) && Distinct(s)
  }

  function RemoveAt(s: seq<nat>, p: nat): (r: seq<nat>)
    requires p < |s|
    ensures |r| == |s| - 1
  {
    s[..p] + s[p + 1..]
  }

  lemma RemoveAtFacts(s: seq<nat>, p: nat)
    requires p < |s| && Distinct(s)
    ensures Distinct(RemoveAt(s, p))
    ensures forall x :: x in RemoveAt(s, p) <==> x in s && x != s[p]
  {
    var r := RemoveAt(s, p);
    forall x | x in s && x != s[p]
      ensures x in r
    {
      var a :| 0 <= a < |s| && s[a] == x;
      if a < p { assert r[a] == x; } else { assert r[a - 1] == x; }
    }
  }

  /** Appending an index not yet in the list keeps it duplicate-free, and
      the list was shorter than `n`. */
  lemma Extend(s: seq<nat>, c: nat, n: nat)
    requires Distinct(s) && Below(s, n) && c < n && c !in s
    ensures Distinct(s + [c]) && Below(s + [c], n) && |s| < n
  {
    assert Distinct(s + [c]) by {
      forall a | 0 <= a < |s| ensures (s + [c])[a] != c { assert s[a] in s; }
    }
    DistinctBound(s + [c], n);
  }

  /** A duplicate-free list of indices below `n` that is shorter than `n`
      misses some index. */
  lemma {:induction false} MissingIndex(s: seq<nat>, n: nat)
    requires Distinct(s) && Below(s, n) && |s| < n
    ensures exists i :: 0 <= i < n && i !in s
  {
    if n - 1 in s {
      var p :| 0 <= p < |s| && s[p] == n - 1;
      var r := RemoveAt(s, p);
      RemoveAtFacts(s, p);
      assert Below(r, n - 1) by {
        forall a | 0 <= a < |r| ensures r[a] < n - 1 {
          assert r[a] in r;
        }
      }
      MissingIndex(r, n - 1);
      var i :| 0 <= i < n - 1 && i !in r;
      assert i !in s;
    } else {
      assert n - 1 !in s;
    }
  }

  /** A duplicate-free list of indices below `n` has at most `n` entries. */
  lemma {:induction false} DistinctBound(s: seq<nat>, n: nat)
    requires Distinct(s) && Below(s, n)
    ensures |s| <= n
  {
    if |s| > 0 {
      assert s[0] < n;
      if n - 1 in s {
        var p :| 0 <= p < |s| && s[p] == n - 1;
        var r := RemoveAt(s, p);
        RemoveAtFacts(s, p);
        assert Below(r, n - 1) by {
          forall a | 0 <= a < |r| ensures r[a] < n - 1 {
            assert r[a] in r;
          }
        }
        DistinctBound(r, n - 1);
      } else {
        assert Below(s, n - 1) by {
          forall a | 0 <= a < |s| ensures s[a] < n - 1 {
            assert s[a] in s;
          }
        }
        DistinctBound(s, n - 1);
      }
    }
  }

  /** A permutation of 0 .. n-1 contains every one of them. */
  lemma {:induction false} PermutationCovers(s: seq<nat>, n: nat)
    requires IsPermutation(s, n)
    ensures forall i :: 0 <= i < n ==> i in s
  {
    forall i | 0 <= i < n ensures i in s {
      if i !in s {
        Short(s, n, i);
        assert false;
      }
    }
  }

  /** If some index below `n` is missing, a duplicate-free list of indices
      below `n` is shorter than `n`. */
  lemma {:induction false} Short(s: seq<nat>, n: nat, i: nat)
    requires Distinct(s) && Below(s, n) && i < n && i !in s
    ensures |s| < n
  {
    if n - 1 in s {
      var p :| 0 <= p < |s| && s[p] == n - 1;
      var r := RemoveAt(s, p);
      RemoveAtFacts(s, p);
      assert Below(r, n - 1) by {
        forall a | 0 <= a < |r| ensures r[a] < n - 1 {
          assert r[a] in r;
        }
      }
      Short(r, n - 1, i);
    } else {
      assert Below(s, n - 1) by {
        forall a | 0 <= a < |s| ensures s[a] < n - 1 {
          assert s[a] in s;
        }
      }
      DistinctBound(s, n - 1);
    }
  }

  /** In a duplicate-free list every index occurs at most once. */
  lemma {:induction false} DistinctMultiplicity(s: seq<nat>)
    requires Distinct(s)
    ensures forall x :: multiset(s)[x] <= 1
  {
    if s != [] {
      var front := s[..|s| - 1];
      assert s == front + [s[|s| - 1]];
      assert Distinct(front);
      DistinctMultiplicity(front);
      assert s[|s| - 1] !in front;
    }
  }

  /** A list in which every index occurs at most once is duplicate-free. */
  lemma MultiplicityDistinct(s: seq<nat>)
    requires forall x :: multiset(s)[x] <= 1
    ensures Distinct(s)
  {
    forall a, b | 0 <= a < b < |s| ensures s[a] != s[b] {
      assert s == s[..b] + s[b..];
      assert s[..b][a] == s[a] && s[b..][0] == s[b];
      assert multiset(s)[s[b]] == multiset(s[..b])[s[b]] + multiset(s[b..])[s[b]];
    }
  }
}
