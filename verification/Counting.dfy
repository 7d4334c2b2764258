/** Finite sets and sequences of numbers: the counting facts the other modules need. */
module Counting {
  ghost predicate Distinct(s: seq<nat>) {
    forall i, j :: 0 <= i < j < |s| ==> s[i] != s[j]
  }

  ghost function Elems(s: seq<nat>): set<nat> {
    set k | 0 <= k < |s| :: s[k]
  }

  lemma {:induction false} DistinctCount(s: seq<nat>)
    requires Distinct(s)
    ensures |Elems(s)| == |s|
  {
    if s != [] {
      var front, last := s[..|s| - 1], s[|s| - 1];
      DistinctCount(front);
      assert Elems(s) == Elems(front) + {last};
      assert last !in Elems(front);
    }
  }

  lemma AppendElems(s: seq<nat>, b: nat)
    ensures Elems(s + [b]) == Elems(s) + {b}
    ensures b in s ==> Elems(s) == Elems(s) + {b}
  {
    var t := s + [b];
    assert t[|s|] == b;
    forall x | x in Elems(s)
      ensures x in Elems(t)
    {
      var k :| 0 <= k < |s| && s[k] == x;
      assert t[k] == x;
    }
  }

  lemma {:induction false} SubsetCount(a: set<nat>, b: set<nat>)
    requires a <= b
    ensures |a| <= |b|
    ensures |a| == |b| ==> a == b
  {
    assert b == a + (b - a);
  }

  ghost function Below(n: nat): (s: set<nat>)
    ensures forall i :: i in s <==> 0 <= i < n
    ensures |s| == n
  {
    if n == 0 then {} else Below(n - 1) + {n - 1}
  }

  lemma {:induction false} ElemsCount(s: seq<nat>)
    ensures |Elems(s)| <= |s|
  {
    if s != [] {
      ElemsCount(s[..|s| - 1]);
      assert Elems(s) == Elems(s[..|s| - 1]) + {s[|s| - 1]};
    }
  }

  /** A set of the numbers below n either has all of them, or has fewer and misses one. */
  lemma AllOrFewer(s: set<nat>, n: nat)
    requires forall i :: i in s ==> i < n
    ensures (exists i :: 0 <= i < n && i !in s) <==> |s| < n
  {
    SubsetCount(s, Below(n));
    if exists i :: 0 <= i < n && i !in s {
      var i :| 0 <= i < n && i !in s;
      assert i in Below(n);
    } else {
      assert s == Below(n);
    }
  }

  /** A set and a sequence that together have every number below n. */
  lemma CoverCount(u: set<nat>, s: seq<nat>, n: nat)
    requires forall i :: 0 <= i < n ==> i in u || i in s
    ensures |u| + |s| >= n
  {
    ElemsCount(s);
    forall i | i in Below(n)
      ensures i in u + Elems(s)
    {
      if i in s {
        var k :| 0 <= k < |s| && s[k] == i;
      }
    }
    SubsetCount(Below(n), u + Elems(s));
    SubsetCount(u + Elems(s) - u, Elems(s));
    assert u + Elems(s) == u + (u + Elems(s) - u);
  }

  /** The n numbers from lo on. */
  ghost function Interval(lo: nat, n: nat): (s: set<nat>)
    ensures |s| == n && forall i :: i in s <==> lo <= i < lo + n
  {
    if n == 0 then {} else Interval(lo, n - 1) + {lo + n - 1}
  }
}
