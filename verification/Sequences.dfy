/** Slices of a sequence, and the number of its elements. */
module Sequences {

  /** Two slices that meet are one slice. */
  lemma JoinSlices<T>(s: seq<T>, a: nat, b: nat, c: nat)
    requires a <= b <= c <= |s|
    ensures s[a..c] == s[a..b] + s[b..c]
  {
  }

  /** A part of a slice is a slice. */
  lemma PartOfSlice<T>(s: seq<T>, o: nat, t: seq<T>, i: nat, j: nat)
    requires o + |t| <= |s| && s[o..o + |t|] == t && i <= j <= |t|
    ensures s[o + i..o + j] == t[i..j]
  {
    forall k | i <= k < j ensures s[o + k] == t[k] {
      assert s[o..o + |t|][k] == s[o + k];
    }
    assert s[o + i..o + j] == t[i..j];
  }

  lemma FourParts<T>(a: seq<T>, b: seq<T>, c: seq<T>, d: seq<T>)
    ensures var s := a + b + c + d;
      s[..|a|] == a && s[|a|..|a| + |b|] == b && s[|a| + |b| + |c|..] == d
  {
  }

  /** The elements, as a set. */
  ghost function Members(s: seq<nat>): (m: set<nat>)
    ensures forall c :: c in m <==> c in s
  {
    if s == [] then {} else Members(s[..|s| - 1]) + {s[|s| - 1]}
  }

  lemma {:induction false} MembersOfDistinct(s: seq<nat>)
    requires forall i, j :: 0 <= i < j < |s| ==> s[i] != s[j]
    ensures |Members(s)| == |s|
  {
    if s == [] {
    } else {
      MembersOfDistinct(s[..|s| - 1]);
      assert s[|s| - 1] !in s[..|s| - 1];
    }
  }

  /** The numbers below n. */
  ghost function Below(n: nat): (z: set<nat>)
    ensures |z| == n && forall x: nat :: x in z <==> x < n
  {
    if n == 0 then {} else Below(n - 1) + {n - 1}
  }

  lemma {:induction false} SubsetSize(a: set<nat>, b: set<nat>)
    requires a <= b
    ensures |a| <= |b|
    decreases b
  {
    if b == {} {
    } else {
      var x :| x in b;
      SubsetSize(a - {x}, b - {x});
    }
  }

  /** Different numbers below n: there are at most n. */
  lemma DistinctBelow(s: seq<nat>, n: nat)
    requires forall i :: 0 <= i < |s| ==> s[i] < n
    requires forall i, j :: 0 <= i < j < |s| ==> s[i] != s[j]
    ensures |s| <= n
  {
    hide Members, Below;
    MembersOfDistinct(s);
    SubsetSize(Members(s), Below(n));
  }
}
