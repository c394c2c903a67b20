/** Facts about sequences and finite sets that several models need. */
module Sequences {

  lemma Assemble<T>(a: seq<T>, b: seq<T>, c: seq<T>)
    ensures a + (b + c) == (a + b) + c
  {
  }

  lemma SliceOfSlice<T>(s: seq<T>, from: nat, to: nat, i: nat, n: nat)
    requires from <= to <= |s| && i + n <= to - from
    ensures s[from..to][i..i + n] == s[from + i..from + i + n]
  {
    var inner, outer := s[from..to][i..i + n], s[from + i..from + i + n];
    assert forall k :: 0 <= k < n ==> inner[k] == outer[k];
  }

  lemma SplitSlice<T>(a: seq<T>, y: seq<T>, from: nat, mid: nat)
    requires from <= mid <= |a|
    ensures a[from..] == (a + y)[from..mid] + (a + y)[mid..|a|]
  {
  }

  ghost function Without<T>(s: seq<T>, k: nat): seq<T>
    requires k < |s|
  {
    s[..k] + s[k + 1..]
  }

  lemma MultisetWithout<T>(s: seq<T>, k: nat)
    requires k < |s|
    ensures multiset(Without(s, k)) == multiset(s) - multiset{s[k]}
  {
    assert s == s[..k] + ([s[k]] + s[k + 1..]);
  }

  /** Two arrangements of the same elements stay so when equal elements are removed from both. */
  lemma Matched<T>(s: seq<T>, t: seq<T>) returns (k: nat)
    requires s != [] && multiset(s) == multiset(t)
    ensures k < |t| && t[k] == s[0] && |s| == |t|
    ensures multiset(Without(s, 0)) == multiset(Without(t, k))
  {
    assert |s| == |multiset(s)| == |multiset(t)| == |t|;
    assert s[0] in multiset(t);
    k :| 0 <= k < |t| && t[k] == s[0];
    MultisetWithout(s, 0);
    MultisetWithout(t, k);
  }

  ghost predicate Distinct<T>(s: seq<T>) {
    forall i, j :: 0 <= i < j < |s| ==> s[i] != s[j]
  }

  lemma {:induction false} SubsetSize<T>(a: set<T>, b: set<T>)
    requires a <= b
    ensures |a| <= |b|
    decreases |a|
  {
    if a != {} {
      var x :| x in a;
      SubsetSize(a - {x}, b - {x});
    }
  }

  lemma {:induction false} ProperSubsetSize<T>(a: set<T>, b: set<T>)
    requires a < b
    ensures |a| < |b|
  {
    var x :| x in b && x !in a;
    SubsetSize(a, b - {x});
  }
}
