/** Reorderings of a sequence. */
module Permutations {

  /** Element i of the reordering is element p[i] of the original. */
  ghost predicate IsPermutation(p: seq<nat>, n: nat) {
    && |p| == n
    && (forall i :: 0 <= i < n ==> p[i] < n)
    && (forall i, j :: 0 <= i < j < n ==> p[i] != p[j])
  }

  function Identity(n: nat): (p: seq<nat>)
    ensures IsPermutation(p, n)
    ensures forall i :: 0 <= i < n ==> p[i] == i
  {
    seq(n, i => i)
  }

  /** First p, then q. */
  ghost function Compose(p: seq<nat>, q: seq<nat>, n: nat): (r: seq<nat>)
    requires IsPermutation(p, n) && IsPermutation(q, n)
    ensures IsPermutation(r, n)
    ensures forall i :: 0 <= i < n ==> r[i] == p[q[i]]
  {
    var r := seq(n, i requires 0 <= i < n => p[q[i]]);
    assert forall i, j :: 0 <= i < j < n ==> q[i] != q[j] && r[i] == p[q[i]] && r[j] == p[q[j]];
    r
  }

  function Swap<T>(s: seq<T>, i: nat, j: nat): (r: seq<T>)
    requires i < |s| && j < |s|
    ensures |r| == |s|
  {
    s[i := s[j]][j := s[i]]
  }

  lemma SwapIsPermutation(p: seq<nat>, n: nat, i: nat, j: nat)
    requires IsPermutation(p, n) && i < n && j < n
    ensures IsPermutation(Swap(p, i, j), n)
  {
  }

  /** b holds the elements of a in the order p gives. */
  ghost predicate Reorders<T>(a: seq<T>, b: seq<T>, p: seq<nat>) {
    IsPermutation(p, |a|) && |b| == |a| && forall i :: 0 <= i < |a| ==> b[i] == a[p[i]]
  }

  lemma SwapReorders<T>(a: seq<T>, b: seq<T>, p: seq<nat>, i: nat, j: nat)
    requires Reorders(a, b, p) && i < |a| && j < |a|
    ensures Reorders(a, Swap(b, i, j), Swap(p, i, j))
  {
    SwapIsPermutation(p, |a|, i, j);
  }

  ghost function Range(n: nat): (s: set<nat>)
    ensures |s| == n && forall i: nat :: i in s <==> i < n
  {
    if n == 0 then {} else Range(n - 1) + {n - 1}
  }

  ghost function Elements(p: seq<nat>): (s: set<nat>)
    ensures forall x :: x in s <==> x in p
  {
    set x | x in p
  }

  lemma {:induction false} DistinctCount(p: seq<nat>)
    requires forall i, j :: 0 <= i < j < |p| ==> p[i] != p[j]
    ensures |Elements(p)| == |p|
  {
    if p != [] {
      DistinctCount(p[1..]);
      assert p[0] !in p[1..];
      assert Elements(p) == Elements(p[1..]) + {p[0]};
    }
  }

  lemma SubsetCount(a: set<nat>, b: set<nat>)
    requires a <= b && |a| == |b|
    ensures a == b
  {
    assert |b| == |a| + |b - a|;
  }

  /** A permutation hits every index. */
  lemma HitsEvery(p: seq<nat>, n: nat, v: nat)
    requires IsPermutation(p, n) && v < n
    ensures v in p
  {
    DistinctCount(p);
    SubsetCount(Elements(p), Range(n));
    assert v in Range(n);
  }
}
