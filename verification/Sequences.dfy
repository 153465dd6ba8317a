/** Vocabulary shared by the models: sortedness, rearrangement and bounds of integer sequences. */
module Sequences {

  ghost predicate Sorted(s: seq<int>) {
    forall i, j :: 0 <= i < j < |s| ==> s[i] <= s[j]
  }

  /** No element twice. */
  ghost predicate Once<T>(s: seq<T>) {
    forall i, j :: 0 <= i < j < |s| ==> s[i] != s[j]
  }

  ghost function Elements<T>(s: seq<T>): set<T> {
    set x | x in s
  }

  function Min(a: int, b: int): int {
    if b < a then b else a
  }

  function Max(a: int, b: int): int {
    if a < b then b else a
  }

  ghost predicate NonNegative(s: seq<int>) {
    forall i :: 0 <= i < |s| ==> s[i] >= 0
  }

  /** Every element of s is at most bound. */
  ghost predicate AllAtMost(s: seq<int>, bound: int) {
    forall k :: 0 <= k < |s| ==> s[k] <= bound
  }

  /** Every element of s is at least bound. */
  ghost predicate AllAtLeast(s: seq<int>, bound: int) {
    forall k :: 0 <= k < |s| ==> s[k] >= bound
  }

  /** Same elements with the same multiplicities. */
  ghost predicate Rearranged<T>(s: seq<T>, t: seq<T>) {
    multiset(s) == multiset(t)
  }

  lemma RearrangedLength<T>(s: seq<T>, t: seq<T>)
    requires Rearranged(s, t)
    ensures |s| == |t|
  {
    assert |multiset(s)| == |s| && |multiset(t)| == |t|;
  }

  lemma RearrangedBounds(s: seq<int>, t: seq<int>, bound: int)
    requires Rearranged(s, t)
    ensures AllAtMost(s, bound) ==> AllAtMost(t, bound)
    ensures AllAtLeast(s, bound) ==> AllAtLeast(t, bound)
  {
    forall k | 0 <= k < |t| ensures t[k] in s {
      assert t[k] in multiset(t);
    }
  }

  /** Exchanging two positions rearranges the sequence. */
  lemma SwapRearranges<T>(s: seq<T>, t: seq<T>, i: nat, j: nat)
    requires i < |s| && j < |s|
    requires t == s[i := s[j]][j := s[i]]
    ensures Rearranged(s, t)
  {
  }

  /** Exchanging two positions inside [lo, hi) rearranges that slice. */
  lemma SwapRearrangesSlice<T>(s: seq<T>, t: seq<T>, i: nat, j: nat, lo: nat, hi: nat)
    requires lo <= i < hi <= |s| && lo <= j < hi
    requires t == s[i := s[j]][j := s[i]]
    ensures Rearranged(s[lo..hi], t[lo..hi])
  {
    var u := s[lo..hi];
    assert t[lo..hi] == u[i - lo := u[j - lo]][j - lo := u[i - lo]];
    SwapRearranges(u, t[lo..hi], i - lo, j - lo);
  }

  /** Where x occurs first; the length of the list if it does not occur. */
  function FirstAt(nodes: seq<int>, x: int): (p: nat)
    ensures p <= |nodes| && (p < |nodes| ==> nodes[p] == x) && forall q :: 0 <= q < p ==> nodes[q] != x
  {
    if nodes == [] || nodes[0] == x then 0 else 1 + FirstAt(nodes[1..], x)
  }

  lemma FirstAtLeast(nodes: seq<int>, p: nat)
    requires p < |nodes|
    ensures FirstAt(nodes, nodes[p]) <= p
  {
  }
}
