/** Binary heaps laid out in a sequence: position 0 is the root, position c hangs below position (c - 1) / 2. */
module Heaps {
  import opened Sequences

  function Parent(c: nat): nat
    requires c > 0
  {
    (c - 1) / 2
  }

  /** Which of two values may stand above the other: the larger in a max heap, the smaller in a min heap. */
  predicate MayStandAbove(max: bool, x: int, y: int) {
    if max then x >= y else x <= y
  }

  /** Position c does not beat its parent. */
  ghost predicate InPlace(max: bool, s: seq<int>, c: nat)
    requires 0 < c < |s|
  {
    MayStandAbove(max, s[Parent(c)], s[c])
  }

  /** The first n positions form heaps below every position from lo on. */
  ghost predicate HeapFrom(max: bool, s: seq<int>, n: nat, lo: nat)
    requires n <= |s|
  {
    forall c {:trigger InPlace(max, s, c)} :: 0 < c < n && lo <= Parent(c) ==> InPlace(max, s, c)
  }

  ghost predicate IsHeap(max: bool, s: seq<int>) {
    HeapFrom(max, s, |s|, 0)
  }

  /** A heap below every position from lo on, except that position `hole` may be beaten by its children. */
  ghost predicate HeapButFor(max: bool, s: seq<int>, n: nat, lo: nat, hole: nat)
    requires n <= |s|
  {
    && lo <= hole < n
    && (forall c {:trigger InPlace(max, s, c)} :: 0 < c < n && lo <= Parent(c) && Parent(c) != hole ==> InPlace(max, s, c))
    && (hole > 0 && lo <= Parent(hole) ==>
          forall c {:trigger s[c]} :: 0 < c < n && Parent(c) == hole ==> MayStandAbove(max, s[Parent(hole)], s[c]))
  }

  /** The position among hole and its two children whose value may stand above the other two, as the sifts choose it. */
  function Chosen(max: bool, s: seq<int>, n: nat, hole: nat): (current: nat)
    requires hole < n <= |s|
    ensures current == hole || (0 < current < n && Parent(current) == hole)
    ensures forall c :: 0 < c < n && Parent(c) == hole ==> MayStandAbove(max, s[current], s[c])
    ensures MayStandAbove(max, s[current], s[hole])
  {
    var left, right := 2 * hole + 1, 2 * hole + 2;
    var current := if n > left && !MayStandAbove(max, s[hole], s[left]) then left else hole;
    var current' := if n > right && !MayStandAbove(max, s[current], s[right]) then right else current;
    assert forall c :: 0 < c && Parent(c) == hole ==> c == left || c == right;
    current'
  }

  /** When the hole itself is chosen, the heap is whole. */
  lemma SiftDone(max: bool, s: seq<int>, n: nat, lo: nat, hole: nat)
    requires n <= |s| && HeapButFor(max, s, n, lo, hole) && Chosen(max, s, n, hole) == hole
    ensures HeapFrom(max, s, n, lo)
  {
  }

  /** Otherwise exchanging the hole with the chosen child moves the hole down. */
  lemma SiftStep(max: bool, s: seq<int>, t: seq<int>, n: nat, lo: nat, hole: nat)
    requires n <= |s| && HeapButFor(max, s, n, lo, hole)
    requires var current := Chosen(max, s, n, hole); current != hole && t == s[hole := s[current]][current := s[hole]]
    ensures HeapButFor(max, t, n, lo, Chosen(max, s, n, hole))
  {
    var current := Chosen(max, s, n, hole);
    forall c | 0 < c < n && lo <= Parent(c) && Parent(c) != current ensures InPlace(max, t, c) {
      if Parent(c) != hole { assert InPlace(max, s, c); }
    }
    forall c | 0 < c < n && Parent(c) == current ensures MayStandAbove(max, t[Parent(current)], t[c]) {
      assert InPlace(max, s, c);
    }
  }

  /** A position broken only at its top becomes a hole. */
  lemma SiftStart(max: bool, s: seq<int>, n: nat, hole: nat)
    requires hole < n <= |s| && HeapFrom(max, s, n, hole + 1)
    ensures HeapButFor(max, s, n, hole, hole)
  {
  }

  /** The root of a heap may stand above all of it. */
  lemma {:induction false} RootIsExtreme(max: bool, s: seq<int>, n: nat, k: nat)
    requires k < n <= |s| && HeapFrom(max, s, n, 0)
    ensures MayStandAbove(max, s[0], s[k])
    decreases k
  {
    if k > 0 {
      assert InPlace(max, s, k);
      RootIsExtreme(max, s, n, Parent(k));
    }
  }

  /** Positions without children are heaps already. */
  lemma LeavesAreHeaps(max: bool, s: seq<int>, lo: nat)
    requires 2 * lo + 1 >= |s|
    ensures HeapFrom(max, s, |s|, lo)
  {
  }
}
