/** The distinct permutations of a vector, with the vector itself as working storage. */
module Permutations {
  import opened Lexicographic
  import opened Sequences

  // ---------- ordered sets of sequences ----------

  method Insert(list: seq<seq<int>>, x: seq<int>) returns (out: seq<seq<int>>)
    requires Ascending(list) && x !in list
    ensures Ascending(out) && forall y :: y in out <==> y == x || y in list
  {
    var k := 0;
    while k < |list| && LexLess(list[k], x)
      invariant 0 <= k <= |list|
      invariant forall i :: 0 <= i < k ==> LexLess(list[i], x)
    {
      k := k + 1;
    }
    out := list[..k] + [x] + list[k..];
    InsertedAt(list, x, k);
    assert list == list[..k] + list[k..];
  }

  lemma InsertedAt(list: seq<seq<int>>, x: seq<int>, k: nat)
    requires Ascending(list) && x !in list && k <= |list|
    requires (forall i :: 0 <= i < k ==> LexLess(list[i], x)) && (k < |list| ==> !LexLess(list[k], x))
    ensures Ascending(list[..k] + [x] + list[k..])
  {
    forall i | k <= i < |list| ensures LexLess(x, list[i]) {
      LexTotal(list[k], x);
      if i > k {
        assert InPlaces(list, k, i);
        LexTransitive(x, list[k], list[i]);
      }
    }
    AscendingSlice(list, 0, k);
    AscendingSlice(list, k, |list|);
    assert list[0..k] == list[..k] && list[k..|list|] == list[k..];
    AscendingJoin(list[..k], [x]);
    forall y, z | y in list[..k] + [x] && z in list[k..] ensures LexLess(y, z) {
      var j :| k <= j < |list| && list[j] == z;
      if y != x {
        var i :| 0 <= i < k && list[i] == y;
        assert InPlaces(list, i, j);
      }
    }
    AscendingJoin(list[..k] + [x], list[k..]);
  }

  /** The elements of a set, in the order in which std::set iterates. */
  method InOrder(s: set<seq<int>>) returns (list: seq<seq<int>>)
    ensures Ascending(list) && forall x :: x in list <==> x in s
  {
    list := [];
    var rest := s;
    while rest != {}
      invariant rest <= s && Ascending(list)
      invariant forall x :: x in list <==> x in s - rest
      decreases rest
    {
      var x :| x in rest;
      list := Insert(list, x);
      rest := rest - {x};
    }
  }

  // ---------- taking one element out ----------

  /** s without position i, whose place the last element takes. */
  function Without(s: seq<int>, i: nat): seq<int>
    requires i < |s|
  {
    s[i := s[|s| - 1]][..|s| - 1]
  }

  lemma WithoutMultiset(s: seq<int>, i: nat)
    requires i < |s|
    ensures multiset(Without(s, i)) + multiset{s[i]} == multiset(s)
  {
    var n := |s| - 1;
    var t := s[i := s[n]][n := s[i]];
    SwapRearranges(s, t, i, n);
    assert t == Without(s, i) + [s[i]];
  }

  /** Pushing the element back and exchanging again undoes the removal. */
  lemma WithoutUndone(s: seq<int>, i: nat)
    requires i < |s|
    ensures var t := Without(s, i) + [s[i]]; t[i := t[|s| - 1]][|s| - 1 := t[i]] == s
  {
  }

  /** Leaving the same sequence behind means having taken out the same value. */
  lemma SameRestSameValue(s: seq<int>, i: nat, k: nat)
    requires i < |s| && k < |s| && Without(s, i) == Without(s, k)
    ensures s[i] == s[k]
  {
    WithoutMultiset(s, i);
    WithoutMultiset(s, k);
    var m := multiset(Without(s, i));
    assert (m + multiset{s[i]})[s[i]] == (m + multiset{s[k]})[s[i]];
  }

  /** A permutation of s that ends in s[i] is a permutation of the rest, followed by s[i]. */
  lemma EndsIn(s: seq<int>, i: nat, p: seq<int>)
    requires i < |s|
    ensures Rearranged(p + [s[i]], s) <==> Rearranged(p, Without(s, i))
  {
    WithoutMultiset(s, i);
    var a, b, e := multiset(p), multiset(Without(s, i)), multiset{s[i]};
    assert multiset(p + [s[i]]) == a + e;
    assert a + e == b + e <==> a == b by {
      assert (a + e) - e == a && (b + e) - e == b;
    }
  }

  // ---------- the permutations ----------

  /** Exactly the permutations of s whose last element is one of the ends. */
  ghost predicate PermutationsEndingIn(found: set<seq<int>>, s: seq<int>, ends: seq<int>) {
    forall p :: p in found <==> p != [] && Rearranged(p, s) && p[|p| - 1] in ends
  }

  function Extended(sub: seq<seq<int>>, last: int): set<seq<int>> {
    set p | p in sub :: p + [last]
  }

  method InsertAll(found: set<seq<int>>, sub: seq<seq<int>>, last: int) returns (sret: set<seq<int>>)
    ensures sret == found + Extended(sub, last)
  {
    sret := found;
    for j := 0 to |sub|
      invariant sret == found + Extended(sub[..j], last)
    {
      assert sub[..j + 1] == sub[..j] + [sub[j]];
      sret := sret + {sub[j] + [last]};
    }
    assert sub[..|sub|] == sub;
  }

  lemma OneMoreEnd(found: set<seq<int>>, s: seq<int>, i: nat, sub: seq<seq<int>>)
    requires i < |s| && PermutationsEndingIn(found, s, s[..i])
    requires forall p :: p in sub <==> Rearranged(p, Without(s, i))
    ensures PermutationsEndingIn(found + Extended(sub, s[i]), s, s[..i + 1])
  {
    assert s[..i + 1] == s[..i] + [s[i]];
    forall p ensures p in Extended(sub, s[i]) <==> p != [] && Rearranged(p, s) && p[|p| - 1] == s[i] {
      ExtendedEnds(s, i, sub, p);
    }
  }

  lemma ExtendedEnds(s: seq<int>, i: nat, sub: seq<seq<int>>, p: seq<int>)
    requires i < |s| && forall q :: q in sub <==> Rearranged(q, Without(s, i))
    ensures p in Extended(sub, s[i]) <==> p != [] && Rearranged(p, s) && p[|p| - 1] == s[i]
  {
    if p != [] {
      var q, last := p[..|p| - 1], p[|p| - 1];
      assert p == q + [last];
      EndsIn(s, i, q);
    }
  }

  /** Each entry is what was left after taking out one of the first i elements. */
  ghost predicate RestsSoFar(permuted: set<seq<int>>, s: seq<int>, i: nat)
    requires i <= |s|
  {
    forall r :: r in permuted ==> exists k :: 0 <= k < i && r == Without(s, k)
  }

  /** The first i elements have been tried as the last element. */
  ghost predicate TriedEnds(sret: set<seq<int>>, permuted: set<seq<int>>, s: seq<int>, i: nat) {
    i <= |s| && PermutationsEndingIn(sret, s, s[..i]) && RestsSoFar(permuted, s, i)
  }

  lemma NothingNew(s: seq<int>, i: nat, k: nat)
    requires k < i < |s| && s[k] == s[i]
    ensures forall v :: v in s[..i + 1] <==> v in s[..i]
  {
    assert s[..i + 1] == s[..i] + [s[i]] && s[..i][k] == s[i];
  }

  lemma SameEnds(found: set<seq<int>>, s: seq<int>, ends: seq<int>, more: seq<int>)
    requires PermutationsEndingIn(found, s, ends) && forall v :: v in more <==> v in ends
    ensures PermutationsEndingIn(found, s, more)
  {
    forall p ensures p in found <==> p != [] && Rearranged(p, s) && p[|p| - 1] in more {
      if p != [] {
        var v := p[|p| - 1];
        assert v in more <==> v in ends;
      }
    }
  }

  lemma RestsGrow(permuted: set<seq<int>>, s: seq<int>, i: nat)
    requires i < |s| && RestsSoFar(permuted, s, i)
    ensures RestsSoFar(permuted, s, i + 1)
  {
  }

  /** A rest that was seen before has nothing new to give. */
  lemma SkipIsHarmless(sret: set<seq<int>>, permuted: set<seq<int>>, s: seq<int>, i: nat)
    requires i < |s| && TriedEnds(sret, permuted, s, i) && Without(s, i) in permuted
    ensures TriedEnds(sret, permuted, s, i + 1)
  {
    var k :| 0 <= k < i && Without(s, i) == Without(s, k);
    SameRestSameValue(s, i, k);
    NothingNew(s, i, k);
    SameEnds(sret, s, s[..i], s[..i + 1]);
    RestsGrow(permuted, s, i);
  }

  lemma NewRest(sret: set<seq<int>>, permuted: set<seq<int>>, s: seq<int>, i: nat, sub: seq<seq<int>>)
    requires i < |s| && TriedEnds(sret, permuted, s, i)
    requires forall p :: p in sub <==> Rearranged(p, Without(s, i))
    ensures TriedEnds(sret + Extended(sub, s[i]), permuted + {Without(s, i)}, s, i + 1)
  {
    OneMoreEnd(sret, s, i, sub);
  }

  lemma AllEnds(sret: set<seq<int>>, s: seq<int>, p: seq<int>)
    requires s != [] && PermutationsEndingIn(sret, s, s[..|s|])
    ensures p in sret <==> Rearranged(p, s)
  {
    if Rearranged(p, s) {
      RearrangedLength(p, s);
      assert p[|p| - 1] in multiset(p);
      assert p[|p| - 1] in multiset(s);
      assert s[..|s|] == s;
    }
  }

  class IntVector {
    var elems: seq<int>

    constructor (elems: seq<int>)
      ensures this.elems == elems
    {
      this.elems := elems;
    }

    method Swap(i: nat, j: nat)
      requires i < |elems| && j < |elems|
      modifies this
      ensures elems == old(elems)[i := old(elems)[j]][j := old(elems)[i]]
    {
      elems := elems[i := elems[j]][j := elems[i]];
    }

    method PopBack()
      requires elems != []
      modifies this
      ensures elems == old(elems)[..|old(elems)| - 1]
    {
      elems := elems[..|elems| - 1];
    }

    method PushBack(x: int)
      modifies this
      ensures elems == old(elems) + [x]
    {
      elems := elems + [x];
    }
  }

  /** Exchanges element i with the last one and drops it from the end. */
  method TakeOut(input: IntVector, i: nat) returns (cur: int)
    requires i < |input.elems|
    modifies input
    ensures cur == old(input.elems)[i] && input.elems == Without(old(input.elems), i)
  {
    cur := input.elems[i];
    input.Swap(i, |input.elems| - 1);
    input.PopBack();
  }

  method PutBack(input: IntVector, i: nat, cur: int, ghost given: seq<int>)
    requires i < |given| && cur == given[i] && input.elems == Without(given, i)
    modifies input
    ensures input.elems == given
  {
    input.PushBack(cur);
    input.Swap(i, |input.elems| - 1);
    WithoutUndone(given, i);
  }

  /** Every distinct permutation once, in lexicographic order; the argument is as it was. */
  method PermuteUnique(input: IntVector) returns (ret: seq<seq<int>>)
    modifies input
    ensures input.elems == old(input.elems)
    ensures Ascending(ret) && Once(ret)
    ensures forall p :: p in ret <==> Rearranged(p, old(input.elems))
    decreases |input.elems|
  {
    ghost var given := input.elems;
    var n := |input.elems|;
    if n <= 1 {
      forall p | Rearranged(p, given) ensures p == given { SmallRearranged(p, given); }
      return [input.elems];
    }
    var permuted: set<seq<int>>, sret: set<seq<int>> := {}, {};
    for i := 0 to n
      invariant input.elems == given
      invariant TriedEnds(sret, permuted, given, i)
    {
      var cur := TakeOut(input, i);
      if input.elems in permuted {
        SkipIsHarmless(sret, permuted, given, i);
        PutBack(input, i, cur, given);
        continue;
      }
      ghost var seen := permuted;
      permuted := permuted + {input.elems};
      var sub := PermuteUnique(input);
      NewRest(sret, seen, given, i, sub);
      sret := InsertAll(sret, sub, cur);
      PutBack(input, i, cur, given);
    }
    ret := InOrder(sret);
    AscendingOnce(ret);
    forall p ensures p in ret <==> Rearranged(p, given) { AllEnds(sret, given, p); }
  }

  lemma SmallRearranged(p: seq<int>, s: seq<int>)
    requires Rearranged(p, s) && |s| <= 1
    ensures p == s
  {
    RearrangedLength(p, s);
    if |s| == 1 { assert p[0] in multiset(s); }
  }
}
