/** All distinct sub-multisets of some numbers, listed by backtracking over the sorted numbers. */
module Subsets {
  import opened Lexicographic
  import opened Sequences
  import HeapSort

  // ---------- sub-multisets as sorted sequences ----------

  /** A sorted selection of the numbers, each used at most as often as it occurs. */
  ghost predicate Selection(t: seq<int>, numbers: seq<int>) {
    Sorted(t) && multiset(t) <= multiset(numbers)
  }

  ghost predicate TopOf(m: multiset<int>, x: int) {
    x in m && forall y :: y in m ==> y <= x
  }

  /** The last element of a sorted sequence is its maximum, and the rest is the rest. */
  lemma SortedTop(s: seq<int>)
    requires Sorted(s) && s != []
    ensures var n := |s| - 1; TopOf(multiset(s), s[n]) && multiset(s[..n]) == multiset(s) - multiset{s[n]} && Sorted(s[..n])
    ensures s == s[..|s| - 1] + [s[|s| - 1]]
  {
    var n := |s| - 1;
    assert s == s[..n] + [s[n]];
    forall y | y in multiset(s) ensures y <= s[n] {
      var k :| 0 <= k < |s| && s[k] == y;
    }
  }

  lemma TopUnique(m: multiset<int>, x: int, y: int)
    requires TopOf(m, x) && TopOf(m, y)
    ensures x == y
  {
  }

  lemma {:induction false} SortedUnique(s: seq<int>, t: seq<int>)
    requires Sorted(s) && Sorted(t) && Rearranged(s, t)
    ensures s == t
    decreases |s|
  {
    RearrangedLength(s, t);
    if s != [] {
      var n := |s| - 1;
      SortedTop(s);
      SortedTop(t);
      TopUnique(multiset(s), s[n], t[n]);
      SortedUnique(s[..n], t[..n]);
    }
  }

  lemma SortedAppend(s: seq<int>, x: int)
    requires Sorted(s) && forall y :: y in multiset(s) ==> y <= x
    ensures Sorted(s + [x]) && multiset(s + [x]) == multiset(s) + multiset{x}
  {
    forall k | 0 <= k < |s| ensures s[k] <= x { assert s[k] in multiset(s); }
  }

  lemma SomethingInside(m: multiset<int>) returns (x: int)
    requires |m| > 0
    ensures x in m
  {
    if forall y: int :: m[y] == 0 { assert false; }
    x :| m[x] > 0;
  }

  lemma {:induction false} TopExists(m: multiset<int>) returns (x: int)
    requires |m| > 0
    ensures TopOf(m, x)
    decreases |m|
  {
    x := SomethingInside(m);
    if |m| > 1 {
      var y := TopExists(m - multiset{x});
      assert m == (m - multiset{x}) + multiset{x};
      if y > x { x := y; }
    } else {
      assert m == multiset{x} + (m - multiset{x});
      assert m - multiset{x} == multiset{};
    }
  }

  lemma {:induction false} SortedExists(m: multiset<int>) returns (t: seq<int>)
    ensures Sorted(t) && multiset(t) == m
    decreases |m|
  {
    if |m| == 0 {
      t := [];
    } else {
      var x := TopExists(m);
      var u := SortedExists(m - multiset{x});
      SortedAppend(u, x);
      t := u + [x];
    }
  }

  // ---------- what the recursion lists ----------

  /** The list holds head + t for every selection t of the numbers, in lexicographic order, and nothing else. */
  ghost predicate Lists(list: seq<seq<int>>, head: seq<int>, numbers: seq<int>) {
    && Ascending(list)
    && forall r :: r in list <==> head <= r && Selection(r[|head|..], numbers)
  }

  /** r continues head by a selection of the numbers whose first element is among the starts. */
  ghost predicate Continues(r: seq<int>, head: seq<int>, numbers: seq<int>, starts: seq<int>) {
    head < r && Selection(r[|head|..], numbers) && r[|head|] in starts
  }

  /** The list holds head itself and head + t for the selections t that start with one of the starts, in this order. */
  ghost predicate ListsStarts(list: seq<seq<int>>, head: seq<int>, numbers: seq<int>, starts: seq<int>) {
    && Ascending(list)
    && forall r :: r in list <==> r == head || Continues(r, head, numbers, starts)
  }

  /** Where x occurs first in sorted numbers: what precedes is smaller, what follows is not. */
  lemma AroundFirst(before: seq<int>, x: int, after: seq<int>)
    requires x !in before && Sorted(before + [x] + after)
    ensures forall y :: y in before ==> y < x
    ensures forall y :: y in after ==> x <= y
  {
    var all := before + [x] + after;
    forall y | y in before ensures y < x {
      var k :| 0 <= k < |before| && before[k] == y;
      assert all[k] <= all[|before|];
    }
    forall y | y in after ensures x <= y {
      var k :| 0 <= k < |after| && after[k] == y;
      assert all[|before|] <= all[|before| + 1 + k];
    }
  }

  lemma SortedCons(x: int, t: seq<int>)
    ensures Sorted([x] + t) <==> Sorted(t) && forall y :: y in t ==> x <= y
  {
    var s := [x] + t;
    if Sorted(s) {
      forall i, j | 0 <= i < j < |t| ensures t[i] <= t[j] { assert s[i + 1] <= s[j + 1]; }
      forall y | y in t ensures x <= y {
        var k :| 0 <= k < |t| && t[k] == y;
        assert s[0] <= s[k + 1];
      }
    } else if Sorted(t) && forall y :: y in t ==> x <= y {
      forall i, j | 0 <= i < j < |s| ensures s[i] <= s[j] {
        assert s[j] == t[j - 1] && t[j - 1] in t;
        if i > 0 { assert s[i] == t[i - 1]; }
      }
    }
  }

  /** A selection that starts with the first occurrence of x goes on with a selection of what follows. */
  lemma AfterFirst(t: seq<int>, before: seq<int>, x: int, after: seq<int>)
    requires x !in before && Sorted(before + [x] + after)
    ensures Selection([x] + t, before + [x] + after) <==> Selection(t, after)
  {
    AroundFirst(before, x, after);
    SortedCons(x, t);
    var a, b, c := multiset(before), multiset(after), multiset(t);
    assert multiset(before + [x] + after) == a + multiset{x} + b;
    assert multiset([x] + t) == multiset{x} + c;
    if Sorted(t) && multiset([x] + t) <= multiset(before + [x] + after) && (forall y :: y in t ==> x <= y) {
      forall y ensures c[y] <= b[y] {
        assert (multiset{x} + c)[y] <= (a + multiset{x} + b)[y];
        if y in c {
          assert y in t && y !in before;
          assert a[y] == 0;
        }
      }
    }
    if Sorted(t) && c <= b {
      forall y | y in t ensures x <= y {
        assert y in c && y in b && y in after;
      }
    }
  }

  /** Every selection is empty or starts with one of the numbers. */
  lemma StartsComplete(list: seq<seq<int>>, head: seq<int>, numbers: seq<int>)
    requires ListsStarts(list, head, numbers, numbers)
    ensures Lists(list, head, numbers)
  {
    forall r ensures r in list <==> head <= r && Selection(r[|head|..], numbers) {
      if head < r && Selection(r[|head|..], numbers) {
        var t := r[|head|..];
        assert t[0] in multiset(t);
        assert t[0] in multiset(numbers);
      }
      if head <= r && |r| == |head| { assert r == head; }
    }
  }

  /** Appending what one branch lists to what the earlier branches listed. */
  lemma BranchJoins(list: seq<seq<int>>, branch: seq<seq<int>>, head: seq<int>, before: seq<int>, x: int,
                    after: seq<int>)
    requires Sorted(before + [x] + after) && x !in before
    requires ListsStarts(list, head, before + [x] + after, before)
    requires Lists(branch, head + [x], after)
    ensures ListsStarts(list + branch, head, before + [x] + after, before + [x])
  {
    var all := before + [x] + after;
    forall r ensures r in branch <==> Continues(r, head, all, [x]) {
      BranchMember(branch, r, head, before, x, after);
    }
    forall r ensures r in list + branch <==> r == head || Continues(r, head, all, before + [x]) {
      assert Continues(r, head, all, before + [x]) <==> Continues(r, head, all, before) || Continues(r, head, all, [x]);
    }
    AroundFirst(before, x, after);
    forall r, r' | r in list && r' in branch ensures LexLess(r, r') {
      EarlierBranch(r, r', head, all, before, x);
    }
    AscendingJoin(list, branch);
  }

  /** What starts with a lower number, or does not go on, comes before what starts with x. */
  lemma EarlierBranch(r: seq<int>, r': seq<int>, head: seq<int>, numbers: seq<int>, before: seq<int>, x: int)
    requires r == head || Continues(r, head, numbers, before)
    requires Continues(r', head, numbers, [x]) && forall y :: y in before ==> y < x
    ensures LexLess(r, r')
  {
    assert r[..|head|] == head == r'[..|head|];
    LexAt(r, r', |head|);
  }

  lemma BranchMember(branch: seq<seq<int>>, r: seq<int>, head: seq<int>, before: seq<int>, x: int, after: seq<int>)
    requires Sorted(before + [x] + after) && x !in before
    requires Lists(branch, head + [x], after)
    ensures r in branch <==> Continues(r, head, before + [x] + after, [x])
  {
    if head < r && r[|head|] == x {
      var t := r[|head|..];
      assert t == [x] + t[1..];
      AfterFirst(t[1..], before, x, after);
      assert head + [x] <= r && r[|head + [x]|..] == t[1..];
    }
  }

  // ---------- the backtracking ----------

  /** The positions start..idx have been tried. */
  ghost predicate Tried(list: seq<seq<int>>, subset: seq<int>, input: seq<int>, start: nat, idx: nat)
    requires start <= idx <= |input|
  {
    ListsStarts(list, subset, input[start..], input[start..idx])
  }

  lemma TriedSkip(list: seq<seq<int>>, subset: seq<int>, input: seq<int>, start: nat, idx: nat)
    requires start < idx < |input| && input[idx] == input[idx - 1] && Tried(list, subset, input, start, idx)
    ensures Tried(list, subset, input, start, idx + 1)
  {
    var starts, starts' := input[start..idx], input[start..idx + 1];
    assert starts' == starts + [input[idx]] && starts[idx - 1 - start] == input[idx];
    forall r ensures Continues(r, subset, input[start..], starts) <==> Continues(r, subset, input[start..], starts') {}
  }

  lemma TriedBranch(list: seq<seq<int>>, branch: seq<seq<int>>, subset: seq<int>, input: seq<int>, start: nat, idx: nat)
    requires start <= idx < |input| && Sorted(input) && (idx == start || input[idx] != input[idx - 1])
    requires Tried(list, subset, input, start, idx) && Lists(branch, subset + [input[idx]], input[idx + 1..])
    ensures Tried(list + branch, subset, input, start, idx + 1)
  {
    var before, x, after := input[start..idx], input[idx], input[idx + 1..];
    assert input[start..] == before + [x] + after && input[start..idx + 1] == before + [x];
    forall k | 0 <= k < |before| ensures before[k] != x {
      assert before[k] <= input[idx - 1] < x;
    }
    BranchJoins(list, branch, subset, before, x, after);
  }

  lemma TriedNothing(subset: seq<int>, input: seq<int>, start: nat)
    requires start <= |input|
    ensures Tried([subset], subset, input, start, start)
  {
    assert input[start..start] == [];
  }

  lemma TriedAll(list: seq<seq<int>>, subset: seq<int>, input: seq<int>, start: nat)
    requires start <= |input| && Tried(list, subset, input, start, |input|)
    ensures Lists(list, subset, input[start..])
  {
    assert input[start..|input|] == input[start..];
    StartsComplete(list, subset, input[start..]);
  }

  lemma Appended(result: seq<seq<int>>, listed: seq<seq<int>>, branch: seq<seq<int>>, subset: seq<int>, x: int)
    ensures result + listed + branch == result + (listed + branch)
    ensures (subset + [x])[..|subset + [x]| - 1] == subset
  {
  }

  /** Appends to the result. */
  method Backtrack(start: nat, subset: seq<int>, input: seq<int>, result: seq<seq<int>>) returns (out: seq<seq<int>>)
    requires start <= |input| && Sorted(input)
    ensures result <= out && Lists(out[|result|..], subset, input[start..])
    decreases |input| - start
  {
    out := result + [subset];
    var chosen := subset;
    ghost var listed := [subset];
    TriedNothing(subset, input, start);
    for idx := start to |input|
      invariant chosen == subset && out == result + listed && Tried(listed, subset, input, start, idx)
    {
      if idx != start && input[idx] == input[idx - 1] {
        TriedSkip(listed, subset, input, start, idx);
        continue;
      }
      chosen := chosen + [input[idx]];
      out := Backtrack(idx + 1, chosen, input, out);
      ghost var branch := out[|result + listed|..];
      assert out == result + listed + branch;
      TriedBranch(listed, branch, subset, input, start, idx);
      Appended(result, listed, branch, subset, input[idx]);
      listed := listed + branch;
      chosen := chosen[..|chosen| - 1];
    }
    TriedAll(listed, subset, input, start);
  }

  /** Sorts its argument in place; lists every sub-multiset of it exactly once, in lexicographic order. */
  method AllSubsets(input: array<int>) returns (result: seq<seq<int>>)
    modifies input
    ensures Sorted(input[..]) && Rearranged(old(input[..]), input[..])
    ensures ListsAllOnce(result, multiset(old(input[..]))) && Ascending(result)
  {
    HeapSort.Sort(input);
    result := Backtrack(0, [], input[..], []);
    assert input[..][0..] == input[..] && result[0..] == result;
    AllOnce(result, input[..]);
  }

  /** Every sub-multiset of m is the content of exactly one entry, and every entry is sorted and within m. */
  ghost predicate ListsAllOnce(list: seq<seq<int>>, m: multiset<int>) {
    && (forall i :: 0 <= i < |list| ==> Sorted(list[i]) && multiset(list[i]) <= m)
    && (forall i, j :: 0 <= i < j < |list| ==> multiset(list[i]) != multiset(list[j]))
    && (forall s: multiset<int> :: s <= m ==> exists i :: 0 <= i < |list| && multiset(list[i]) == s)
  }

  lemma AllOnce(list: seq<seq<int>>, numbers: seq<int>)
    requires Lists(list, [], numbers)
    ensures ListsAllOnce(list, multiset(numbers))
  {
    AscendingOnce(list);
    forall i | 0 <= i < |list| ensures Selection(list[i], numbers) {
      assert list[i] in list && list[i][0..] == list[i];
    }
    forall i, j | 0 <= i < j < |list| ensures multiset(list[i]) != multiset(list[j]) {
      if multiset(list[i]) == multiset(list[j]) { SortedUnique(list[i], list[j]); }
    }
    forall s: multiset<int> | s <= multiset(numbers) ensures exists i :: 0 <= i < |list| && multiset(list[i]) == s {
      var t := SortedExists(s);
      assert [] <= t && t[0..] == t;
      assert t in list;
    }
  }
}
