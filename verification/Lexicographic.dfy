/** The order of vectors, and lists in that order. */
module Lexicographic {
  import opened Sequences

  /** Lexicographic order, the order of std::set<std::vector<int>>. */
  predicate LexLess(a: seq<int>, b: seq<int>) {
    if b == [] then false
    else if a == [] then true
    else a[0] < b[0] || (a[0] == b[0] && LexLess(a[1..], b[1..]))
  }

  lemma {:induction false} LexTotal(a: seq<int>, b: seq<int>)
    ensures a == b || LexLess(a, b) || LexLess(b, a)
    decreases |a|
  {
    if a != [] && b != [] && a[0] == b[0] {
      LexTotal(a[1..], b[1..]);
      assert a == [a[0]] + a[1..] && b == [b[0]] + b[1..];
    }
  }

  lemma {:induction false} LexTransitive(a: seq<int>, b: seq<int>, c: seq<int>)
    requires LexLess(a, b) && LexLess(b, c)
    ensures LexLess(a, c)
    decreases |a|
  {
    if a != [] && a[0] == b[0] == c[0] { LexTransitive(a[1..], b[1..], c[1..]); }
  }

  lemma {:induction false} LexIrreflexive(a: seq<int>)
    ensures !LexLess(a, a)
    decreases |a|
  {
    if a != [] { LexIrreflexive(a[1..]); }
  }

  ghost predicate InPlaces(list: seq<seq<int>>, i: nat, j: nat)
    requires i < |list| && j < |list|
  {
    LexLess(list[i], list[j])
  }

  ghost predicate Ascending(list: seq<seq<int>>) {
    forall i: nat, j: nat :: i < j < |list| ==> InPlaces(list, i, j)
  }

  /** Two ascending lists, of which all of the first comes before all of the second. */
  lemma AscendingJoin(a: seq<seq<int>>, b: seq<seq<int>>)
    requires Ascending(a) && Ascending(b) && forall x, y :: x in a && y in b ==> LexLess(x, y)
    ensures Ascending(a + b)
  {
    forall i: nat, j: nat | i < j < |a + b| ensures InPlaces(a + b, i, j) {
      if j < |a| {
        assert InPlaces(a, i, j);
      } else if i >= |a| {
        assert InPlaces(b, i - |a|, j - |a|);
      } else {
        assert a[i] in a && b[j - |a|] in b;
      }
    }
  }

  lemma AscendingSlice(list: seq<seq<int>>, i: nat, j: nat)
    requires Ascending(list) && i <= j <= |list|
    ensures Ascending(list[i..j])
  {
    forall k: nat, l: nat | k < l < j - i ensures InPlaces(list[i..j], k, l) { assert InPlaces(list, i + k, i + l); }
  }

  /** Ascending lists repeat nothing. */
  lemma AscendingOnce(list: seq<seq<int>>)
    requires Ascending(list)
    ensures Once(list)
  {
    forall i, j | 0 <= i < j < |list| ensures list[i] != list[j] {
      assert InPlaces(list, i, j);
      LexIrreflexive(list[i]);
    }
  }

  /** At n, b goes on and a either ends or has a lower value, after the same beginning. */
  ghost predicate LessAt(a: seq<int>, b: seq<int>, n: nat) {
    n <= |a| && n < |b| && a[..n] == b[..n] && (n == |a| || a[n] < b[n])
  }

  lemma {:induction false} LexAt(a: seq<int>, b: seq<int>, n: nat)
    requires LessAt(a, b, n)
    ensures LexLess(a, b)
    decreases n
  {
    if n > 0 {
      assert a[0] == a[..n][0] == b[..n][0] == b[0];
      assert a[1..][..n - 1] == a[..n][1..] && b[1..][..n - 1] == b[..n][1..];
      LexAt(a[1..], b[1..], n - 1);
    }
  }

  lemma {:induction false} LexWhere(a: seq<int>, b: seq<int>) returns (n: nat)
    requires LexLess(a, b)
    ensures LessAt(a, b, n)
    decreases |a|
  {
    if a == [] || a[0] < b[0] {
      n := 0;
    } else {
      n := LexWhere(a[1..], b[1..]);
      assert a[..n + 1] == [a[0]] + a[1..][..n] && b[..n + 1] == [b[0]] + b[1..][..n];
      n := n + 1;
    }
  }

  /** One vector is less than another exactly if there is such a place. */
  lemma LexMeans(a: seq<int>, b: seq<int>)
    ensures LexLess(a, b) <==> exists n :: LessAt(a, b, n)
  {
    if LexLess(a, b) { var n := LexWhere(a, b); }
    if n: nat :| LessAt(a, b, n) { LexAt(a, b, n); }
  }
}
