/** Two ways to find a repeated value among N + 1 numbers drawn from 1..N. */
module FindDuplicate {
  import opened Sequences

  /** N + 1 numbers, each between 1 and N: every value is also a position, and never position 0. */
  ghost predicate Positions(values: seq<int>) {
    values != [] && forall k :: 0 <= k < |values| ==> 1 <= values[k] < |values|
  }

  ghost predicate Repeated(values: seq<int>, v: int) {
    exists i, j :: 0 <= i < j < |values| && values[i] == v == values[j]
  }

  // ---------- tortoise and hare ----------

  /** Where one is after following the values k times from the first value. */
  ghost function Hop(values: seq<int>, k: nat): (x: int)
    requires Positions(values)
    ensures 1 <= x < |values|
  {
    if k == 0 then values[0] else values[Hop(values, k - 1)]
  }

  /** Numbers between 1 and n that are all different are at most n many. */
  lemma {:induction false} DistinctFit(s: seq<int>, n: nat)
    requires forall x :: x in s ==> 1 <= x <= n
    requires forall i, j :: 0 <= i < j < |s| ==> s[i] != s[j]
    ensures |s| <= n
    decreases n
  {
    if s != [] { assert s[0] in s; }
    if n == 0 {
    } else if k :| 0 <= k < |s| && s[k] == n {
      var rest := s[..k] + s[k + 1..];
      forall x | x in rest ensures 1 <= x <= n - 1 {
        var i :| 0 <= i < |rest| && rest[i] == x;
        var j := if i < k then i else i + 1;
        assert x == s[j] && s[j] in s;
        assert j < k || k < j;
        assert s[j] != s[k];
      }
      DistinctFit(rest, n - 1);
    } else {
      DistinctFit(s, n - 1);
    }
  }

  /** The walk must come back to where it has been. */
  lemma WalkRepeats(values: seq<int>) returns (a: nat, b: nat)
    requires Positions(values)
    ensures a < b && Hop(values, a) == Hop(values, b)
  {
    var n := |values|;
    var hops := seq(n, k requires k >= 0 => Hop(values, k));
    if forall i, j :: 0 <= i < j < n ==> hops[i] != hops[j] {
      DistinctFit(hops, n - 1);
    }
    a, b :| 0 <= a < b < n && hops[a] == hops[b];
  }

  lemma {:induction false} SameFuture(values: seq<int>, a: nat, b: nat, k: nat)
    requires Positions(values) && Hop(values, a) == Hop(values, b)
    ensures Hop(values, a + k) == Hop(values, b + k)
  {
    if k > 0 { SameFuture(values, a, b, k - 1); }
  }

  lemma {:induction false} Laps(values: seq<int>, a: nat, lap: nat, m: nat, q: nat)
    requires Positions(values) && Hop(values, a) == Hop(values, a + lap) && a <= m
    ensures Hop(values, m) == Hop(values, m + q * lap)
    decreases q
  {
    if q > 0 {
      Laps(values, a, lap, m, q - 1);
      var m' := m + (q - 1) * lap;
      SameFuture(values, a, a + lap, m' - a);
      assert a + lap + (m' - a) == m + q * lap;
    }
  }

  /** After some number of rounds the hare, at double pace, stands where the tortoise stands. */
  lemma MeetingExists(values: seq<int>) returns (t: nat)
    requires Positions(values)
    ensures t >= 1 && Hop(values, t) == Hop(values, 2 * t)
  {
    var a, b := WalkRepeats(values);
    var lap := b - a;
    t := (a + 1) * lap;
    assert t >= a + 1 by { assert (a + 1) * lap >= (a + 1) * 1; }
    Laps(values, a, lap, t, a + 1);
  }

  /** Two different hops with the same continuation are two positions of one value. */
  lemma HopsMerge(values: seq<int>, i: nat, j: nat)
    requires Positions(values) && Hop(values, i) != Hop(values, j) && Hop(values, i + 1) == Hop(values, j + 1)
    ensures Repeated(values, Hop(values, i + 1))
  {
    var p, q := Hop(values, i), Hop(values, j);
    assert values[p] == values[q];
  }

  method FindByCycle(values: seq<int>) returns (dup: int)
    requires Positions(values)
    ensures Repeated(values, dup)
  {
    ghost var rounds := MeetingExists(values);
    var tortoise, hare := values[0], values[0];
    ghost var i := 0;
    var met := false;
    while !met
      invariant 0 <= i <= rounds && tortoise == Hop(values, i) && hare == Hop(values, 2 * i)
      invariant met ==> i >= 1 && tortoise == hare
      invariant !met ==> i < rounds
      decreases !met, rounds - i
    {
      tortoise := values[tortoise];
      hare := values[values[hare]];
      i := i + 1;
      met := tortoise == hare;
    }
    tortoise := values[0];
    ghost var j := 0;
    while tortoise != hare
      invariant 0 <= j <= i && tortoise == Hop(values, j) && hare == Hop(values, i + j)
      invariant j > 0 ==> Hop(values, j - 1) != Hop(values, i + j - 1)
      decreases i - j
    {
      assert j < i;
      tortoise := values[tortoise];
      hare := values[hare];
      j := j + 1;
    }
    if j > 0 {
      HopsMerge(values, j - 1, i + j - 1);
    } else {
      assert values[0] == values[Hop(values, i - 1)];
    }
    dup := hare;
  }

  // ---------- putting values in their places ----------

  /** The positions that do not hold their own number. */
  ghost function Misplaced(s: seq<int>): set<int> {
    set k | 0 <= k < |s| && s[k] != k
  }

  method FindByPlacement(values: array<int>) returns (dup: int)
    requires Positions(values[..])
    modifies values
    ensures Rearranged(old(values[..]), values[..])
    ensures Repeated(old(values[..]), dup) && dup == values[0] == values[dup]
  {
    while values[0] != values[values[0]]
      invariant Positions(values[..]) && Rearranged(old(values[..]), values[..])
      decreases Misplaced(values[..])
    {
      ghost var was := values[..];
      var v := values[0];
      values[0], values[v] := values[v], values[0];
      SwapRearranges(was, values[..], 0, v);
      assert v in Misplaced(was) && v !in Misplaced(values[..]);
      assert 0 in Misplaced(was);
    }
    dup := values[0];
    RepeatedInRearrangement(values[..], old(values[..]), 0, dup);
  }

  /** Occurring at two positions survives rearrangement. */
  lemma RepeatedInRearrangement(s: seq<int>, t: seq<int>, i: nat, j: nat)
    requires Rearranged(s, t) && i < j < |s| && s[i] == s[j]
    ensures Repeated(t, s[i])
  {
    var v := s[i];
    assert s == s[..i] + [v] + s[i + 1..j] + [v] + s[j + 1..];
    assert multiset(t)[v] >= 2;
    var a := FirstAt(t, v);
    assert t == t[..a] + [v] + t[a + 1..];
    assert multiset(t[..a])[v] == 0;
    var b := FirstAt(t[a + 1..], v);
    assert t[a + 1 + b] == v;
  }

  lemma FirstAt(t: seq<int>, v: int) returns (a: nat)
    requires v in multiset(t)
    ensures a < |t| && t[a] == v && v !in t[..a]
  {
    a := 0;
    while t[a] != v
      invariant a < |t| && v !in t[..a]
      decreases |t| - a
    {
      assert t == t[..a + 1] + t[a + 1..];
      assert t[..a + 1] == t[..a] + [t[a]];
      assert v in t[a + 1..];
      a := a + 1;
    }
  }
}
