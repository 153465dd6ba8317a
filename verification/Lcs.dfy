/** The length of the longest common subsequence, by recursion on the ends of two strings. */
module Lcs {
  import opened Sequences

  function Lcs(x: string, y: string, m: nat, n: nat): nat
    requires m <= |x| && n <= |y|
    decreases m + n
  {
    if m == 0 || n == 0 then 0
    else if x[m - 1] == y[n - 1] then 1 + Lcs(x, y, m - 1, n - 1)
    else Max(Lcs(x, y, m, n - 1), Lcs(x, y, m - 1, n))
  }

  /** Positions below n, in order. */
  ghost predicate Ascending(p: seq<nat>, n: nat) {
    (forall i :: 0 <= i < |p| ==> p[i] < n) && (forall i, j :: 0 <= i < j < |p| ==> p[i] < p[j])
  }

  /** A common subsequence of x[..m] and y[..n], given by where it is in each. */
  ghost predicate Common(x: string, y: string, m: nat, n: nat, p: seq<nat>, q: seq<nat>)
    requires m <= |x| && n <= |y|
  {
    && |p| == |q| && Ascending(p, m) && Ascending(q, n)
    && forall i :: 0 <= i < |p| ==> x[p[i]] == y[q[i]]
  }

  lemma CommonInit(x: string, y: string, m: nat, n: nat, p: seq<nat>, q: seq<nat>)
    requires m <= |x| && n <= |y| && Common(x, y, m, n, p, q) && p != []
    ensures Common(x, y, p[|p| - 1], q[|p| - 1], p[..|p| - 1], q[..|p| - 1])
  {
  }

  lemma CommonWider(x: string, y: string, m: nat, n: nat, p: seq<nat>, q: seq<nat>, m': nat, n': nat)
    requires m <= m' <= |x| && n <= n' <= |y| && Common(x, y, m, n, p, q)
    ensures Common(x, y, m', n', p, q)
  {
  }

  /** No common subsequence is longer. */
  lemma {:induction false} NoneLonger(x: string, y: string, m: nat, n: nat, p: seq<nat>, q: seq<nat>)
    requires m <= |x| && n <= |y| && Common(x, y, m, n, p, q)
    ensures |p| <= Lcs(x, y, m, n)
    decreases m + n
  {
    if p != [] {
      var i, j := p[|p| - 1], q[|p| - 1];
      if x[m - 1] == y[n - 1] {
        CommonInit(x, y, m, n, p, q);
        CommonWider(x, y, i, j, p[..|p| - 1], q[..|p| - 1], m - 1, n - 1);
        NoneLonger(x, y, m - 1, n - 1, p[..|p| - 1], q[..|p| - 1]);
      } else if i < m - 1 {
        assert Ascending(p, m - 1) by {
          forall k | 0 <= k < |p| ensures p[k] < m - 1 { if k < |p| - 1 { assert p[k] < p[|p| - 1]; } }
        }
        NoneLonger(x, y, m - 1, n, p, q);
      } else {
        assert x[i] == y[j];
        assert Ascending(q, n - 1) by {
          forall k | 0 <= k < |q| ensures q[k] < n - 1 { if k < |q| - 1 { assert q[k] < q[|q| - 1]; } }
        }
        NoneLonger(x, y, m, n - 1, p, q);
      }
    }
  }

  /** And one is as long. */
  lemma {:induction false} OneAsLong(x: string, y: string, m: nat, n: nat) returns (p: seq<nat>, q: seq<nat>)
    requires m <= |x| && n <= |y|
    ensures Common(x, y, m, n, p, q) && |p| == Lcs(x, y, m, n)
    decreases m + n
  {
    if m == 0 || n == 0 {
      p, q := [], [];
    } else if x[m - 1] == y[n - 1] {
      p, q := OneAsLong(x, y, m - 1, n - 1);
      p, q := p + [m - 1], q + [n - 1];
    } else if Lcs(x, y, m - 1, n) <= Lcs(x, y, m, n - 1) {
      p, q := OneAsLong(x, y, m, n - 1);
      CommonWider(x, y, m, n - 1, p, q, m, n);
    } else {
      p, q := OneAsLong(x, y, m - 1, n);
      CommonWider(x, y, m - 1, n, p, q, m, n);
    }
  }

  /** The number is the greatest length of a common subsequence of the two strings. */
  lemma LcsIsGreatest(x: string, y: string, length: nat)
    ensures length == Lcs(x, y, |x|, |y|) <==>
      && (exists p, q :: Common(x, y, |x|, |y|, p, q) && |p| == length)
      && (forall p, q :: Common(x, y, |x|, |y|, p, q) ==> |p| <= length)
  {
    var p, q := OneAsLong(x, y, |x|, |y|);
    forall p, q | Common(x, y, |x|, |y|, p, q) ensures |p| <= Lcs(x, y, |x|, |y|) {
      NoneLonger(x, y, |x|, |y|, p, q);
    }
  }
}
