/** Whether numbers can be split into two parts of equal sum, decided by a table of reachable sums updated in place. */
module CanPartition {
  import opened Sequences

  ghost function Sum(s: seq<int>): int {
    if s == [] then 0 else Sum(s[..|s| - 1]) + s[|s| - 1]
  }

  /** The sum over the chosen positions. */
  ghost function SumOver(s: seq<int>, chosen: set<nat>): int {
    if s == [] then 0 else
      SumOver(s[..|s| - 1], chosen) + if |s| - 1 in chosen then s[|s| - 1] else 0
  }

  /** Some choice of positions, each used at most once, sums to t. */
  ghost predicate Reachable(s: seq<int>, t: int) {
    exists chosen: set<nat> :: SumOver(s, chosen) == t
  }

  lemma {:induction false} SumOverLocal(s: seq<int>, chosen: set<nat>, more: set<nat>)
    requires forall p :: p in more ==> p >= |s|
    ensures SumOver(s, chosen + more) == SumOver(s, chosen) == SumOver(s, chosen - more)
  {
    if s != [] { SumOverLocal(s[..|s| - 1], chosen, more); }
  }

  lemma ReachableNothing(t: int)
    ensures Reachable([], t) <==> t == 0
  {
    assert SumOver([], {}) == 0;
  }

  /** One more number makes reachable what was reachable before and what was reachable without it. */
  lemma ReachableMore(s: seq<int>, v: int, t: int)
    ensures Reachable(s + [v], t) <==> Reachable(s, t) || Reachable(s, t - v)
  {
    var u := s + [v];
    assert u[..|s|] == s;
    if chosen: set<nat> :| SumOver(u, chosen) == t {
      assert SumOver(u, chosen) == SumOver(s, chosen) + if |s| in chosen then v else 0;
    }
    if chosen: set<nat> :| SumOver(s, chosen) == t {
      SumOverLocal(s, chosen, {|s|});
      assert SumOver(u, chosen - {|s|}) == t;
    }
    if chosen: set<nat> :| SumOver(s, chosen) == t - v {
      SumOverLocal(s, chosen, {|s|});
      assert SumOver(u, chosen + {|s|}) == t;
    }
  }

  lemma {:induction false} SumOverNonNegative(s: seq<int>, chosen: set<nat>)
    requires NonNegative(s)
    ensures 0 <= SumOver(s, chosen) <= Sum(s)
  {
    if s != [] { SumOverNonNegative(s[..|s| - 1], chosen); }
  }

  /** The table says, up to index top, which sums are reachable from s. */
  ghost predicate Tells(dp: seq<bool>, lo: nat, hi: nat, s: seq<int>)
    requires hi <= |dp|
  {
    forall j :: lo <= j < hi ==> (dp[j] <==> Reachable(s, j))
  }

  /** Running down the table means that what is read is still about the numbers before this one. */
  method AddNumber(dp: array<bool>, ghost s: seq<int>, num: nat)
    requires NonNegative(s) && Tells(dp[..], 0, dp.Length, s)
    modifies dp
    ensures Tells(dp[..], 0, dp.Length, s + [num])
  {
    var j := dp.Length - 1;
    while j >= num
      invariant -1 <= j < dp.Length && (dp.Length > num ==> j >= num - 1)
      invariant Tells(dp[..], 0, j + 1, s)
      invariant Tells(dp[..], j + 1, dp.Length, s + [num])
    {
      ReachableMore(s, num, j);
      dp[j] := dp[j] || dp[j - num];
      j := j - 1;
    }
    forall t | 0 <= t < j + 1 ensures dp[..][t] <==> Reachable(s + [num], t) {
      ReachableMore(s, num, t);
      BelowZero(s, t - num);
    }
  }

  lemma BelowZero(s: seq<int>, t: int)
    requires NonNegative(s)
    ensures t < 0 ==> !Reachable(s, t)
  {
    if chosen: set<nat> :| SumOver(s, chosen) == t {
      SumOverNonNegative(s, chosen);
    }
  }

  method Total(nums: seq<int>) returns (total: int)
    ensures total == Sum(nums)
  {
    total := 0;
    for i := 0 to |nums|
      invariant total == Sum(nums[..i])
    {
      assert nums[..i + 1][..i] == nums[..i];
      total := total + nums[i];
    }
    assert nums[..|nums|] == nums;
  }

  function PositionsBelow(n: nat): (all: set<nat>)
    ensures forall k: nat :: k in all <==> k < n
  {
    if n == 0 then {} else PositionsBelow(n - 1) + {n - 1}
  }

  /** The chosen positions and the others have the same sum. */
  ghost predicate Splits(s: seq<int>, chosen: set<nat>) {
    SumOver(s, chosen) == SumOver(s, PositionsBelow(|s|) - chosen)
  }

  lemma {:induction false} SumOverRest(s: seq<int>, chosen: set<nat>, all: set<nat>)
    requires PositionsBelow(|s|) <= all
    ensures SumOver(s, chosen) + SumOver(s, all - chosen) == Sum(s)
  {
    if s != [] { SumOverRest(s[..|s| - 1], chosen, all); }
  }

  /** Equal parts exist exactly if the total is even and half of it is reachable. */
  lemma SplitsExist(s: seq<int>)
    ensures (exists chosen: set<nat> :: Splits(s, chosen)) <==> Sum(s) % 2 == 0 && Reachable(s, Sum(s) / 2)
  {
    if chosen: set<nat> :| Splits(s, chosen) {
      SumOverRest(s, chosen, PositionsBelow(|s|));
    }
    if chosen: set<nat> :| 2 * SumOver(s, chosen) == Sum(s) {
      SumOverRest(s, chosen, PositionsBelow(|s|));
      assert Splits(s, chosen);
    }
  }

  /** The answer is yes exactly if the positions can be split into two parts of equal sum. */
  method CanPartition(nums: seq<int>) returns (yes: bool)
    requires NonNegative(nums)
    ensures yes <==> exists chosen: set<nat> :: Splits(nums, chosen)
  {
    SplitsExist(nums);
    SumOverNonNegative(nums, {});
    var total := Total(nums);
    if total % 2 == 1 {
      return false;
    }
    var target := total / 2;
    var dp := new bool[target + 1](_ => false);
    dp[0] := true;
    forall j | 0 <= j < dp.Length ensures dp[..][j] <==> Reachable([], j) {
      ReachableNothing(j);
    }
    for i := 0 to |nums|
      invariant Tells(dp[..], 0, dp.Length, nums[..i])
    {
      assert nums[..i + 1] == nums[..i] + [nums[i]];
      AddNumber(dp, nums[..i], nums[i]);
    }
    assert nums[..|nums|] == nums;
    yes := dp[target];
    assert dp[..][target] == dp[target];
  }
}
