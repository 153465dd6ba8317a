/** The least missing positive number, found by putting every value that fits into its own slot. */
module MissingPositive {
  import opened Sequences

  /** v is positive, does not occur in s, and every smaller positive number does. */
  ghost predicate LeastMissing(s: seq<int>, v: int) {
    && v >= 1 && v !in s
    && forall w :: 1 <= w < v ==> w in s
  }

  lemma LeastMissingUnique(s: seq<int>, v: int, w: int)
    requires LeastMissing(s, v) && LeastMissing(s, w)
    ensures v == w
  {
  }

  /** The positions that do not hold the number whose home they are: position k is the home of k + 1. */
  ghost function Misplaced(s: seq<int>): set<int> {
    set k | 0 <= k < |s| && s[k] != k + 1
  }

  /** The value at position k is out of range, or a copy of it is at home. */
  ghost predicate Settled(s: seq<int>, k: nat)
    requires k < |s|
  {
    1 <= s[k] <= |s| ==> s[s[k] - 1] == s[k]
  }

  ghost predicate SettledBelow(s: seq<int>, i: nat)
    requires i <= |s|
  {
    forall k :: 0 <= k < i ==> Settled(s, k)
  }

  /** Sending a value home puts one more number in place and unsettles nothing. */
  lemma SendHome(s: seq<int>, t: seq<int>, i: nat)
    requires i < |s| && SettledBelow(s, i)
    requires 0 < s[i] <= |s| && s[i] != s[s[i] - 1]
    requires t == s[i := s[s[i] - 1]][s[i] - 1 := s[i]]
    ensures Rearranged(s, t) && SettledBelow(t, i) && Misplaced(t) < Misplaced(s)
  {
    var home := s[i] - 1;
    SwapRearranges(s, t, i, home);
    assert home in Misplaced(s) && home !in Misplaced(t);
    forall k | 0 <= k < i ensures Settled(t, k) {
      assert Settled(s, k);
    }
  }

  method Settle(nums: array<int>, i: nat)
    requires i < nums.Length && SettledBelow(nums[..], i)
    modifies nums
    ensures Rearranged(old(nums[..]), nums[..]) && SettledBelow(nums[..], i + 1)
  {
    while nums[i] > 0 && nums[i] <= nums.Length && nums[i] != nums[nums[i] - 1]
      invariant Rearranged(old(nums[..]), nums[..]) && SettledBelow(nums[..], i)
      decreases Misplaced(nums[..])
    {
      ghost var was := nums[..];
      var home := nums[i] - 1;
      nums[i], nums[home] := nums[home], nums[i];
      SendHome(was, nums[..], i);
    }
  }

  /** Works on a copy of its argument. */
  method SmallestMissing(input: seq<int>) returns (v: int)
    ensures LeastMissing(input, v)
  {
    var size := |input|;
    var nums := new int[size](k requires 0 <= k < size => input[k]);
    assert nums[..] == input;
    for i := 0 to size
      invariant Rearranged(input, nums[..]) && SettledBelow(nums[..], i)
    {
      Settle(nums, i);
    }
    ghost var placed := nums[..];
    for i := 0 to size
      invariant nums[..] == placed
      invariant forall k :: 0 <= k < i ==> placed[k] == k + 1
    {
      if nums[i] != i + 1 {
        AllSettled(placed, i);
        SameMembers(placed, input, i + 1);
        return i + 1;
      }
    }
    AllSettled(placed, size);
    SameMembers(placed, input, size + 1);
    v := size + 1;
  }

  /** Once all is settled, the first position without its own number tells the least missing number. */
  lemma AllSettled(s: seq<int>, i: nat)
    requires i <= |s| && SettledBelow(s, |s|)
    requires forall k :: 0 <= k < i ==> s[k] == k + 1
    requires i < |s| ==> s[i] != i + 1
    ensures LeastMissing(s, i + 1)
  {
    forall k | 0 <= k < |s| ensures s[k] != i + 1 {
      assert Settled(s, k);
    }
    forall w | 1 <= w < i + 1 ensures w in s {
      assert s[w - 1] == w;
    }
  }

  lemma SameMembers(s: seq<int>, t: seq<int>, v: int)
    requires Rearranged(s, t) && LeastMissing(s, v)
    ensures LeastMissing(t, v)
  {
    forall w ensures w in s <==> w in t {
      assert w in s <==> w in multiset(s);
      assert w in t <==> w in multiset(t);
    }
  }
}
