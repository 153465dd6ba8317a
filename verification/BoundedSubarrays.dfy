/** Counting, in one pass, the contiguous subarrays with a given minimum and a given maximum. */
module BoundedSubarrays {
  import opened Sequences

  ghost predicate IsMinimum(s: seq<int>, m: int) {
    m in s && forall x :: x in s ==> m <= x
  }

  ghost predicate IsMaximum(s: seq<int>, m: int) {
    m in s && forall x :: x in s ==> x <= m
  }

  /** nums[l..r + 1] has minimum lo and maximum hi. */
  ghost predicate Bounded(nums: seq<int>, lo: int, hi: int, l: int, r: int) {
    0 <= l <= r < |nums| && IsMinimum(nums[l..r + 1], lo) && IsMaximum(nums[l..r + 1], hi)
  }

  /** All such subarrays, each given by its two ends, that end before position n. */
  ghost function AllBounded(nums: seq<int>, lo: int, hi: int, n: nat): set<(int, int)> {
    Pairs((l, r) => Bounded(nums, lo, hi, l, r), n)
  }

  ghost function Pairs(p: (int, int) -> bool, n: nat): set<(int, int)> {
    set l, r | 0 <= l < n && 0 <= r < n && p(l, r) :: (l, r)
  }

  /** The last position before n with value v, or -1. */
  ghost predicate LastAt(nums: seq<int>, v: int, n: nat, p: int)
    requires n <= |nums|
  {
    && -1 <= p < n && (p >= 0 ==> nums[p] == v)
    && forall k :: p < k < n ==> nums[k] != v
  }

  ghost predicate Outside(x: int, lo: int, hi: int) {
    x < lo || x > hi
  }

  /** The last position before n with a value out of bounds, or -1. */
  ghost predicate LastOutside(nums: seq<int>, lo: int, hi: int, n: nat, p: int)
    requires n <= |nums|
  {
    && -1 <= p < n && (p >= 0 ==> Outside(nums[p], lo, hi))
    && forall k :: p < k < n ==> !Outside(nums[k], lo, hi)
  }

  /** A subarray ending at r counts exactly if it starts after the last blocker and not after either last bound. */
  lemma BoundedByStarts(nums: seq<int>, lo: int, hi: int, r: nat, atMin: int, atMax: int, blocker: int, l: int)
    requires r < |nums|
    requires LastAt(nums, lo, r + 1, atMin) && LastAt(nums, hi, r + 1, atMax) && LastOutside(nums, lo, hi, r + 1, blocker)
    ensures Bounded(nums, lo, hi, l, r) <==> blocker < l <= Min(atMin, atMax)
  {
    if 0 <= l <= r {
      var s := nums[l..r + 1];
      if blocker < l <= Min(atMin, atMax) {
        assert s[atMin - l] == lo && s[atMax - l] == hi;
        forall x | x in s ensures lo <= x <= hi {
          var k :| 0 <= k < |s| && s[k] == x;
          assert !Outside(nums[l + k], lo, hi);
        }
      }
      if IsMinimum(s, lo) && IsMaximum(s, hi) {
        var i :| 0 <= i < |s| && s[i] == lo;
        var j :| 0 <= j < |s| && s[j] == hi;
        assert nums[l + i] == lo && nums[l + j] == hi;
        forall k | l <= k <= r ensures !Outside(nums[k], lo, hi) {
          assert nums[k] == s[k - l] && s[k - l] in s;
        }
      }
    }
  }

  /** The starts in (a, b], paired with the end r. */
  ghost function Run(a: int, b: int, r: int): set<(int, int)> {
    set l | a < l <= b :: (l, r)
  }

  lemma {:induction false} RunSize(a: int, b: int, r: int)
    ensures |Run(a, b, r)| == Max(0, b - a)
    decreases b - a
  {
    if a < b {
      RunSize(a, b - 1, r);
      assert Run(a, b, r) == Run(a, b - 1, r) + {(b, r)};
    } else {
      assert Run(a, b, r) == {};
    }
  }

  /** One more end r adds one pair for each start it has. */
  lemma PairsGrow(p: (int, int) -> bool, r: nat, a: int, b: int)
    requires forall l, r' :: p(l, r') ==> 0 <= l <= r'
    requires forall l :: p(l, r) <==> a < l <= b
    ensures |Pairs(p, r + 1)| == |Pairs(p, r)| + Max(0, b - a)
  {
    var before, run := Pairs(p, r), Run(a, b, r);
    forall l, q ensures (l, q) in Pairs(p, r + 1) <==> (l, q) in before || (l, q) in run {
      if q == r { assert p(l, r) <==> a < l <= b; }
      if p(l, q) { assert 0 <= l <= q; }
    }
    assert Pairs(p, r + 1) == before + run;
    assert before !! run;
    RunSize(a, b, r);
  }

  lemma OneMore(nums: seq<int>, lo: int, hi: int, r: nat, atMin: int, atMax: int, blocker: int)
    requires r < |nums|
    requires LastAt(nums, lo, r + 1, atMin) && LastAt(nums, hi, r + 1, atMax) && LastOutside(nums, lo, hi, r + 1, blocker)
    ensures |AllBounded(nums, lo, hi, r + 1)| == |AllBounded(nums, lo, hi, r)| + Max(0, Min(atMin, atMax) - blocker)
  {
    forall l ensures Bounded(nums, lo, hi, l, r) <==> blocker < l <= Min(atMin, atMax) {
      BoundedByStarts(nums, lo, hi, r, atMin, atMax, blocker, l);
    }
    PairsGrow((l, r) => Bounded(nums, lo, hi, l, r), r, blocker, Min(atMin, atMax));
  }

  /** No subarray that ends in a value out of bounds counts. */
  lemma NoneMore(nums: seq<int>, lo: int, hi: int, r: nat)
    requires r < |nums| && Outside(nums[r], lo, hi)
    ensures AllBounded(nums, lo, hi, r + 1) == AllBounded(nums, lo, hi, r)
  {
    forall l ensures !Bounded(nums, lo, hi, l, r) {
      if 0 <= l <= r {
        assert nums[l..r + 1][r - l] == nums[r] && nums[r] in nums[l..r + 1];
      }
    }
    PairsSame((l, r) => Bounded(nums, lo, hi, l, r), r);
  }

  lemma PairsSame(p: (int, int) -> bool, r: nat)
    requires forall l, r' :: p(l, r') ==> 0 <= l <= r'
    requires forall l :: !p(l, r)
    ensures Pairs(p, r + 1) == Pairs(p, r)
  {
  }

  method BoundedSubArrays(nums: seq<int>, min: int, max: int) returns (count: int)
    ensures count == |AllBounded(nums, min, max, |nums|)|
  {
    count := 0;
    var rightmostMin, rightmostMax, rightmostBlocker := -1, -1, -1;
    assert AllBounded(nums, min, max, 0) == {};
    for i := 0 to |nums|
      invariant count == |AllBounded(nums, min, max, i)|
      invariant LastOutside(nums, min, max, i, rightmostBlocker)
      invariant min <= max ==> LastAt(nums, min, i, rightmostMin) && LastAt(nums, max, i, rightmostMax)
    {
      if nums[i] < min || nums[i] > max {
        NoneMore(nums, min, max, i);
        rightmostBlocker := i;
        continue;
      }
      if nums[i] == min { rightmostMin := i; }
      if nums[i] == max { rightmostMax := i; }
      OneMore(nums, min, max, i, rightmostMin, rightmostMax, rightmostBlocker);
      var subarrays := Min(rightmostMin, rightmostMax) - rightmostBlocker;
      count := count + Max(0, subarrays);
    }
  }
}
