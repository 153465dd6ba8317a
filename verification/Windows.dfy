/** Two scans with a left and a right end: the longest subarray with bounded frequencies, and the largest container. */
module Windows {
  import opened Sequences

  // ---------- the longest subarray in which no number occurs more than k times ----------

  ghost predicate Fits(nums: seq<int>, l: nat, r: nat, k: nat)
    requires l <= r <= |nums|
  {
    forall v :: multiset(nums[l..r])[v] <= k
  }

  /** The greatest length of a subarray of nums[..n] that fits. */
  ghost predicate IsLongestFit(nums: seq<int>, n: nat, k: nat, length: nat)
    requires n <= |nums|
  {
    && (exists l, r :: 0 <= l <= r <= n && Fits(nums, l, r, k) && r - l == length)
    && (forall l, r :: 0 <= l <= r <= n && Fits(nums, l, r, k) ==> r - l <= length)
  }

  function Count(m: map<int, nat>, v: int): nat {
    if v in m then m[v] else 0
  }

  /** The dictionary counts what is in the window. */
  ghost predicate Counts(m: map<int, nat>, nums: seq<int>, l: nat, r: nat)
    requires l <= r <= |nums|
  {
    forall v :: Count(m, v) == multiset(nums[l..r])[v]
  }

  lemma WindowGrows(nums: seq<int>, l: nat, r: nat)
    requires l <= r < |nums|
    ensures multiset(nums[l..r + 1]) == multiset(nums[l..r]) + multiset{nums[r]}
  {
    assert nums[l..r + 1] == nums[l..r] + [nums[r]];
  }

  lemma WindowShrinks(nums: seq<int>, l: nat, r: nat)
    requires l < r <= |nums|
    ensures multiset(nums[l..r]) == multiset(nums[l + 1..r]) + multiset{nums[l]}
  {
    assert nums[l..r] == [nums[l]] + nums[l + 1..r];
  }

  /** A subarray of one that fits, fits. */
  lemma FitsInside(nums: seq<int>, l: nat, r: nat, l': nat, r': nat, k: nat)
    requires l <= l' <= r' <= r <= |nums| && Fits(nums, l, r, k)
    ensures Fits(nums, l', r', k)
  {
    assert nums[l..r] == nums[l..l'] + nums[l'..r'] + nums[r'..r];
    forall v ensures multiset(nums[l'..r'])[v] <= k {
      assert multiset(nums[l..r])[v] >= multiset(nums[l'..r'])[v];
    }
  }

  lemma CountsGrow(m: map<int, nat>, nums: seq<int>, l: nat, r: nat)
    requires l <= r < |nums| && Counts(m, nums, l, r)
    ensures Counts(m[nums[r] := Count(m, nums[r]) + 1], nums, l, r + 1)
  {
    WindowGrows(nums, l, r);
  }

  lemma CountsShrink(m: map<int, nat>, nums: seq<int>, l: nat, r: nat)
    requires l < r <= |nums| && Counts(m, nums, l, r)
    ensures Count(m, nums[l]) > 0 && Counts(m[nums[l] := Count(m, nums[l]) - 1], nums, l + 1, r)
  {
    WindowShrinks(nums, l, r);
    var x, m' := nums[l], m[nums[l] := Count(m, nums[l]) - 1];
    forall v ensures Count(m', v) == multiset(nums[l + 1..r])[v] {
      assert Count(m, v) == multiset(nums[l..r])[v];
    }
  }

  /** None of the windows that start in [a, b) and end at r fits. */
  ghost predicate NoneFits(nums: seq<int>, a: nat, b: nat, r: nat, k: nat)
    requires b <= r + 1 && r <= |nums|
  {
    forall l :: a <= l < b ==> !Fits(nums, l, r, k)
  }

  /** Moves the left end up to where the last number of the window, which ends before `end`, fits again. */
  method Shrink(nums: seq<int>, k: nat, left0: nat, end: nat, countMap0: map<int, nat>)
    returns (left: nat, countMap: map<int, nat>, ghost moves: nat)
    requires left0 < end <= |nums| && Counts(countMap0, nums, left0, end)
    requires Fits(nums, left0, end - 1, k)
    ensures left == left0 + moves <= end && Counts(countMap, nums, left, end)
    ensures Fits(nums, left, end, k) && NoneFits(nums, left0, left, end, k)
  {
    left, countMap, moves := left0, countMap0, 0;
    var last := nums[end - 1];
    while Count(countMap, last) > k
      invariant left == left0 + moves <= end && Counts(countMap, nums, left, end)
      invariant NoneFits(nums, left0, left, end, k)
      decreases end - left
    {
      assert multiset(nums[left..end])[last] > k;
      assert left < end by { assert multiset(nums[end..end])[last] == 0; }
      CountsShrink(countMap, nums, left, end);
      countMap := countMap[nums[left] := Count(countMap, nums[left]) - 1];
      left, moves := left + 1, moves + 1;
    }
    OnlyLastMattered(nums, left0, left, end, k);
  }

  lemma OnlyLastMattered(nums: seq<int>, left0: nat, left: nat, end: nat, k: nat)
    requires left0 <= left <= end <= |nums| && left0 < end && Fits(nums, left0, end - 1, k)
    requires multiset(nums[left..end])[nums[end - 1]] <= k
    ensures Fits(nums, left, end, k)
  {
    if left < end {
      WindowGrows(nums, left, end - 1);
      FitsInside(nums, left0, end - 1, left, end - 1, k);
    }
  }

  /** What is known after n numbers: the window that ends here is the widest that fits, and the greatest length so far. */
  ghost predicate Scanned(nums: seq<int>, n: nat, k: nat, left: nat, length: nat) {
    && left <= n <= |nums| && Fits(nums, left, n, k) && NoneFits(nums, 0, left, n, k)
    && IsLongestFit(nums, n, k, length)
  }

  lemma ScanStarts(nums: seq<int>, k: nat)
    ensures Scanned(nums, 0, k, 0, 0)
  {
    assert Fits(nums, 0, 0, k) && 0 - 0 == 0;
  }

  /** The scan; in all, its left end moves no more often than there are numbers. */
  method MaxSubarrayLength(nums: seq<int>, k: nat) returns (maxLength: nat, ghost moves: nat)
    ensures IsLongestFit(nums, |nums|, k, maxLength) && moves <= |nums|
  {
    var countMap: map<int, nat> := map[];
    var left := 0;
    maxLength, moves := 0, 0;
    ScanStarts(nums, k);
    for right := 0 to |nums|
      invariant left == moves && Scanned(nums, right, k, left, maxLength) && Counts(countMap, nums, left, right)
    {
      CountsGrow(countMap, nums, left, right);
      countMap := countMap[nums[right] := Count(countMap, nums[right]) + 1];
      ghost var from, moved := left, 0;
      left, countMap, moved := Shrink(nums, k, left, right + 1, countMap);
      LongestGrows(nums, right, k, maxLength, from, left);
      moves := moves + moved;
      maxLength := if maxLength < right - left + 1 then right - left + 1 else maxLength;
    }
  }

  /** The best window that ends one position further is the one at hand. */
  lemma LongestGrows(nums: seq<int>, n: nat, k: nat, length: nat, from: nat, left: nat)
    requires n < |nums| && Scanned(nums, n, k, from, length) && from <= left <= n + 1
    requires Fits(nums, left, n + 1, k) && NoneFits(nums, from, left, n + 1, k)
    ensures Scanned(nums, n + 1, k, left, if length < n + 1 - left then n + 1 - left else length)
  {
    var n' := n + 1;
    forall l | 0 <= l < left ensures !Fits(nums, l, n', k) {
      if l < from && Fits(nums, l, n', k) { FitsInside(nums, l, n', l, n, k); }
    }
    var l, r :| 0 <= l <= r <= n && Fits(nums, l, r, k) && r - l == length;
    assert Fits(nums, l, r, k) && r - l == length;
  }

  // ---------- the largest container between two heights ----------

  function Area(height: seq<int>, i: nat, j: nat): int
    requires i <= j < |height|
  {
    Min(height[i], height[j]) * (j - i)
  }

  /** Nothing wider starts or ends at the lower of the two ends. */
  lemma LowerEndIsDone(height: seq<int>, left: nat, right: nat, k: nat)
    requires left < right < |height| && left <= k <= right && NonNegative(height)
    ensures height[left] <= height[right] ==> Area(height, left, k) <= Area(height, left, right)
    ensures height[left] >= height[right] ==> Area(height, k, right) <= Area(height, left, right)
  {
    Product(Min(height[left], height[k]), height[left], k - left, right - left);
    Product(Min(height[k], height[right]), height[right], right - k, right - left);
  }

  lemma Product(a: int, b: int, c: int, d: int)
    requires 0 <= a <= b && 0 <= c <= d
    ensures a * c <= b * d
  {
    assert a * c <= b * c <= b * d;
  }

  /** The largest area between two positions; heights are not negative, and there is at least one. */
  method MaxArea(height: seq<int>) returns (max: int)
    requires height != [] && NonNegative(height)
    ensures forall i, j :: 0 <= i <= j < |height| ==> Area(height, i, j) <= max
    ensures exists i, j :: 0 <= i <= j < |height| && Area(height, i, j) == max
  {
    max := 0;
    var left, right := 0, |height| - 1;
    assert Area(height, 0, 0) == 0;
    while left != right
      invariant 0 <= left <= right < |height| && max >= 0
      invariant forall i, j :: 0 <= i <= j < |height| && (i < left || right < j) ==> Area(height, i, j) <= max
      invariant exists i, j :: 0 <= i <= j < |height| && Area(height, i, j) == max
      decreases right - left
    {
      var area := Min(height[left], height[right]) * (right - left);
      assert area == Area(height, left, right);
      max := if max < area then area else max;
      forall k | left <= k <= right
        ensures height[left] <= height[right] ==> Area(height, left, k) <= max
        ensures height[left] > height[right] ==> Area(height, k, right) <= max
      {
        LowerEndIsDone(height, left, right, k);
      }
      if height[left] <= height[right] {
        left := left + 1;
      } else {
        right := right - 1;
      }
    }
    assert forall i :: 0 <= i < |height| ==> Area(height, i, i) == 0;
  }
}
