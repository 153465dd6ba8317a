/** Three in-place quick sorts over a range of an array. */
module QuickSort {
  import opened Sequences

  // ---------- reordering a range ----------

  /** t is s with the elements of s[lo..hi] reordered among themselves. */
  ghost predicate Reordered(s: seq<int>, t: seq<int>, lo: int, hi: int) {
    && 0 <= lo <= hi <= |s| == |t|
    && t[..lo] == s[..lo] && t[hi..] == s[hi..]
    && Rearranged(s[lo..hi], t[lo..hi])
  }

  /** Reordering part of a range reorders the range. */
  lemma ReorderedWider(s: seq<int>, t: seq<int>, lo: int, hi: int, a: int, b: int)
    requires Reordered(s, t, a, b) && 0 <= lo <= a && b <= hi <= |s|
    ensures Reordered(s, t, lo, hi)
  {
    assert s[lo..hi] == s[..a][lo..] + s[a..b] + s[b..][..hi - b];
    assert t[lo..hi] == t[..a][lo..] + t[a..b] + t[b..][..hi - b];
    assert t[..lo] == t[..a][..lo] && s[..lo] == s[..a][..lo];
    assert t[hi..] == t[b..][hi - b..] && s[hi..] == s[b..][hi - b..];
  }

  lemma ReorderedTrans(s: seq<int>, t: seq<int>, u: seq<int>, lo: int, hi: int)
    requires Reordered(s, t, lo, hi) && Reordered(t, u, lo, hi)
    ensures Reordered(s, u, lo, hi)
  {
  }

  /** Reordering a range, then two parts of it one after the other, reorders the range. */
  lemma ReorderedInParts(r: seq<int>, s: seq<int>, t: seq<int>, u: seq<int>, lo: int, hi: int, a: int, b: int, c: int,
                         d: int)
    requires Reordered(r, s, lo, hi) && Reordered(s, t, a, b) && Reordered(t, u, c, d)
    requires lo <= a && b <= hi && lo <= c && d <= hi
    ensures Reordered(r, u, lo, hi)
  {
    ReorderedWider(s, t, lo, hi, a, b);
    ReorderedWider(t, u, lo, hi, c, d);
    ReorderedTrans(r, s, t, lo, hi);
    ReorderedTrans(r, t, u, lo, hi);
  }

  lemma SwapReorders(s: seq<int>, t: seq<int>, i: int, j: int, lo: int, hi: int)
    requires 0 <= lo <= i < hi <= |s| && lo <= j < hi
    requires t == s[i := s[j]][j := s[i]]
    ensures Reordered(s, t, lo, hi)
  {
    SwapRearrangesSlice(s, t, i, j, lo, hi);
    assert t[..lo] == s[..lo] && t[hi..] == s[hi..];
  }

  /** Position k of a reordered range holds a value from some position of that range. */
  lemma ReorderedFrom(s: seq<int>, t: seq<int>, lo: int, hi: int, k: int) returns (i: int)
    requires Reordered(s, t, lo, hi) && lo <= k < hi
    ensures lo <= i < hi && s[i] == t[k]
  {
    assert t[k] == t[lo..hi][k - lo];
    assert t[k] in multiset(t[lo..hi]);
    assert t[k] in s[lo..hi];
    i :| 0 <= i < hi - lo && s[lo..hi][i] == t[k];
    i := i + lo;
  }

  lemma ReorderedOutside(s: seq<int>, t: seq<int>, lo: int, hi: int, k: int)
    requires Reordered(s, t, lo, hi) && (0 <= k < lo || hi <= k < |s|)
    ensures t[k] == s[k]
  {
    if k < lo { assert t[..lo][k] == s[..lo][k]; } else { assert t[hi..][k - hi] == s[hi..][k - hi]; }
  }

  ghost predicate SortedRange(s: seq<int>, lo: int, hi: int) {
    0 <= lo <= hi <= |s| && forall i, j :: lo <= i < j < hi ==> s[i] <= s[j]
  }

  /** t is s with the elements of s[lo..hi] put in order among themselves. */
  ghost predicate Sorts(s: seq<int>, t: seq<int>, lo: int, hi: int) {
    Reordered(s, t, lo, hi) && SortedRange(t, lo, hi)
  }

  /** Sorting the whole range is sorting the array. */
  lemma SortsWhole(s: seq<int>, t: seq<int>)
    requires Sorts(s, t, 0, |s|)
    ensures Sorted(t) && Rearranged(s, t)
  {
    assert s[0..|s|] == s && t[0..|s|] == t;
  }

  /** What a recursive call does that is made only for two positions or more. */
  ghost predicate SortsIfLong(s: seq<int>, t: seq<int>, lo: int, hi: int) {
    if lo + 1 < hi then Sorts(s, t, lo, hi) else t == s
  }

  lemma SortsAnyway(s: seq<int>, t: seq<int>, lo: int, hi: int)
    requires 0 <= lo <= hi <= |s| && SortsIfLong(s, t, lo, hi)
    ensures Sorts(s, t, lo, hi)
  {
  }

  /** Nothing in s[lo..mid] exceeds anything in s[mid..hi]. */
  ghost predicate Separated(s: seq<int>, lo: int, mid: int, hi: int) {
    0 <= lo <= mid <= hi <= |s| && forall i, j :: lo <= i < mid <= j < hi ==> s[i] <= s[j]
  }

  /** Sorting the lower part of a separated range whose upper part is sorted sorts the range. */
  lemma SortLower(s: seq<int>, t: seq<int>, lo: int, mid: int, hi: int)
    requires Separated(s, lo, mid, hi) && SortedRange(s, mid, hi)
    requires Reordered(s, t, lo, mid) && SortedRange(t, lo, mid)
    ensures SortedRange(t, lo, hi)
  {
    forall i, j | lo <= i < j < hi ensures t[i] <= t[j] {
      if j >= mid {
        ReorderedOutside(s, t, lo, mid, j);
        if i < mid {
          var i' := ReorderedFrom(s, t, lo, mid, i);
        } else {
          ReorderedOutside(s, t, lo, mid, i);
        }
      }
    }
  }

  // ---------- the scans of the crossing partitions ----------

  /** What was passed from the left is at most x, what was passed from the right at least x. */
  ghost predicate Passed(s: seq<int>, start: int, end: int, x: int, left: int, right: int) {
    && 0 <= start <= left <= end + 1 && start - 1 <= right <= end < |s|
    && (forall k :: start <= k < left ==> s[k] <= x)
    && (forall k :: right < k <= end ==> s[k] >= x)
  }

  /** Either nothing was passed yet and x is there, or both ends have been passed: the scans have something to stop at. */
  ghost predicate Guarded(s: seq<int>, start: int, end: int, x: int, left: int, right: int, pivot: int)
    requires Passed(s, start, end, x, left, right)
  {
    || (left == start && right == end && start <= pivot <= end && s[pivot] == x)
    || (start < left && right < end)
  }

  /** The exchange after both scans have stopped lets both pass one position more. */
  lemma PassedExchange(s: seq<int>, t: seq<int>, start: int, end: int, x: int, left: int, right: int)
    requires Passed(s, start, end, x, left, right) && start <= left <= right <= end && s[left] >= x && s[right] <= x
    requires if s[left] > s[right] then t == s[left := s[right]][right := s[left]] else t == s
    ensures Reordered(s, t, start, end + 1) && Passed(t, start, end, x, left + 1, right - 1)
  {
    if s[left] > s[right] { SwapReorders(s, t, left, right, start, end + 1); }
  }

  /** One round: both scans, which check no bounds, and the exchange. */
  method ScanAndSwap(data: array<int>, start: int, end: int, x: int, left0: int, right0: int, ghost pivot: int)
    returns (left: int, right: int)
    requires Passed(data[..], start, end, x, left0, right0) && left0 <= right0
    requires Guarded(data[..], start, end, x, left0, right0, pivot)
    modifies data
    ensures Reordered(old(data[..]), data[..], start, end + 1)
    ensures Passed(data[..], start, end, x, left, right) && start < left && right < end
    ensures right - left < right0 - left0
  {
    ghost var was := data[..];
    left, right := left0, right0;
    ghost var first := !(start < left0 && right0 < end);
    while data[left] < x
      invariant left0 <= left <= end && Passed(was, start, end, x, left, right0)
      invariant if first then left <= pivot else left <= right0 + 1
      decreases end - left
    {
      left := left + 1;
    }
    while data[right] > x
      invariant start <= right <= right0 && Passed(was, start, end, x, left, right)
      invariant if first then left <= pivot <= right else left - 1 <= right
      decreases right
    {
      right := right - 1;
    }
    if left <= right {
      if data[left] > data[right] {
        data[left], data[right] := data[right], data[left];
      }
      PassedExchange(was, data[..], start, end, x, left, right);
      left := left + 1;
      right := right - 1;
    }
  }

  // ---------- QSort ----------

  /** The loop of QSort: rounds until the scans have crossed. */
  method CrossingPartition(data: array<int>, start: int, end: int) returns (left: int, right: int, ghost x: int)
    requires 0 <= start <= end < data.Length
    modifies data
    ensures Reordered(old(data[..]), data[..], start, end + 1)
    ensures Passed(data[..], start, end, x, left, right) && start < left && right < left && right < end
  {
    left, right := start, end;
    var pivot := (start + end) / 2;
    var element := data[pivot];
    x := element;
    ghost var given := data[..];
    left, right := ScanAndSwap(data, start, end, element, left, right, pivot);
    while left <= right
      invariant Reordered(given, data[..], start, end + 1)
      invariant Passed(data[..], start, end, x, left, right) && start < left && right < end
      decreases right - left
    {
      ghost var was := data[..];
      left, right := ScanAndSwap(data, start, end, element, left, right, pivot);
      ReorderedTrans(given, was, data[..], start, end + 1);
    }
  }

  /** After crossing, sorting the right part leaves the left part separated from a sorted rest. */
  lemma CrossedSortUpper(s: seq<int>, t: seq<int>, start: int, end: int, x: int, left: int, right: int)
    requires Passed(s, start, end, x, left, right) && right < left
    requires Reordered(s, t, left, end + 1) && SortedRange(t, left, end + 1)
    ensures Separated(t, start, right + 1, end + 1) && SortedRange(t, right + 1, end + 1)
  {
    forall k | start <= k <= end
      ensures (k <= right ==> t[k] <= x) && (k < left ==> t[k] == s[k]) && (k > right ==> t[k] >= x)
    {
      if k < left {
        ReorderedOutside(s, t, left, end + 1, k);
      } else {
        var i := ReorderedFrom(s, t, left, end + 1, k);
      }
    }
  }

  /** What the recursive calls have done, from the partitioned range to the sorted one. */
  lemma CrossedSorts(given: seq<int>, parted: seq<int>, upper: seq<int>, t: seq<int>, start: int, end: int,
                     x: int, left: int, right: int)
    requires Reordered(given, parted, start, end + 1) && Passed(parted, start, end, x, left, right)
    requires start < left && right < left && right < end
    requires SortsIfLong(parted, upper, left, end + 1)
    requires SortsIfLong(upper, t, start, right + 1)
    ensures Sorts(given, t, start, end + 1)
  {
    SortsAnyway(parted, upper, left, end + 1);
    SortsAnyway(upper, t, start, right + 1);
    CrossedThenSorted(given, parted, upper, t, start, end, x, left, right);
  }

  lemma CrossedThenSorted(given: seq<int>, parted: seq<int>, upper: seq<int>, t: seq<int>, start: int, end: int,
                          x: int, left: int, right: int)
    requires Reordered(given, parted, start, end + 1) && Passed(parted, start, end, x, left, right)
    requires start < left && right < left && right < end
    requires Sorts(parted, upper, left, end + 1) && Sorts(upper, t, start, right + 1)
    ensures Sorts(given, t, start, end + 1)
  {
    CrossedSortUpper(parted, upper, start, end, x, left, right);
    SortLower(upper, t, start, right + 1, end + 1);
    ReorderedInParts(given, parted, upper, t, start, end + 1, left, end + 1, start, right + 1);
  }

  method QSort(data: array<int>, start: int, end: int)
    requires 0 <= start <= end < data.Length
    modifies data
    ensures Sorts(old(data[..]), data[..], start, end + 1)
    decreases end - start
  {
    ghost var given := data[..];
    ghost var x: int;
    var left, right;
    left, right, x := CrossingPartition(data, start, end);
    ghost var parted := data[..];
    if left < end {
      QSort(data, left, end);
    }
    ghost var upper := data[..];
    if start < right {
      QSort(data, start, right);
    }
    CrossedSorts(given, parted, upper, data[..], start, end, x, left, right);
  }

  // ---------- Quick_Sort ----------

  /** The loop of Quick_Sort: it also stops when the scans meet, with the element they meet at not compared. */
  method MeetingPartition(data: array<int>, start: int, end: int) returns (left: int, right: int, ghost x: int)
    requires 0 <= start <= end < data.Length
    modifies data
    ensures Reordered(old(data[..]), data[..], start, end + 1)
    ensures Passed(data[..], start, end, x, left, right) && right <= left
    ensures start < end ==> start < left && right < end
    ensures start == end ==> left == right == start
  {
    var pivot := (start + end) / 2;
    var element := data[pivot];
    left, right, x := start, end, element;
    ghost var given := data[..];
    while right > left
      invariant Reordered(given, data[..], start, end + 1)
      invariant Passed(data[..], start, end, x, left, right) && Guarded(data[..], start, end, x, left, right, pivot)
      invariant start == end ==> left == right == start
      decreases right - left
    {
      ghost var was := data[..];
      left, right := ScanAndSwap(data, start, end, element, left, right, pivot);
      ReorderedTrans(given, was, data[..], start, end + 1);
    }
  }

  /** Where the scans met, sorting the upper part moves nothing above the pivot value below it, or the other way round. */
  lemma MetSortUpper(s: seq<int>, t: seq<int>, start: int, end: int, x: int, meet: int)
    requires Passed(s, start, end, x, meet, meet)
    requires Reordered(s, t, meet, end + 1) && SortedRange(t, meet, end + 1)
    ensures Separated(t, start, meet + 1, end + 1) && SortedRange(t, meet + 1, end + 1)
  {
    if meet <= end {
      var u, w := s[meet..end + 1], t[meet..end + 1];
      assert u == [s[meet]] + s[meet + 1..end + 1];
      assert AllAtLeast(s[meet + 1..end + 1], x);
      forall k | meet < k <= end ensures t[k] >= x {
        assert t[k] == w[k - meet] && t[meet] == w[0];
        AtMostOneBelow(u, w, x, k - meet);
      }
    }
    forall k | start <= k < meet ensures t[k] <= x {
      ReorderedOutside(s, t, meet, end + 1, k);
    }
  }

  /** If only the first element of u can be below x, then in sorted order only the first one is. */
  lemma AtMostOneBelow(u: seq<int>, w: seq<int>, x: int, k: nat)
    requires Rearranged(u, w) && 0 < k < |w| && w[0] <= w[k]
    requires u != [] && AllAtLeast(u[1..], x)
    ensures w[k] >= x
  {
    assert u == [u[0]] + u[1..];
    assert w == [w[0]] + w[1..k] + [w[k]] + w[k + 1..];
    var rest := multiset(u[1..]);
    assert multiset(w) == multiset{u[0]} + rest;
    assert multiset(w) == multiset{w[0], w[k]} + (multiset(w[1..k]) + multiset(w[k + 1..]));
    assert w[k] < x ==> rest[w[k]] == 0 && rest[w[0]] == 0;
    assert multiset(w)[w[0]] >= 1 && multiset(w)[w[k]] >= 1;
    assert multiset{w[0], w[k]}[u[0]] <= multiset(w)[u[0]] == 1 + rest[u[0]];
  }

  lemma MetSorts(given: seq<int>, parted: seq<int>, upper: seq<int>, t: seq<int>, start: int, end: int, x: int,
                 meet: int)
    requires Reordered(given, parted, start, end + 1) && Passed(parted, start, end, x, meet, meet) && start <= meet <= end
    requires SortsIfLong(parted, upper, meet, end + 1)
    requires SortsIfLong(upper, t, start, meet + 1)
    ensures Sorts(given, t, start, end + 1)
  {
    SortsAnyway(parted, upper, meet, end + 1);
    SortsAnyway(upper, t, start, meet + 1);
    MetThenSorted(given, parted, upper, t, start, end, x, meet);
  }

  lemma MetThenSorted(given: seq<int>, parted: seq<int>, upper: seq<int>, t: seq<int>, start: int, end: int, x: int,
                      meet: int)
    requires Reordered(given, parted, start, end + 1) && Passed(parted, start, end, x, meet, meet) && start <= meet <= end
    requires Sorts(parted, upper, meet, end + 1) && Sorts(upper, t, start, meet + 1)
    ensures Sorts(given, t, start, end + 1)
  {
    MetSortUpper(parted, upper, start, end, x, meet);
    SortLower(upper, t, start, meet + 1, end + 1);
    ReorderedInParts(given, parted, upper, t, start, end + 1, meet, end + 1, start, meet + 1);
  }

  lemma MeetingSorts(given: seq<int>, parted: seq<int>, upper: seq<int>, t: seq<int>, start: int, end: int,
                     x: int, left: int, right: int)
    requires Reordered(given, parted, start, end + 1) && Passed(parted, start, end, x, left, right) && start <= end
    requires right <= left && (start < end ==> start < left && right < end) && (start == end ==> left == right == start)
    requires SortsIfLong(parted, upper, left, end + 1)
    requires SortsIfLong(upper, t, start, right + 1)
    ensures Sorts(given, t, start, end + 1)
  {
    if left == right {
      MetSorts(given, parted, upper, t, start, end, x, left);
    } else {
      CrossedSorts(given, parted, upper, t, start, end, x, left, right);
    }
  }

  /** The two recursive ranges overlap in one position when the scans meet; the order of the calls makes that harmless. */
  method Quick_Sort(data: array<int>, start: int, end: int)
    requires 0 <= start <= end < data.Length
    modifies data
    ensures Sorts(old(data[..]), data[..], start, end + 1)
    decreases end - start
  {
    ghost var given := data[..];
    ghost var x: int;
    var left, right;
    left, right, x := MeetingPartition(data, start, end);
    ghost var parted := data[..];
    if left < end {
      Quick_Sort(data, left, end);
    }
    ghost var upper := data[..];
    if start < right {
      Quick_Sort(data, start, right);
    }
    MeetingSorts(given, parted, upper, data[..], start, end, x, left, right);
  }

  // ---------- Quick_Sort_2 ----------

  /** Position j holds its final value: nothing before it exceeds it, nothing after it is below it. */
  ghost predicate PivotPlaced(s: seq<int>, start: int, end: int, j: int) {
    && 0 <= start <= j <= end < |s|
    && (forall k :: start <= k < j ==> s[k] <= s[j])
    && (forall k :: j < k <= end ==> s[k] >= s[j])
  }

  method ScanUp(data: array<int>, start: int, end: int, from: int) returns (left: int)
    requires 0 <= start <= from < end < data.Length
    ensures from < left <= end
    ensures forall k :: from < k < left ==> data[k] < data[start]
    ensures left == end || data[left] >= data[start]
  {
    left := from + 1;
    while data[left] < data[start]
      invariant from < left <= end
      invariant forall k :: from < k < left ==> data[k] < data[start]
      decreases end - left
    {
      if left == end { break; }
      left := left + 1;
    }
  }

  method ScanDown(data: array<int>, start: int, end: int, from: int) returns (right: int)
    requires 0 <= start < from <= end + 1 <= data.Length
    ensures start <= right < from
    ensures forall k :: right < k < from ==> data[k] > data[start]
    ensures data[right] <= data[start]
  {
    right := from - 1;
    while data[right] > data[start]
      invariant start <= right < from
      invariant forall k :: right < k < from ==> data[k] > data[start]
      decreases right
    {
      if right == start { break; }
      right := right - 1;
    }
  }

  ghost predicate Passed2(s: seq<int>, start: int, end: int, left: int, right: int) {
    && 0 <= start <= left <= end + 1 && start <= right <= end + 1 <= |s|
    && (forall k :: start <= k <= left && k <= end ==> s[k] <= s[start])
    && (forall k :: right <= k <= end ==> s[k] >= s[start])
  }

  lemma PassedSwap(given: seq<int>, s: seq<int>, t: seq<int>, start: int, end: int, left: int, right: int)
    requires Reordered(given, s, start, end + 1)
    requires 0 <= start < left < right <= end < |s|
    requires forall k :: start <= k < left ==> s[k] <= s[start]
    requires forall k :: right < k <= end ==> s[k] >= s[start]
    requires s[left] >= s[start] && s[right] <= s[start]
    requires t == s[left := s[right]][right := s[left]]
    ensures Reordered(given, t, start, end + 1) && Passed2(t, start, end, left, right)
  {
    SwapReorders(s, t, left, right, start, end + 1);
    ReorderedTrans(given, s, t, start, end + 1);
  }

  lemma PivotGoesTo(given: seq<int>, s: seq<int>, t: seq<int>, start: int, end: int, right: int)
    requires Reordered(given, s, start, end + 1)
    requires 0 <= start <= right <= end < |s|
    requires forall k :: start <= k <= right ==> s[k] <= s[start]
    requires forall k :: right < k <= end ==> s[k] >= s[start]
    requires t == s[start := s[right]][right := s[start]]
    ensures Reordered(given, t, start, end + 1) && PivotPlaced(t, start, end, right)
  {
    SwapReorders(s, t, start, right, start, end + 1);
    ReorderedTrans(given, s, t, start, end + 1);
  }

  /** Two guarded scans towards each other; at the end the first element goes where they crossed. */
  method Partition2(data: array<int>, start: int, end: int) returns (j: int)
    requires 0 <= start < end < data.Length
    modifies data
    ensures Reordered(old(data[..]), data[..], start, end + 1) && PivotPlaced(data[..], start, end, j)
  {
    var left, right := start, end + 1;
    ghost var given := data[..];
    ghost var was := data[..];
    while true
      invariant left < right && left < end && Passed2(data[..], start, end, left, right)
      invariant Reordered(given, data[..], start, end + 1)
      decreases right - left
    {
      left := ScanUp(data, start, end, left);
      right := ScanDown(data, start, end, right);
      was := data[..];
      if left >= right { break; }
      data[left], data[right] := data[right], data[left];
      PassedSwap(given, was, data[..], start, end, left, right);
    }
    data[start], data[right] := data[right], data[start];
    PivotGoesTo(given, was, data[..], start, end, right);
    j := right;
  }

  lemma PlacedSortLower(s: seq<int>, t: seq<int>, start: int, end: int, j: int)
    requires PivotPlaced(s, start, end, j)
    requires Reordered(s, t, start, j) && SortedRange(t, start, j)
    ensures SortedRange(t, start, j + 1) && t[j] == s[j]
    ensures forall k :: j <= k <= end ==> t[k] == s[k]
    ensures Separated(t, start, j + 1, end + 1)
  {
    forall k | j <= k <= end ensures t[k] == s[k] { ReorderedOutside(s, t, start, j, k); }
    forall k | start <= k < j ensures t[k] <= s[j] { var i := ReorderedFrom(s, t, start, j, k); }
  }

  lemma SortUpper(s: seq<int>, t: seq<int>, lo: int, mid: int, hi: int)
    requires Separated(s, lo, mid, hi) && SortedRange(s, lo, mid)
    requires Reordered(s, t, mid, hi) && SortedRange(t, mid, hi)
    ensures SortedRange(t, lo, hi)
  {
    forall i, j | lo <= i < j < hi ensures t[i] <= t[j] {
      if i < mid {
        ReorderedOutside(s, t, mid, hi, i);
        if j >= mid {
          var j' := ReorderedFrom(s, t, mid, hi, j);
        } else {
          ReorderedOutside(s, t, mid, hi, j);
        }
      }
    }
  }

  lemma PlacedSorts(given: seq<int>, parted: seq<int>, lower: seq<int>, t: seq<int>, start: int, end: int, j: int)
    requires Reordered(given, parted, start, end + 1) && PivotPlaced(parted, start, end, j)
    requires Sorts(parted, lower, start, j) && Sorts(lower, t, j + 1, end + 1)
    ensures Sorts(given, t, start, end + 1)
  {
    PlacedSortLower(parted, lower, start, end, j);
    SortUpper(lower, t, start, j + 1, end + 1);
    ReorderedInParts(given, parted, lower, t, start, end + 1, start, j, j + 1, end + 1);
  }

  /** Any range will do; an empty or one-element range is left alone. */
  method Quick_Sort_2(data: array<int>, start: int, end: int)
    requires 0 <= start <= end + 1 <= data.Length
    modifies data
    ensures Sorts(old(data[..]), data[..], start, end + 1)
    decreases end - start + 1
  {
    if end <= start { return; }
    ghost var given := data[..];
    var j := Partition2(data, start, end);
    ghost var parted := data[..];
    Quick_Sort_2(data, start, j - 1);
    ghost var lower := data[..];
    Quick_Sort_2(data, j + 1, end);
    PlacedSorts(given, parted, lower, data[..], start, end, j);
  }
}
