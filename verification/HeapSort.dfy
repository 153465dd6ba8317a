/** In-place heap sort. */
module HeapSort {
  import opened Sequences
  import opened Heaps

  /** What a sift may do to an array of which it sees the first n positions: rearrange those from lo on. */
  ghost predicate Sifted(s: seq<int>, t: seq<int>, n: nat, lo: nat)
    requires lo <= n <= |s|
  {
    && |t| == |s|
    && t[..lo] == s[..lo] && t[n..] == s[n..]
    && Rearranged(s[..n], t[..n]) && Rearranged(s, t)
  }

  lemma SiftedSwap(r: seq<int>, s: seq<int>, t: seq<int>, n: nat, lo: nat, i: nat, j: nat)
    requires lo <= n <= |r| && Sifted(r, s, n, lo)
    requires lo <= i < n && lo <= j < n && t == s[i := s[j]][j := s[i]]
    ensures Sifted(r, t, n, lo)
  {
    SwapRearranges(s, t, i, j);
    SwapRearrangesSlice(s, t, i, j, 0, n);
    assert t[..n] == t[0..n] && s[..n] == s[0..n];
    assert t[..lo] == s[..lo] && t[n..] == s[n..];
  }

  /** While a value sinks: it has reached position i, where alone the heap below index may be broken. */
  ghost predicate Sinking(start: seq<int>, s: seq<int>, n: nat, index: nat, i: nat) {
    index <= i < n <= |start| && Sifted(start, s, n, index) && HeapButFor(true, s, n, index, i)
  }

  lemma SinkStep(start: seq<int>, s: seq<int>, t: seq<int>, n: nat, index: nat, i: nat, current: nat)
    requires Sinking(start, s, n, index, i) && current == Chosen(true, s, n, i) != i
    requires t == s[i := s[current]][current := s[i]]
    ensures Sinking(start, t, n, index, current)
  {
    SiftStep(true, s, t, n, index, i);
    SiftedSwap(start, s, t, n, index, i, current);
  }

  /** Lets the value at index sink to where the heap below index is whole. */
  method HeapifyMax(data: array<int>, length: nat, index: nat)
    requires index < length <= data.Length
    requires HeapFrom(true, data[..], length, index + 1)
    modifies data
    ensures HeapFrom(true, data[..], length, index)
    ensures Sifted(old(data[..]), data[..], length, index)
  {
    ghost var start := data[..];
    SiftStart(true, data[..], length, index);
    var i := index;
    while true
      invariant Sinking(start, data[..], length, index, i)
      decreases length - i
    {
      ghost var was := data[..];
      var left, right, current := 2 * i + 1, 2 * i + 2, i;
      if length > left && data[current] < data[left] {
        current := left;
      }
      if length > right && data[current] < data[right] {
        current := right;
      }
      assert current == Chosen(true, was, length, i);
      if current == i {
        SiftDone(true, was, length, index, i);
        break;
      }
      data[i], data[current] := data[current], data[i];
      SinkStep(start, was, data[..], length, index, i, current);
      i := current;
    }
  }

  method BuildHeap(data: array<int>)
    modifies data
    ensures IsHeap(true, data[..]) && Rearranged(old(data[..]), data[..])
  {
    var i := data.Length / 2 - 1;
    LeavesAreHeaps(true, data[..], data.Length / 2);
    while i >= 0
      invariant -1 <= i < data.Length
      invariant HeapFrom(true, data[..], data.Length, i + 1)
      invariant Rearranged(old(data[..]), data[..])
    {
      HeapifyMax(data, data.Length, i);
      i := i - 1;
    }
  }

  /** The first n positions are a heap, the rest is sorted and nothing in the heap exceeds it. */
  ghost predicate SortedAbove(s: seq<int>, n: nat) {
    && n <= |s| && HeapFrom(true, s, n, 0)
    && Sorted(s[n..]) && (n < |s| ==> AllAtMost(s[..n], s[n]))
  }

  /** Moving the root behind the heap extends the sorted part. */
  lemma MoveRoot(s: seq<int>, t: seq<int>, u: seq<int>, i: nat)
    requires 0 < i < |s| && SortedAbove(s, i + 1)
    requires t == s[0 := s[i]][i := s[0]]
    requires Sifted(t, u, i, 0) && HeapFrom(true, u, i, 0)
    ensures SortedAbove(u, i)
  {
    forall k | 0 <= k < i + 1 ensures s[k] <= s[0] {
      RootIsExtreme(true, s, i + 1, k);
    }
    assert AllAtMost(t[..i], s[0]);
    RearrangedBounds(t[..i], u[..i], s[0]);
    assert u[i..] == t[i..] == [s[0]] + s[i + 1..];
    assert u[i] == u[i..][0];
    if i + 1 < |s| {
      assert s[..i + 1][0] <= s[i + 1];
    }
  }

  /** With the root moved away, everything below the new root is still a heap. */
  lemma RootMoved(s: seq<int>, t: seq<int>, i: nat)
    requires 0 < i < |s| && HeapFrom(true, s, i + 1, 0)
    requires t == s[0 := s[i]][i := s[0]]
    ensures HeapFrom(true, t, i, 1)
  {
    forall c | 0 < c < i && 1 <= Parent(c) ensures InPlace(true, t, c) {
      assert InPlace(true, s, c);
    }
  }

  /** While the heap shrinks to n positions. */
  ghost predicate Sorting(start: seq<int>, s: seq<int>, n: nat) {
    SortedAbove(s, n) && Rearranged(start, s)
  }

  lemma SortStep(start: seq<int>, s: seq<int>, t: seq<int>, u: seq<int>, i: nat)
    requires 0 < i < |s| && Sorting(start, s, i + 1) && t == s[0 := s[i]][i := s[0]]
    requires Sifted(t, u, i, 0) && HeapFrom(true, u, i, 0)
    ensures Sorting(start, u, i)
  {
    MoveRoot(s, t, u, i);
    SwapRearranges(s, t, 0, i);
  }

  method Sort(data: array<int>)
    modifies data
    ensures Sorted(data[..]) && Rearranged(old(data[..]), data[..])
  {
    BuildHeap(data);
    ghost var start := old(data[..]);
    HeapIsSorting(start, data[..]);
    var i := data.Length - 1;
    while i > 0
      invariant i < data.Length && (data.Length > 0 ==> i >= 0 && Sorting(start, data[..], i + 1))
    {
      ghost var was := data[..];
      data[0], data[i] := data[i], data[0];
      ghost var moved := data[..];
      RootMoved(was, moved, i);
      HeapifyMax(data, i, 0);
      SortStep(start, was, moved, data[..], i);
      i := i - 1;
    }
    if data.Length > 0 { AllSorted(data[..]); }
  }

  lemma HeapIsSorting(start: seq<int>, s: seq<int>)
    requires IsHeap(true, s) && Rearranged(start, s)
    ensures Sorting(start, s, |s|)
  {
  }

  /** Once only the first position is left of the heap, everything is sorted. */
  lemma AllSorted(s: seq<int>)
    requires SortedAbove(s, 1)
    ensures Sorted(s)
  {
    var rest := s[1..];
    assert s == [s[0]] + rest && s[..1][0] == s[0];
    forall a, b | 0 <= a < b < |s| ensures s[a] <= s[b] {
      assert s[b] == rest[b - 1] && s[1] == rest[0];
      if a > 0 { assert s[a] == rest[a - 1]; }
    }
  }
}
