/** The test for the heap property, and the loop that establishes it in a vector. */
module HeapTest {
  import opened Heaps
  import opened Sequences
  import HeapSort

  /** The predicate of the test is "greater" for a max heap, "less" for a min heap: no child may satisfy it. */
  method CheckHeap(data: seq<int>, max: bool) returns (yes: bool)
    ensures yes <==> IsHeap(max, data)
  {
    for i := 0 to |data| / 2
      invariant forall c {:trigger InPlace(max, data, c)} :: 0 < c < |data| && Parent(c) < i ==> InPlace(max, data, c)
    {
      if !MayStandAbove(max, data[i], data[i * 2 + 1]) {
        assert !InPlace(max, data, i * 2 + 1);
        return false;
      }
      if |data| > i * 2 + 2 && !MayStandAbove(max, data[i], data[i * 2 + 2]) {
        assert !InPlace(max, data, i * 2 + 2);
        return false;
      }
    }
    yes := true;
  }

  /** Sifts every position from the middle down; the sift is that of heap sort over the whole array. */
  method MakeMaxHeap(numbers: array<int>)
    modifies numbers
    ensures IsHeap(true, numbers[..]) && Rearranged(old(numbers[..]), numbers[..])
  {
    var i := numbers.Length / 2;
    LeavesAreHeaps(true, numbers[..], numbers.Length / 2);
    while i >= 0
      invariant -1 <= i <= numbers.Length / 2
      invariant HeapFrom(true, numbers[..], numbers.Length, i + 1)
      invariant Rearranged(old(numbers[..]), numbers[..])
    {
      if i < numbers.Length {
        HeapSort.HeapifyMax(numbers, numbers.Length, i);
      }
      i := i - 1;
    }
  }
}
