/** A min heap kept in a vector, and the scan that keeps the N largest of a stream in one. */
module MinHeap {
  import opened Sequences
  import opened Heaps

  class MinBinaryHeap {
    var vector: seq<int>

    ghost predicate Valid()
      reads this
    {
      IsHeap(false, vector)
    }

    constructor (data: seq<int>)
      ensures Valid() && Rearranged(data, vector)
    {
      vector := data;
      new;
      MakeHeap();
    }

    /** Lets the value at index sink to where the heap below index is whole. */
    method Heapify(index: nat)
      requires index < |vector| && HeapFrom(false, vector, |vector|, index + 1)
      modifies this
      ensures HeapFrom(false, vector, |vector|, index)
      ensures Rearranged(old(vector), vector) && |vector| == old(|vector|)
    {
      SiftStart(false, vector, |vector|, index);
      var i := index;
      while true
        invariant |vector| == old(|vector|) && HeapButFor(false, vector, |vector|, index, i)
        invariant Rearranged(old(vector), vector)
        decreases |vector| - i
      {
        ghost var was := vector;
        var left, right, current := 2 * i + 1, 2 * i + 2, i;
        if |vector| > left && vector[current] > vector[left] {
          current := left;
        }
        if |vector| > right && vector[current] > vector[right] {
          current := right;
        }
        assert current == Chosen(false, was, |was|, i);
        if current == i {
          SiftDone(false, was, |was|, index, i);
          break;
        }
        vector := vector[i := vector[current]][current := vector[i]];
        SiftStep(false, was, vector, |was|, index, i);
        SwapRearranges(was, vector, i, current);
        i := current;
      }
    }

    /** Starts one position beyond the last parent, where on an empty vector there is nothing to sift. */
    method MakeHeap()
      modifies this
      ensures Valid() && Rearranged(old(vector), vector)
    {
      var i := |vector| / 2;
      LeavesAreHeaps(false, vector, |vector| / 2);
      while i >= 0
        invariant -1 <= i <= |vector| / 2 && |vector| == old(|vector|)
        invariant HeapFrom(false, vector, |vector|, i + 1)
        invariant Rearranged(old(vector), vector)
      {
        if i < |vector| {
          Heapify(i);
        }
        i := i - 1;
      }
    }

    function Head(): int
      requires vector != []
      reads this
    {
      vector[0]
    }

    method UpdateHead(newVal: int)
      requires Valid() && vector != []
      modifies this
      ensures Valid() && multiset(vector) == multiset(old(vector)) - multiset{old(vector)[0]} + multiset{newVal}
    {
      ghost var was := vector;
      vector := vector[0 := newVal];
      forall c | 0 < c < |vector| && 1 <= Parent(c) ensures InPlace(false, vector, c) {
        assert InPlace(false, was, c);
      }
      Heapify(0);
    }
  }

  // ---------- the N largest ----------

  /** kept holds n of the elements of s, and nothing left out exceeds anything kept. */
  ghost predicate Largest(kept: multiset<int>, s: multiset<int>, n: nat) {
    && |kept| == n && kept <= s
    && forall x, y :: x in kept && y in s - kept ==> y <= x
  }

  lemma SameSize(a: multiset<int>, b: multiset<int>)
    requires |a| == |b| && b <= a
    ensures a == b
  {
    assert a == b + (a - b);
    assert |a - b| == 0;
    assert a - b == multiset{};
  }

  /** There is only one choice of the n largest. */
  lemma LargestUnique(a: multiset<int>, b: multiset<int>, s: multiset<int>, n: nat)
    requires Largest(a, s, n) && Largest(b, s, n)
    ensures a == b
  {
    forall x, y | a[x] > b[x] ensures b[y] <= a[y] {
      assert a[x] <= s[x] && b[y] <= s[y];
      assert x in s - b && (b[y] > a[y] ==> y in s - a);
    }
    if x :| a[x] > b[x] {
      forall y ensures b[y] <= a[y] { assert a[x] > b[x]; }
      SameSize(a, b);
    } else {
      assert forall z :: a[z] <= b[z];
      SameSize(b, a);
    }
  }

  /** One more element: it replaces the least of the kept ones if it exceeds it, else it is left out. */
  lemma OneMoreElement(kept: multiset<int>, s: multiset<int>, n: nat, least: int, x: int)
    requires Largest(kept, s, n) && least in kept && forall y :: y in kept ==> least <= y
    ensures x > least ==> Largest(kept - multiset{least} + multiset{x}, s + multiset{x}, n)
    ensures x <= least ==> Largest(kept, s + multiset{x}, n)
  {
    if x > least {
      var kept', s' := kept - multiset{least} + multiset{x}, s + multiset{x};
      assert s' - kept' == s - kept + multiset{least};
    } else {
      assert s + multiset{x} - kept == s - kept + multiset{x};
    }
  }

  /** The body of the scan: a value above the least of the kept ones takes its place. */
  method KeepIfLarger(heap: MinBinaryHeap, x: int, ghost s: multiset<int>, ghost n: nat)
    requires heap.Valid() && n >= 1 && Largest(multiset(heap.vector), s, n)
    modifies heap
    ensures heap.Valid() && Largest(multiset(heap.vector), s + multiset{x}, n)
  {
    HeadIsLeast(heap.vector);
    OneMoreElement(multiset(heap.vector), s, n, heap.vector[0], x);
    if x > heap.Head() {
      heap.UpdateHead(x);
    }
  }

  /** Keeps the N largest of the data in a heap of size N. */
  method FindNMaxElements(data: seq<int>, n: nat) returns (heap: MinBinaryHeap)
    requires 1 <= n <= |data|
    ensures fresh(heap) && heap.Valid()
    ensures Largest(multiset(heap.vector), multiset(data), n)
  {
    heap := new MinBinaryHeap(data[..n]);
    for index := n to |data|
      invariant fresh(heap) && heap.Valid()
      invariant Largest(multiset(heap.vector), multiset(data[..index]), n)
    {
      assert data[..index + 1] == data[..index] + [data[index]];
      KeepIfLarger(heap, data[index], multiset(data[..index]), n);
    }
    assert data[..|data|] == data;
  }

  lemma HeadIsLeast(s: seq<int>)
    requires IsHeap(false, s) && s != []
    ensures s[0] in multiset(s) && forall y :: y in multiset(s) ==> s[0] <= y
  {
    forall y | y in multiset(s) ensures s[0] <= y {
      var k :| 0 <= k < |s| && s[k] == y;
      RootIsExtreme(false, s, |s|, k);
    }
  }
}
