/** The length of the longest strictly increasing subsequence, by patience: once with a vector, once with an ordered set. */
module Lis {

  // ---------- what is asked for ----------

  /** Positions below n, in order, at which the numbers strictly increase. */
  ghost predicate Increasing(idx: seq<nat>, nums: seq<int>, n: nat) {
    && n <= |nums|
    && (forall i :: 0 <= i < |idx| ==> idx[i] < n)
    && (forall i, j :: 0 <= i < j < |idx| ==> idx[i] < idx[j] && nums[idx[i]] < nums[idx[j]])
  }

  ghost predicate IsLongest(nums: seq<int>, length: nat) {
    && (exists idx :: Increasing(idx, nums, |nums|) && |idx| == length)
    && (forall idx :: Increasing(idx, nums, |nums|) ==> |idx| <= length)
  }

  /** An increasing subsequence of nums[..n] with len elements can end in v. */
  ghost predicate CanEndIn(nums: seq<int>, n: nat, len: nat, v: int) {
    exists idx :: Increasing(idx, nums, n) && |idx| == len > 0 && nums[idx[len - 1]] == v
  }

  // ---------- the tails ----------

  ghost predicate StrictlyIncreasing(s: seq<int>) {
    forall i, j :: 0 <= i < j < |s| ==> s[i] < s[j]
  }

  /** The first position of s that is not below v. */
  function LowerBound(s: seq<int>, v: int): (k: nat)
    ensures k <= |s|
    ensures forall i :: 0 <= i < k ==> s[i] < v
    ensures k < |s| ==> s[k] >= v
  {
    if s == [] then 0 else
      var k := LowerBound(s[..|s| - 1], v);
      if k < |s| - 1 || s[|s| - 1] >= v then k else |s|
  }

  function Place(path: seq<int>, v: int): seq<int> {
    var k := LowerBound(path, v);
    if k == |path| then path + [v] else path[k := v]
  }

  /** The path after the first n numbers. */
  function Path(nums: seq<int>, n: nat): seq<int>
    requires n <= |nums|
  {
    if n == 0 then [] else Place(Path(nums, n - 1), nums[n - 1])
  }

  /** path[j] is the least value in which an increasing subsequence of j + 1 elements can end; none is longer. */
  ghost predicate LeastTails(path: seq<int>, nums: seq<int>, n: nat) {
    && (forall j :: 0 <= j < |path| ==> CanEndIn(nums, n, j + 1, path[j]))
    && (forall len: nat, v :: CanEndIn(nums, n, len, v) ==> len <= |path| && path[len - 1] <= v)
  }

  lemma PlaceIncreases(path: seq<int>, v: int)
    requires StrictlyIncreasing(path)
    ensures StrictlyIncreasing(Place(path, v))
  {
  }

  /** What could end in a value still can when there are more numbers. */
  lemma CanStillEndIn(nums: seq<int>, n: nat, len: nat, v: int)
    requires n < |nums| && CanEndIn(nums, n, len, v)
    ensures CanEndIn(nums, n + 1, len, v)
  {
    var idx :| Increasing(idx, nums, n) && |idx| == len > 0 && nums[idx[len - 1]] == v;
    assert Increasing(idx, nums, n + 1);
  }

  /** The next number extends any subsequence that ends below it. */
  lemma CanExtend(nums: seq<int>, n: nat, len: nat, v: int)
    requires n < |nums| && (len == 0 || (CanEndIn(nums, n, len, v) && v < nums[n]))
    ensures CanEndIn(nums, n + 1, len + 1, nums[n])
  {
    if len == 0 {
      var idx := [n];
      assert Increasing(idx, nums, n + 1);
    } else {
      var idx :| Increasing(idx, nums, n) && |idx| == len > 0 && nums[idx[len - 1]] == v;
      forall i | 0 <= i < |idx| ensures nums[idx[i]] < nums[n] {
        if i < len - 1 { assert nums[idx[i]] < nums[idx[len - 1]]; }
      }
      assert Increasing(idx + [n], nums, n + 1);
    }
  }

  /** A subsequence either avoids the next number or extends a shorter one by it. */
  lemma EndsCases(nums: seq<int>, n: nat, len: nat, v: int)
    requires n < |nums| && CanEndIn(nums, n + 1, len, v)
    ensures CanEndIn(nums, n, len, v)
      || (v == nums[n] && (len == 1 || exists m, u :: m + 1 == len && CanEndIn(nums, n, m, u) && u < v))
  {
    var idx :| Increasing(idx, nums, n + 1) && |idx| == len > 0 && nums[idx[len - 1]] == v;
    forall i | 0 <= i < len - 1 ensures idx[i] < n {
      assert idx[i] < idx[len - 1];
    }
    if idx[len - 1] < n {
      assert Increasing(idx, nums, n);
    } else if len > 1 {
      var shorter := idx[..len - 1];
      assert Increasing(shorter, nums, n);
      assert CanEndIn(nums, n, len - 1, nums[shorter[len - 2]]);
    }
  }

  lemma PlaceKeepsLeastTails(path: seq<int>, nums: seq<int>, n: nat)
    requires n < |nums| && StrictlyIncreasing(path) && LeastTails(path, nums, n)
    ensures LeastTails(Place(path, nums[n]), nums, n + 1)
  {
    var path', k, n' := Place(path, nums[n]), LowerBound(path, nums[n]), n + 1;
    forall j | 0 <= j < |path'| ensures CanEndIn(nums, n', j + 1, path'[j]) {
      if j == k {
        CanExtend(nums, n, k, if k > 0 then path[k - 1] else 0);
      } else {
        CanStillEndIn(nums, n, j + 1, path[j]);
      }
    }
    forall len: nat, v | CanEndIn(nums, n', len, v) ensures len <= |path'| && path'[len - 1] <= v {
      EndsCases(nums, n, len, v);
      if !CanEndIn(nums, n, len, v) && len > 1 {
        var m, u :| m + 1 == len && CanEndIn(nums, n, m, u) && u < v;
        assert path[m - 1] < nums[n];
      }
    }
  }

  lemma {:induction false} IncreasingFits(idx: seq<nat>, nums: seq<int>, n: nat)
    requires Increasing(idx, nums, n)
    ensures |idx| <= n
    decreases |idx|
  {
    if idx != [] {
      IncreasingFits(idx[..|idx| - 1], nums, idx[|idx| - 1]);
    }
  }

  lemma {:induction false} PathHoldsLeastTails(nums: seq<int>, n: nat)
    requires n <= |nums|
    ensures StrictlyIncreasing(Path(nums, n)) && LeastTails(Path(nums, n), nums, n)
  {
    if n == 0 {
      forall idx | Increasing(idx, nums, 0) ensures |idx| <= 0 {
        IncreasingFits(idx, nums, 0);
      }
    } else {
      PathHoldsLeastTails(nums, n - 1);
      PlaceIncreases(Path(nums, n - 1), nums[n - 1]);
      PlaceKeepsLeastTails(Path(nums, n - 1), nums, n - 1);
    }
  }

  lemma PathIncreases(nums: seq<int>, n: nat)
    requires n <= |nums|
    ensures StrictlyIncreasing(Path(nums, n))
  {
    PathHoldsLeastTails(nums, n);
  }

  /** The path is as long as the longest increasing subsequence. */
  lemma PathIsLongest(nums: seq<int>)
    ensures IsLongest(nums, |Path(nums, |nums|)|)
  {
    var n, path := |nums|, Path(nums, |nums|);
    PathHoldsLeastTails(nums, n);
    if path == [] {
      assert Increasing([], nums, n);
    } else {
      assert CanEndIn(nums, n, |path| - 1 + 1, path[|path| - 1]);
    }
    forall idx | Increasing(idx, nums, n) ensures |idx| <= |path| {
      if idx != [] { assert CanEndIn(nums, n, |idx|, nums[idx[|idx| - 1]]); }
    }
  }

  // ---------- with a vector ----------

  /** The contract of std::upper_bound with "not above" as its comparison: the first element not below v. */
  method FirstNotBelow(path: seq<int>, v: int) returns (k: nat)
    requires StrictlyIncreasing(path)
    ensures k == LowerBound(path, v)
  {
    var high := |path|;
    k := 0;
    while k < high
      invariant 0 <= k <= high <= |path|
      invariant forall i :: 0 <= i < k ==> path[i] < v
      invariant forall i :: high <= i < |path| ==> path[i] >= v
    {
      var mid := (k + high) / 2;
      if v <= path[mid] {
        high := mid;
      } else {
        k := mid + 1;
      }
    }
    LowerBoundUnique(path, v, k);
  }

  lemma LowerBoundUnique(s: seq<int>, v: int, k: nat)
    requires k <= |s|
    requires forall i :: 0 <= i < k ==> s[i] < v
    requires forall i :: k <= i < |s| ==> s[i] >= v
    ensures LowerBound(s, v) == k
  {
  }

  /** The body of the loop: a value above the last one is appended, any other overwrites. */
  method PlaceInPath(path0: seq<int>, v: int) returns (path: seq<int>)
    requires StrictlyIncreasing(path0)
    ensures path == Place(path0, v)
  {
    path := path0;
    if path == [] || path[|path| - 1] < v {
      path := path + [v];
      return;
    }
    var it := FirstNotBelow(path, v);
    path := path[it := v];
  }

  method LengthByVector(numbers: seq<int>) returns (length: nat)
    ensures length == |Path(numbers, |numbers|)|
    ensures IsLongest(numbers, length)
  {
    var path: seq<int> := [];
    for i := 0 to |numbers|
      invariant path == Path(numbers, i)
    {
      PathIncreases(numbers, i);
      path := PlaceInPath(path, numbers[i]);
    }
    PathIsLongest(numbers);
    length := |path|;
  }

  // ---------- with an ordered set ----------

  ghost function Members(s: seq<int>): set<int> {
    set x | x in s
  }

  lemma {:induction false} MembersSize(s: seq<int>)
    requires StrictlyIncreasing(s)
    ensures |Members(s)| == |s|
  {
    if s != [] {
      var t := s[..|s| - 1];
      MembersSize(t);
      assert Members(s) == Members(t) + {s[|s| - 1]};
    }
  }

  /** g is the next value above v in the set. */
  ghost predicate IsNext(s: set<int>, v: int, g: int) {
    g in s && g > v && forall x :: x in s && x > v ==> g <= x
  }

  /** Placing a value inserts it and takes out the next greater one, if it is new. */
  lemma PlaceMembers(path: seq<int>, v: int)
    requires StrictlyIncreasing(path)
    ensures v in path ==> Place(path, v) == path
    ensures v !in path ==>
      var k := LowerBound(path, v);
      if k < |path| then
        && IsNext(Members(path), v, path[k])
        && Members(Place(path, v)) == Members(path) + {v} - {path[k]}
      else
        && (forall x :: x in path ==> x < v)
        && Members(Place(path, v)) == Members(path) + {v}
  {
    var k, path' := LowerBound(path, v), Place(path, v);
    if k == |path| {
      assert path' == path + [v];
    } else if v !in path {
      forall x ensures x in path' <==> x == v || (x in path && x != path[k]) {
        if x == v { assert path'[k] == v; }
        if x in path && x != path[k] {
          var i :| 0 <= i < |path| && path[i] == x;
          assert path'[i] == x;
        }
      }
    }
  }

  method LengthBySet(numbers: seq<int>) returns (length: nat)
    ensures length == |Path(numbers, |numbers|)|
    ensures IsLongest(numbers, length)
  {
    var tmp: set<int> := {};
    for i := 0 to |numbers|
      invariant tmp == Members(Path(numbers, i))
    {
      var val := numbers[i];
      PathIncreases(numbers, i);
      PlaceMembers(Path(numbers, i), val);
      if val !in tmp {
        tmp := InsertAndDropNext(tmp, Path(numbers, i), val);
      }
    }
    PathIncreases(numbers, |numbers|);
    MembersSize(Path(numbers, |numbers|));
    PathIsLongest(numbers);
    length := |tmp|;
  }

  /** Inserts a new value and erases the element that then follows it, if any. */
  method InsertAndDropNext(s: set<int>, ghost path: seq<int>, val: int) returns (t: set<int>)
    requires StrictlyIncreasing(path) && s == Members(path) && val !in s
    ensures t == Members(Place(path, val))
  {
    PlaceMembers(path, val);
    t := s + {val};
    if exists x :: x in s && x > val {
      var next :| next in s && next > val && forall x :: x in s && x > val ==> next <= x;
      t := t - {next};
    }
  }
}
