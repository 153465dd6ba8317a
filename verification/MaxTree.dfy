/** The monotonic-stack construction of a binary max tree out of linked nodes. */
module MaxTree {
  import opened Sequences

  // ---------- the tree that is promised ----------

  datatype Shape = Leaf | Fork(left: Shape, value: int, right: Shape)

  function InOrder(t: Shape): seq<int> {
    match t
    case Leaf => []
    case Fork(l, v, r) => InOrder(l) + [v] + InOrder(r)
  }

  function Size(t: Shape): nat {
    match t
    case Leaf => 0
    case Fork(l, _, r) => Size(l) + 1 + Size(r)
  }

  ghost predicate AllBelow(s: seq<int>, v: int) {
    forall k :: 0 <= k < |s| ==> s[k] < v
  }

  /** Each root exceeds everything in its left subtree and is at least everything in its right subtree. */
  ghost predicate MaxOrdered(t: Shape) {
    match t
    case Leaf => true
    case Fork(l, v, r) =>
      && AllBelow(InOrder(l), v) && AllAtMost(InOrder(r), v)
      && MaxOrdered(l) && MaxOrdered(r)
  }

  /** Where the maximum of nums[lo..hi] occurs first. */
  function LeftmostMax(nums: seq<int>, lo: nat, hi: nat): (m: nat)
    requires lo < hi <= |nums|
    ensures lo <= m < hi
  {
    if lo + 1 == hi then lo else
      var m := LeftmostMax(nums, lo, hi - 1);
      if nums[m] < nums[hi - 1] then hi - 1 else m
  }

  ghost predicate Below(nums: seq<int>, lo: nat, hi: nat, v: int)
    requires hi <= |nums|
  {
    forall k :: lo <= k < hi ==> nums[k] < v
  }

  ghost predicate AtMost(nums: seq<int>, lo: nat, hi: nat, v: int)
    requires hi <= |nums|
  {
    forall k :: lo <= k < hi ==> nums[k] <= v
  }

  /** What precedes the position is smaller, what follows it is not larger, and only one position is like that. */
  lemma {:induction false} LeftmostMaxProperty(nums: seq<int>, lo: nat, hi: nat, m: nat)
    requires lo <= m < hi <= |nums|
    ensures LeftmostMax(nums, lo, hi) == m <==> Below(nums, lo, m, nums[m]) && AtMost(nums, m, hi, nums[m])
    decreases hi - lo
  {
    if lo + 1 < hi {
      var p := LeftmostMax(nums, lo, hi - 1);
      LeftmostMaxProperty(nums, lo, hi - 1, p);
      if m < hi - 1 { LeftmostMaxProperty(nums, lo, hi - 1, m); }
    }
  }

  /** The recursive definition on nums[lo..hi]: the maximum at the root, what precedes it left, what follows it right. */
  function MaxTreeOf(nums: seq<int>, lo: nat, hi: nat): Shape
    requires lo <= hi <= |nums|
    decreases hi - lo
  {
    if lo == hi then Leaf else
      var m := LeftmostMax(nums, lo, hi);
      Fork(MaxTreeOf(nums, lo, m), nums[m], MaxTreeOf(nums, m + 1, hi))
  }

  lemma MaxTreeFork(nums: seq<int>, lo: nat, hi: nat)
    requires lo < hi <= |nums|
    ensures var m := LeftmostMax(nums, lo, hi);
      MaxTreeOf(nums, lo, hi) == Fork(MaxTreeOf(nums, lo, m), nums[m], MaxTreeOf(nums, m + 1, hi))
  {
  }

  lemma CutAt(nums: seq<int>, lo: nat, m: nat, hi: nat)
    requires lo <= m < hi <= |nums|
    ensures nums[lo..hi] == nums[lo..m] + [nums[m]] + nums[m + 1..hi]
  {
  }

  lemma {:induction false} MaxTreeInOrder(nums: seq<int>, lo: nat, hi: nat)
    requires lo <= hi <= |nums|
    ensures InOrder(MaxTreeOf(nums, lo, hi)) == nums[lo..hi]
    decreases hi - lo
  {
    if lo < hi {
      var m := LeftmostMax(nums, lo, hi);
      MaxTreeInOrder(nums, lo, m);
      MaxTreeInOrder(nums, m + 1, hi);
      MaxTreeFork(nums, lo, hi);
      CutAt(nums, lo, m, hi);
    }
  }

  lemma {:induction false} MaxTreeSize(nums: seq<int>, lo: nat, hi: nat)
    requires lo <= hi <= |nums|
    ensures Size(MaxTreeOf(nums, lo, hi)) == hi - lo
    decreases hi - lo
  {
    if lo < hi {
      var m := LeftmostMax(nums, lo, hi);
      MaxTreeSize(nums, lo, m);
      MaxTreeSize(nums, m + 1, hi);
    }
  }

  lemma {:induction false} MaxTreeIsMaxOrdered(nums: seq<int>, lo: nat, hi: nat)
    requires lo <= hi <= |nums|
    ensures MaxOrdered(MaxTreeOf(nums, lo, hi))
    decreases hi - lo
  {
    if lo < hi {
      var m := LeftmostMax(nums, lo, hi);
      MaxTreeIsMaxOrdered(nums, lo, m);
      MaxTreeIsMaxOrdered(nums, m + 1, hi);
      ForkOrdered(nums, lo, m, hi);
      MaxTreeFork(nums, lo, hi);
    }
  }

  lemma ForkOrdered(nums: seq<int>, lo: nat, m: nat, hi: nat)
    requires lo <= m < hi <= |nums| && m == LeftmostMax(nums, lo, hi)
    requires MaxOrdered(MaxTreeOf(nums, lo, m)) && MaxOrdered(MaxTreeOf(nums, m + 1, hi))
    ensures MaxOrdered(Fork(MaxTreeOf(nums, lo, m), nums[m], MaxTreeOf(nums, m + 1, hi)))
  {
    MaxTreeInOrder(nums, lo, m);
    MaxTreeInOrder(nums, m + 1, hi);
    LeftmostMaxProperty(nums, lo, hi, m);
    SliceBounds(nums, lo, m, nums[m]);
    SliceBounds(nums, m + 1, hi, nums[m]);
  }

  /** Bounds of a slice and of the range it is. */
  lemma SliceBounds(nums: seq<int>, lo: nat, hi: nat, v: int)
    requires lo <= hi <= |nums|
    ensures AllBelow(nums[lo..hi], v) <==> Below(nums, lo, hi, v)
    ensures AllAtMost(nums[lo..hi], v) <==> AtMost(nums, lo, hi, v)
  {
    var s := nums[lo..hi];
    assert forall k :: lo <= k < hi ==> nums[k] == s[k - lo];
    assert forall k :: 0 <= k < |s| ==> s[k] == nums[lo + k];
  }

  /** A sequence can be split at a value above what precedes and not below what follows in only one way. */
  lemma SplitUnique(a: seq<int>, v: int, b: seq<int>, a': seq<int>, v': int, b': seq<int>)
    requires a + [v] + b == a' + [v'] + b'
    requires AllBelow(a, v) && AllAtMost(b, v) && AllBelow(a', v') && AllAtMost(b', v')
    ensures a == a' && v == v' && b == b'
  {
    var s, i, j := a + [v] + b, |a|, |a'|;
    assert s[i] == v && s[j] == v';
    assert forall k :: 0 <= k < i ==> s[k] == a[k];
    assert forall k :: i < k < |s| ==> s[k] == b[k - i - 1];
    assert forall k :: 0 <= k < j ==> s[k] == a'[k];
    assert forall k :: j < k < |s| ==> s[k] == b'[k - j - 1];
    assert a == s[..i] && b == s[i + 1..] && a' == s[..j] && b' == s[j + 1..];
  }

  /** Max-ordered trees that read the same are the same. */
  lemma {:induction false} OrderedUnique(t: Shape, u: Shape)
    requires InOrder(t) == InOrder(u) && MaxOrdered(t) && MaxOrdered(u)
    ensures t == u
  {
    if t.Fork? && u.Fork? {
      SplitUnique(InOrder(t.left), t.value, InOrder(t.right), InOrder(u.left), u.value, InOrder(u.right));
      OrderedUnique(t.left, u.left);
      OrderedUnique(t.right, u.right);
    }
  }

  /** A max-ordered tree that reads, in order, as nums[lo..hi] can only be the one defined above. */
  lemma MaxTreeUnique(t: Shape, nums: seq<int>, lo: nat, hi: nat)
    requires lo <= hi <= |nums|
    requires InOrder(t) == nums[lo..hi] && MaxOrdered(t)
    ensures t == MaxTreeOf(nums, lo, hi)
  {
    MaxTreeInOrder(nums, lo, hi);
    MaxTreeIsMaxOrdered(nums, lo, hi);
    OrderedUnique(t, MaxTreeOf(nums, lo, hi));
  }

  /** The tree is exactly the max-ordered one that reads, in order, as the input. */
  lemma MaxTreeCharacterised(t: Shape, nums: seq<int>)
    ensures t == MaxTreeOf(nums, 0, |nums|) <==> InOrder(t) == nums && MaxOrdered(t)
  {
    assert nums[0..|nums|] == nums;
    MaxTreeInOrder(nums, 0, |nums|);
    MaxTreeIsMaxOrdered(nums, 0, |nums|);
    if InOrder(t) == nums && MaxOrdered(t) {
      MaxTreeUnique(t, nums, 0, |nums|);
    }
  }

  // ---------- the linked tree ----------

  class TreeNode {
    const value: int
    var left: TreeNode?
    var right: TreeNode?

    constructor (value: int)
      ensures this.value == value && left == null && right == null
    {
      this.value, left, right := value, null, null;
    }
  }

  class Tree {
    var root: TreeNode?
    var store: seq<TreeNode>

    constructor ()
      ensures root == null && store == []
    {
      root, store := null, [];
    }

    method Add(value: int) returns (node: TreeNode)
      modifies this`store
      ensures fresh(node) && node.value == value && node.left == null && node.right == null
      ensures store == old(store) + [node]
    {
      node := new TreeNode(value);
      store := store + [node];
    }
  }

  /** The links below n spell the shape t, and its nodes from left to right are store[lo..hi], each used once. */
  ghost predicate Spells(n: TreeNode?, t: Shape, store: seq<TreeNode>, lo: nat, hi: nat)
    requires lo <= hi <= |store|
    reads store
    decreases t
  {
    match t
    case Leaf => n == null && lo == hi
    case Fork(l, v, r) =>
      var m := lo + Size(l);
      && m < hi && n == store[m] && n.value == v
      && Spells(n.left, l, store, lo, m)
      && Spells(n.right, r, store, m + 1, hi)
  }

  // ---------- the links as positions in the store ----------

  /** The node at position p, or no node for -1. */
  function At(store: seq<TreeNode>, p: int): TreeNode?
    requires -1 <= p < |store|
  {
    if p == -1 then null else store[p]
  }

  /** The links of all nodes: left[k] and right[k] are where those of node k lead, -1 for nowhere. */
  datatype Links = Links(left: seq<int>, right: seq<int>) {
    ghost predicate Valid(n: nat) {
      && |left| == |right| == n
      && (forall k :: 0 <= k < n ==> -1 <= left[k] < n)
      && (forall k :: 0 <= k < n ==> -1 <= right[k] < n)
    }

    ghost predicate Describes(store: seq<TreeNode>)
      requires Valid(|store|)
      reads store
    {
      && (forall k {:trigger left[k]} :: 0 <= k < |store| ==> store[k].left == At(store, left[k]))
      && (forall k {:trigger right[k]} :: 0 <= k < |store| ==> store[k].right == At(store, right[k]))
    }
  }

  /** The nodes hold the numbers, in order. */
  ghost predicate Carries(store: seq<TreeNode>, nums: seq<int>) {
    |store| <= |nums| && forall k :: 0 <= k < |store| ==> store[k].value == nums[k]
  }

  /** Position p is the root of the max tree of nums[lo..hi]. */
  ghost predicate Built(p: int, nums: seq<int>, links: Links, lo: nat, hi: nat)
    requires lo <= hi <= |nums| && hi <= |links.left| == |links.right|
    decreases hi - lo
  {
    if lo == hi then p == -1 else
      var m := LeftmostMax(nums, lo, hi);
      && p == m
      && Built(links.left[m], nums, links, lo, m)
      && Built(links.right[m], nums, links, m + 1, hi)
  }

  lemma {:induction false} BuiltSpells(p: int, nums: seq<int>, links: Links, store: seq<TreeNode>, lo: nat, hi: nat)
    requires lo <= hi <= |nums| == |store| && Carries(store, nums) && links.Valid(|store|) && links.Describes(store)
    requires Built(p, nums, links, lo, hi)
    ensures -1 <= p < |store| && Spells(At(store, p), MaxTreeOf(nums, lo, hi), store, lo, hi)
    decreases hi - lo
  {
    if lo < hi {
      var m := LeftmostMax(nums, lo, hi);
      BuiltSpells(links.left[m], nums, links, store, lo, m);
      BuiltSpells(links.right[m], nums, links, store, m + 1, hi);
      MaxTreeSize(nums, lo, m);
    }
  }

  /** Node m is the leftmost maximum of nums[lo..done] and its left link holds what precedes it there. */
  ghost predicate Crowned(nums: seq<int>, links: Links, lo: nat, m: nat, done: nat)
    requires done <= |nums| && done <= |links.left| == |links.right|
  {
    && lo <= m < done
    && Below(nums, lo, m, nums[m]) && AtMost(nums, m + 1, done, nums[m])
    && Built(links.left[m], nums, links, lo, m)
  }

  lemma BuiltFork(nums: seq<int>, links: Links, lo: nat, m: nat, done: nat)
    requires done <= |nums| && done <= |links.left| == |links.right|
    requires Crowned(nums, links, lo, m, done)
    requires Built(links.right[m], nums, links, m + 1, done)
    ensures Built(m, nums, links, lo, done) && AtMost(nums, lo, done, nums[m])
  {
    LeftmostMaxProperty(nums, lo, done, m);
  }

  ghost predicate SameLinks(links: Links, links': Links, lo: nat, hi: nat)
    requires hi <= |links.left| == |links.right| && hi <= |links'.left| == |links'.right|
  {
    forall k :: lo <= k < hi ==> links'.left[k] == links.left[k] && links'.right[k] == links.right[k]
  }

  /** Only the links of the range itself matter. */
  lemma {:induction false} BuiltKept(p: int, nums: seq<int>, links: Links, links': Links, lo: nat, hi: nat)
    requires lo <= hi <= |nums| && hi <= |links.left| == |links.right| && hi <= |links'.left| == |links'.right|
    requires SameLinks(links, links', lo, hi)
    requires Built(p, nums, links, lo, hi)
    ensures Built(p, nums, links', lo, hi)
    decreases hi - lo
  {
    if lo < hi {
      var m := LeftmostMax(nums, lo, hi);
      BuiltKept(links.left[m], nums, links, links', lo, m);
      BuiltKept(links.right[m], nums, links, links', m + 1, hi);
    }
  }

  // ---------- the stack ----------

  /**
   * Stack entry j stands for the input range cut[j]..cut[j + 1]: its node is the last of that range and the largest
   * from there to the end of what is done; its left link holds the rest of the range, its right link the next entry.
   */
  ghost predicate Entry(nums: seq<int>, links: Links, cut: seq<nat>, depth: nat, done: nat, j: nat)
    requires j < depth < |cut| && done <= |nums| && done <= |links.left| == |links.right|
  {
    && cut[j] < cut[j + 1] <= done
    && Crowned(nums, links, cut[j], cut[j + 1] - 1, done)
    && (j + 1 < depth ==> links.right[cut[j + 1] - 1] + 1 == cut[j + 2])
  }

  /** The stack, given by its cuts, is the right spine of what is built for nums[..done]. */
  ghost predicate Spine(nums: seq<int>, links: Links, cut: seq<nat>, depth: nat, done: nat)
    requires done <= |nums| && done <= |links.left| == |links.right|
  {
    && depth < |cut| && cut[0] == 0
    && forall j :: 0 <= j < depth ==> Entry(nums, links, cut, depth, done, j)
  }

  /** With the spine complete, each entry is the root of everything from its left part to the end. */
  lemma {:induction false} SpineBuilt(nums: seq<int>, links: Links, cut: seq<nat>, depth: nat, done: nat, j: nat)
    requires done <= |nums| && done <= |links.left| == |links.right| && Spine(nums, links, cut, depth, done)
    requires j < depth && 0 < done == cut[depth] && links.right[done - 1] == -1
    ensures cut[j] < cut[j + 1] <= done && Built(cut[j + 1] - 1, nums, links, cut[j], done)
    decreases depth - j
  {
    assert Entry(nums, links, cut, depth, done, j);
    var m := cut[j + 1] - 1;
    if j + 1 < depth {
      SpineBuilt(nums, links, cut, depth, done, j + 1);
      assert links.right[m] == cut[j + 2] - 1;
    } else {
      assert m + 1 == done;
    }
    assert Built(links.right[m], nums, links, m + 1, done);
    BuiltFork(nums, links, cut[j], m, done);
  }

  lemma {:induction false} CutsIncrease(nums: seq<int>, links: Links, cut: seq<nat>, depth: nat, done: nat, i: nat,
                                        j: nat)
    requires done <= |nums| && done <= |links.left| == |links.right|
    requires Spine(nums, links, cut, depth, done) && i < j <= depth
    ensures cut[i] < cut[j] <= done
    decreases j
  {
    assert Entry(nums, links, cut, depth, done, j - 1);
    if i < j - 1 { CutsIncrease(nums, links, cut, depth, done, i, j - 1); }
  }

  /** A popped entry is the root of all that was not below it. */
  lemma PoppedBuilt(nums: seq<int>, links: Links, cut: seq<nat>, depth: nat, done: nat)
    requires done <= |nums| && done <= |links.left| == |links.right|
    requires depth > 0 && Spine(nums, links, cut, depth, done)
    requires 0 < cut[depth] <= done && Built(links.right[cut[depth] - 1], nums, links, cut[depth], done)
    ensures cut[depth - 1] < cut[depth] && Built(cut[depth] - 1, nums, links, cut[depth - 1], done)
    ensures AtMost(nums, cut[depth - 1], done, nums[cut[depth] - 1])
  {
    assert Entry(nums, links, cut, depth, done, depth - 1);
    BuiltFork(nums, links, cut[depth - 1], cut[depth] - 1, done);
  }

  /** What remains after popping is a spine, and the new top leads to what was popped. */
  lemma SpinePop(nums: seq<int>, links: Links, cut: seq<nat>, depth: nat, done: nat)
    requires done <= |nums| && done <= |links.left| == |links.right|
    requires depth > 0 && Spine(nums, links, cut, depth, done)
    ensures Spine(nums, links, cut, depth - 1, done)
    ensures cut[depth - 1] < cut[depth] <= done
    ensures depth > 1 ==> 0 < cut[depth - 1] && links.right[cut[depth - 1] - 1] == cut[depth] - 1
  {
    var d := depth - 1;
    forall j | 0 <= j < d ensures Entry(nums, links, cut, d, done, j) {
      assert Entry(nums, links, cut, depth, done, j);
    }
    assert Entry(nums, links, cut, depth, done, depth - 1);
    if depth > 1 { assert Entry(nums, links, cut, depth, done, depth - 2); }
  }

  /** How the links change when node `done` arrives and is hung to the right of node `above`, if there is one. */
  ghost predicate Hung(links: Links, links': Links, done: nat, above: int) {
    && links.Valid(done) && links'.Valid(done + 1)
    && links.left == links'.left[..done]
    && (if 0 <= above < done then links'.right[..done] == links.right[above := done]
        else links'.right[..done] == links.right)
  }

  lemma CrownedKept(nums: seq<int>, links: Links, links': Links, lo: nat, m: nat, done: nat, above: int)
    requires done < |nums| && Hung(links, links', done, above) && (above < 0 || m <= above < done)
    requires Crowned(nums, links, lo, m, done) && nums[done] <= nums[m]
    ensures Crowned(nums, links', lo, m, done + 1)
  {
    assert SameLinks(links, links', lo, m) by {
      forall k | lo <= k < m ensures links'.left[k] == links.left[k] && links'.right[k] == links.right[k] {
        assert links'.left[k] == links'.left[..done][k] && links'.right[k] == links'.right[..done][k];
      }
    }
    BuiltKept(links.left[m], nums, links, links', lo, m);
    assert links'.left[m] == links'.left[..done][m];
  }

  /** The new node takes what was popped as its left part and becomes the last entry of the spine. */
  lemma SpinePush(nums: seq<int>, links: Links, links': Links, cut: seq<nat>, depth: nat, done: nat)
    requires done < |nums| && depth < |cut| && Hung(links, links', done, cut[depth] as int - 1)
    requires Spine(nums, links, cut, depth, done) && cut[depth] <= done
    requires Below(nums, cut[depth], done, nums[done]) && Built(links'.left[done], nums, links, cut[depth], done)
    requires depth > 0 ==> 0 < cut[depth] && nums[done] <= nums[cut[depth] - 1]
    ensures Spine(nums, links', cut[..depth + 1] + [done + 1], depth + 1, done + 1)
  {
    var cut', d, n := cut[..depth + 1] + [done + 1], depth + 1, done + 1;
    forall j | 0 <= j < d ensures Entry(nums, links', cut', d, n, j) {
      if j < depth {
        EntryKept(nums, links, links', cut, depth, done, j);
      } else {
        NewCrowned(nums, links, links', cut[depth], done, cut[depth] as int - 1);
      }
    }
  }

  lemma NewCrowned(nums: seq<int>, links: Links, links': Links, lo: nat, done: nat, above: int)
    requires lo <= done < |nums| && Hung(links, links', done, above) && above < lo
    requires Below(nums, lo, done, nums[done]) && Built(links'.left[done], nums, links, lo, done)
    ensures Crowned(nums, links', lo, done, done + 1)
  {
    assert SameLinks(links, links', lo, done) by {
      forall k | lo <= k < done ensures links'.left[k] == links.left[k] && links'.right[k] == links.right[k] {
        assert links'.left[k] == links'.left[..done][k] && links'.right[k] == links'.right[..done][k];
      }
    }
    BuiltKept(links'.left[done], nums, links, links', lo, done);
  }

  lemma EntryKept(nums: seq<int>, links: Links, links': Links, cut: seq<nat>, depth: nat, done: nat, j: nat)
    requires j < depth < |cut| && done < |nums| && 0 < cut[depth] <= done
    requires Hung(links, links', done, cut[depth] as int - 1)
    requires Spine(nums, links, cut, depth, done) && nums[done] <= nums[cut[depth] - 1]
    ensures Entry(nums, links', cut[..depth + 1] + [done + 1], depth + 1, done + 1, j)
  {
    assert Entry(nums, links, cut, depth, done, j);
    var m := cut[j + 1] - 1;
    if j + 1 < depth { CutsIncrease(nums, links, cut, depth, done, j + 1, depth); }
    CrownedKept(nums, links, links', cut[j], m, done, cut[depth] as int - 1);
    assert links'.right[m] == links'.right[..done][m];
  }

  // ---------- the construction ----------

  /** The stack entry for cut[j + 1] is the node just before that cut. */
  ghost predicate StackedAt(s: seq<TreeNode>, store: seq<TreeNode>, cut: seq<nat>, j: nat)
    requires j < |s| < |cut|
  {
    0 < cut[j + 1] <= |store| && s[j] == store[cut[j + 1] - 1]
  }

  /** The stack holds, for each spine entry, the node that entry is about. */
  ghost predicate Stacked(s: seq<TreeNode>, store: seq<TreeNode>, cut: seq<nat>) {
    && |s| < |cut|
    && forall j :: 0 <= j < |s| ==> StackedAt(s, store, cut, j)
  }

  /** The nodes carry the numbers so far, and the stack is the right spine of what the modelled links say. */
  ghost predicate Shaped(nums: seq<int>, store: seq<TreeNode>, s: seq<TreeNode>, links: Links, cut: seq<nat>) {
    && Carries(store, nums) && Once(store) && links.Valid(|store|)
    && Stacked(s, store, cut) && Spine(nums, links, cut, |s|, |store|)
  }

  /** What holds between two numbers: that, and the nodes are linked as modelled. */
  ghost predicate State(nums: seq<int>, store: seq<TreeNode>, s: seq<TreeNode>, links: Links, cut: seq<nat>)
    reads store
  {
    Shaped(nums, store, s, links, cut) && links.Describes(store)
  }

  /** Node `hang` is the root of all that was popped: it is below the new number, and the spine's top still leads to it. */
  ghost predicate Popped(nums: seq<int>, links: Links, cut: seq<nat>, depth: nat, done: nat, hang: int) {
    && done < |nums| && done == |links.left| == |links.right| && depth < |cut| && -1 <= hang < done
    && cut[depth] <= done && Below(nums, cut[depth], done, nums[done]) && Built(hang, nums, links, cut[depth], done)
    && (depth > 0 ==> 0 < cut[depth] && links.right[cut[depth] - 1] == hang)
  }

  lemma StackedTop(s: seq<TreeNode>, store: seq<TreeNode>, cut: seq<nat>)
    requires Stacked(s, store, cut) && s != []
    ensures 0 < cut[|s|] <= |store| && s[|s| - 1] == store[cut[|s|] - 1]
    ensures Stacked(s[..|s| - 1], store, cut)
  {
    assert StackedAt(s, store, cut, |s| - 1);
    var s' := s[..|s| - 1];
    forall j | 0 <= j < |s'| ensures StackedAt(s', store, cut, j) {
      assert StackedAt(s, store, cut, j);
    }
  }

  lemma PopStep(nums: seq<int>, store: seq<TreeNode>, s: seq<TreeNode>, links: Links, cut: seq<nat>, hang: int)
    returns (s': seq<TreeNode>, hang': int)
    requires Shaped(nums, store, s, links, cut) && s != [] && Popped(nums, links, cut, |s|, |store|, hang)
    requires s[|s| - 1].value < nums[|store|]
    ensures s' == s[..|s| - 1] && 0 <= hang' < |store| && store[hang'] == s[|s| - 1]
    ensures Shaped(nums, store, s', links, cut) && Popped(nums, links, cut, |s'|, |store|, hang')
  {
    var depth, done := |s|, |store|;
    s', hang' := s[..depth - 1], cut[depth] - 1;
    StackedTop(s, store, cut);
    var top := cut[depth] - 1;
    assert nums[top] < nums[done];
    PoppedBuilt(nums, links, cut, depth, done);
    SpinePop(nums, links, cut, depth, done);
    assert Below(nums, cut[depth - 1], done, nums[done]);
  }

  /** The links after node `store[|store| - 1]` took `hang` to its left and was hung to the right of `above`. */
  function Grown(links: Links, hang: int, above: int): Links
    requires |links.left| == |links.right|
  {
    var done := |links.left|;
    Links(links.left + [hang], (if 0 <= above < done then links.right[above := done] else links.right) + [-1])
  }

  /** The nodes are linked as described, but that the right link of the one above leads to the new node. */
  ghost predicate LinkedExcept(store: seq<TreeNode>, node: TreeNode, links: Links, above: int)
    requires links.Valid(|store|) && above < |store|
    reads store
  {
    && (forall k {:trigger links.left[k]} :: 0 <= k < |store| ==> store[k].left == At(store, links.left[k]))
    && (forall k {:trigger links.right[k]} :: 0 <= k < |store| && k != above ==> store[k].right == At(store, links.right[k]))
    && (above >= 0 ==> store[above].right == node)
  }

  lemma GrownDescribes(links: Links, store: seq<TreeNode>, node: TreeNode, hang: int, above: int)
    requires links.Valid(|store|) && -1 <= hang < |store| && -1 <= above < |store|
    requires LinkedExcept(store, node, links, above) && node.left == At(store, hang) && node.right == null
    ensures Grown(links, hang, above).Valid(|store| + 1) && Grown(links, hang, above).Describes(store + [node])
  {
  }

  /** The spine, the new node having taken what was popped. */
  lemma SpineGrown(nums: seq<int>, links: Links, cut: seq<nat>, depth: nat, done: nat, hang: int)
    requires links.Valid(done) && done < |nums| && depth < |cut| && Spine(nums, links, cut, depth, done)
    requires Popped(nums, links, cut, depth, done, hang)
    requires depth > 0 ==> nums[done] <= nums[cut[depth] - 1]
    ensures var links', cut' := Grown(links, hang, cut[depth] as int - 1), cut[..depth + 1] + [done + 1];
      && |links'.left| == |links'.right| == done + 1 && links'.right[done] == -1
      && Spine(nums, links', cut', depth + 1, done + 1) && cut'[depth + 1] == done + 1
  {
    var above := cut[depth] as int - 1;
    var links' := Grown(links, hang, above);
    assert Hung(links, links', done, above);
    assert SameLinks(links, links', cut[depth], done) by {
      forall k | cut[depth] <= k < done ensures links'.left[k] == links.left[k] && links'.right[k] == links.right[k] {}
    }
    BuiltKept(hang, nums, links, links', cut[depth], done);
    SpinePush(nums, links, links', cut, depth, done);
  }

  /** The state after the links of the nodes have changed as the model of them has. */
  lemma StatePushed(nums: seq<int>, store: seq<TreeNode>, node: TreeNode, s: seq<TreeNode>, links: Links, cut: seq<nat>,
                    hang: int, above: int)
    requires |store| < |nums| && Carries(store, nums) && Once(store) && node !in store && node.value == nums[|store|]
    requires links.Valid(|store|) && -1 <= hang < |store| && -1 <= above < |store| && Stacked(s, store, cut)
    requires LinkedExcept(store, node, links, above) && node.left == At(store, hang) && node.right == null
    requires Spine(nums, Grown(links, hang, above), cut[..|s| + 1] + [|store| + 1], |s| + 1, |store| + 1)
    ensures State(nums, store + [node], s + [node], Grown(links, hang, above), cut[..|s| + 1] + [|store| + 1])
  {
    StackedPush(s, store, cut, node);
    GrownDescribes(links, store, node, hang, above);
  }

  lemma StackedPush(s: seq<TreeNode>, store: seq<TreeNode>, cut: seq<nat>, node: TreeNode)
    requires Stacked(s, store, cut)
    ensures Stacked(s + [node], store + [node], cut[..|s| + 1] + [|store| + 1])
  {
    var s', store' := s + [node], store + [node];
    var cut': seq<nat> := cut[..|s| + 1] + [|store| + 1];
    forall j | 0 <= j < |s'| ensures StackedAt(s', store', cut', j) {
      if j < |s| { assert StackedAt(s, store, cut, j); }
    }
  }

  /** When all is done, the bottom of the stack is the root of everything. */
  lemma BottomIsRoot(nums: seq<int>, store: seq<TreeNode>, s: seq<TreeNode>, links: Links, cut: seq<nat>) returns (root: nat)
    requires Shaped(nums, store, s, links, cut) && |store| == |nums| > 0
    requires s != [] && cut[|s|] == |nums| && links.right[|nums| - 1] == -1
    ensures root < |store| && s[0] == store[root] && Built(root, nums, links, 0, |nums|)
  {
    var depth, n := |s|, |nums|;
    assert Entry(nums, links, cut, depth, n, 0) && StackedAt(s, store, cut, 0) && cut[0] == 0;
    SpineBuilt(nums, links, cut, depth, n, 0);
    root := cut[1] - 1;
  }

  lemma Finish(nums: seq<int>, store: seq<TreeNode>, s: seq<TreeNode>, links: Links, cut: seq<nat>)
    requires State(nums, store, s, links, cut) && |store| == |nums| > 0
    requires s != [] && cut[|s|] == |nums| && links.right[|nums| - 1] == -1
    ensures Spells(s[0], MaxTreeOf(nums, 0, |nums|), store, 0, |nums|)
  {
    var root := BottomIsRoot(nums, store, s, links, cut);
    BuiltSpells(root, nums, links, store, 0, |nums|);
  }

  /** Takes off the stack what is lower than the new node; the last of it becomes the node's left child. */
  method PopLower(stack: seq<TreeNode>, node: TreeNode, ghost nums: seq<int>, ghost store: seq<TreeNode>,
                  ghost links: Links, ghost cut: seq<nat>)
    returns (s: seq<TreeNode>, ghost hang: int, ghost pops: nat)
    requires State(nums, store, stack, links, cut) && Popped(nums, links, cut, |stack|, |store|, -1)
    requires node !in store && node.value == nums[|store|] && node.left == null
    modifies node`left
    ensures State(nums, store, s, links, cut) && Popped(nums, links, cut, |s|, |store|, hang)
    ensures node.left == At(store, hang)
    ensures s != [] ==> s[|s| - 1].value >= node.value
    ensures |s| + pops == |stack|
  {
    s, hang, pops := stack, -1, 0;
    while s != [] && s[|s| - 1].value < node.value
      invariant Shaped(nums, store, s, links, cut) && links.Describes(store)
      invariant Popped(nums, links, cut, |s|, |store|, hang)
      invariant node.left == At(store, hang) && |s| + pops == |stack|
      decreases |s|
    {
      ghost var s';
      s', hang := PopStep(nums, store, s, links, cut, hang);
      var top := |s| - 1;
      node.left := s[top];
      s := s[..top];
      pops := pops + 1;
    }
  }

  /** Hangs the node to the right of the top of the stack and pushes it. */
  method PushNode(stack: seq<TreeNode>, node: TreeNode, ghost nums: seq<int>, ghost store: seq<TreeNode>,
                  ghost links: Links, ghost cut: seq<nat>, ghost hang: int)
    returns (s: seq<TreeNode>, ghost links': Links, ghost cut': seq<nat>)
    requires State(nums, store, stack, links, cut) && Popped(nums, links, cut, |stack|, |store|, hang)
    requires node !in store && node.value == nums[|store|] && node.left == At(store, hang) && node.right == null
    requires stack != [] ==> stack[|stack| - 1].value >= node.value
    modifies if stack == [] then {} else {stack[|stack| - 1]}
    ensures s == stack + [node] && State(nums, store + [node], s, links', cut')
    ensures cut'[|s|] == |store| + 1 && links'.right[|store|] == -1
  {
    ghost var above: int := cut[|stack|] as int - 1;
    links' := Grown(links, hang, above);
    cut' := cut[..|stack| + 1] + [|store| + 1];
    if stack != [] { StackedTop(stack, store, cut); }
    SpineGrown(nums, links, cut, |stack|, |store|, hang);
    if stack != [] {
      stack[|stack| - 1].right := node;
    }
    s := stack + [node];
    StatePushed(nums, store, node, stack, links, cut, hang, above);
  }

  /** One number: a new node for it, the pops and the push. */
  method Grow(t: Tree, v: int, stack: seq<TreeNode>, ghost nums: seq<int>, ghost links: Links, ghost cut: seq<nat>)
    returns (s: seq<TreeNode>, ghost links': Links, ghost cut': seq<nat>, ghost pops: nat)
    requires State(nums, t.store, stack, links, cut) && |t.store| < |nums| && v == nums[|t.store|]
    requires cut[|stack|] == |t.store| && (t.store != [] ==> stack != [] && links.right[|t.store| - 1] == -1)
    modifies t`store, set n | n in t.store
    ensures t.store != [] && t.store[..|t.store| - 1] == old(t.store) && fresh(t.store[|t.store| - 1])
    ensures State(nums, t.store, s, links', cut')
    ensures s != [] && cut'[|s|] == |t.store| && links'.right[|t.store| - 1] == -1
    ensures |s| + pops == |stack| + 1
  {
    ghost var built := t.store;
    var node := t.Add(v);
    assert Popped(nums, links, cut, |stack|, |built|, -1) by {
      if stack != [] { StackedTop(stack, built, cut); }
    }
    ghost var hang;
    s, hang, pops := PopLower(stack, node, nums, built, links, cut);
    if s != [] { StackedTop(s, built, cut); }
    s, links', cut' := PushNode(s, node, nums, built, links, cut, hang);
  }

  /**
   * Builds the tree in one pass, with fewer pops in all than there are numbers. With repeated values the leftmost
   * maximum becomes the root.
   */
  method MakeMaxTree(nums: seq<int>) returns (t: Tree, ghost pops: nat)
    requires nums != []
    ensures fresh(t) && |t.store| == |nums| && Once(t.store)
    ensures Spells(t.root, MaxTreeOf(nums, 0, |nums|), t.store, 0, |nums|)
    ensures pops < |nums|
  {
    pops := 0;
    t := new Tree();
    var s: seq<TreeNode> := [];
    ghost var cut: seq<nat> := [0];
    ghost var links := Links([], []);
    for i := 0 to |nums|
      invariant fresh(t) && fresh(t.store) && |t.store| == i
      invariant State(nums, t.store, s, links, cut) && cut[|s|] == i && |s| + pops == i
      invariant i > 0 ==> s != [] && links.right[i - 1] == -1
    {
      ghost var popped;
      s, links, cut, popped := Grow(t, nums[i], s, nums, links, cut);
      pops := pops + popped;
    }
    Finish(nums, t.store, s, links, cut);
    t.root := s[0];
  }
}
