/** In which order searches list vertices, told from the graph and the list alone. */
module SearchOrder {
  import opened Graphs
  import opened Reachability
  import opened Sequences

  // ---------- neighbours in the order of their list ----------

  /** The nodes that were not seen, each once, in the order in which they first occur. */
  ghost function Unseen(nodes: seq<int>, seen: set<int>): seq<int> {
    if nodes == [] then [] else
      var front, last := Unseen(nodes[..|nodes| - 1], seen), nodes[|nodes| - 1];
      if last in seen || last in front then front else front + [last]
  }

  lemma {:induction false} UnseenMembers(nodes: seq<int>, seen: set<int>, x: int)
    ensures x in Unseen(nodes, seen) <==> x in nodes && x !in seen
  {
    if nodes != [] {
      UnseenMembers(nodes[..|nodes| - 1], seen, x);
      assert nodes == nodes[..|nodes| - 1] + [nodes[|nodes| - 1]];
    }
  }

  lemma FirstAtSnoc(nodes: seq<int>, w: int, x: int)
    ensures FirstAt(nodes + [w], x) == if x in nodes then FirstAt(nodes, x) else if x == w then |nodes| else |nodes| + 1
  {
    var p, q := FirstAt(nodes, x), FirstAt(nodes + [w], x);
    assert forall k :: 0 <= k < |nodes| ==> (nodes + [w])[k] == nodes[k];
    assert (nodes + [w])[|nodes|] == w;
    assert x in nodes ==> p < |nodes|;
  }

  lemma {:induction false} UnseenAscends(nodes: seq<int>, seen: set<int>, i: nat, j: nat)
    requires i < j < |Unseen(nodes, seen)|
    ensures FirstAt(nodes, Unseen(nodes, seen)[i]) < FirstAt(nodes, Unseen(nodes, seen)[j])
    decreases |nodes|
  {
    var front, w := nodes[..|nodes| - 1], nodes[|nodes| - 1];
    var u := Unseen(front, seen);
    assert nodes == front + [w];
    assert u[i] in u;
    UnseenMembers(front, seen, u[i]);
    FirstAtSnoc(front, w, u[i]);
    if j < |u| {
      assert u[j] in u;
      UnseenMembers(front, seen, u[j]);
      FirstAtSnoc(front, w, u[j]);
      UnseenAscends(front, seen, i, j);
    } else {
      UnseenMembers(front, seen, w);
      FirstAtSnoc(front, w, w);
    }
  }

  // ---------- breadth first, depth first, and with a stack ----------

  datatype Manner = Breadth | Depth | Stack

  /** w is the first neighbour of u that is neither avoided nor listed before. */
  ghost predicate NextFrom(g: Adjacency, avoid: set<int>, before: seq<int>, u: int, w: int) {
    && w in Neighbours(g, u) && w !in avoid && w !in before
    && Covered(Neighbours(g, u), FirstAt(Neighbours(g, u), w), avoid, before)
  }

  /** In breadth first search earlier vertices go first, in depth first search later ones. */
  predicate Precedes(manner: Manner, m: nat, j: nat) {
    if manner.Breadth? then m < j else j < m
  }

  /** Of what is listed, nothing that goes before position j has a neighbour left. */
  ghost predicate Exhausted(manner: Manner, g: Adjacency, avoid: set<int>, before: seq<int>, j: nat) {
    forall m: nat :: m < |before| && Precedes(manner, m, j) ==> Explored(g, avoid, before[m], Elements(before))
  }

  ghost predicate Continues(manner: Manner, g: Adjacency, avoid: set<int>, before: seq<int>, w: int, j: nat) {
    j < |before| && NextFrom(g, avoid, before, before[j], w) && Exhausted(manner, g, avoid, before, j)
  }

  /** The first of the listed vertices that has x as a neighbour; the length of the list if there is none. */
  ghost function Finder(g: Adjacency, out: seq<int>, x: int): (j: nat)
    ensures j <= |out| && (j < |out| ==> x in Neighbours(g, out[j]))
    ensures forall m :: 0 <= m < j ==> x !in Neighbours(g, out[m])
  {
    if out == [] then 0 else
      var j := Finder(g, out[..|out| - 1], x);
      if j == |out| - 1 && x !in Neighbours(g, out[j]) then |out| else j
  }

  /** x was found before y: by an earlier vertex, or by the same one in an earlier place of its list. */
  ghost predicate FoundBefore(g: Adjacency, out: seq<int>, x: int, y: int) {
    var i, j := Finder(g, out, x), Finder(g, out, y);
    i < j || (i == j < |out| && FirstAt(Neighbours(g, out[i]), x) < FirstAt(Neighbours(g, out[i]), y))
  }

  /** Of what was found and is not listed, w was found last. */
  ghost predicate LastFound(g: Adjacency, avoid: set<int>, before: seq<int>, w: int) {
    && w !in avoid && w !in before && Finder(g, before, w) < |before|
    && forall x :: x !in avoid && x !in before && Finder(g, before, x) < |before| && x != w ==> FoundBefore(g, before, x, w)
  }

  /**
   * w is the next neighbour of the first vertex to go that has one; with a stack on which all neighbours are put at once,
   * it is the one found last.
   */
  ghost predicate StepOf(manner: Manner, g: Adjacency, avoid: set<int>, before: seq<int>, w: int) {
    if manner.Stack? then LastFound(g, avoid, before, w)
    else exists j: nat :: Continues(manner, g, avoid, before, w, j)
  }

  ghost predicate Follows(manner: Manner, g: Adjacency, avoid: set<int>, out: seq<int>, i: nat)
    requires i < |out|
  {
    StepOf(manner, g, avoid, out[..i], out[i])
  }

  /** Every vertex but the first continues from those before it. */
  ghost predicate Ordered(manner: Manner, g: Adjacency, avoid: set<int>, out: seq<int>) {
    forall i: nat :: 1 <= i < |out| ==> Follows(manner, g, avoid, out, i)
  }

  lemma NextUnique(g: Adjacency, avoid: set<int>, before: seq<int>, u: int, w: int, w': int)
    requires NextFrom(g, avoid, before, u, w) && NextFrom(g, avoid, before, u, w')
    ensures w == w'
  {
    var nodes := Neighbours(g, u);
    assert nodes[FirstAt(nodes, w)] == w && nodes[FirstAt(nodes, w')] == w';
  }

  lemma StepUnique(manner: Manner, g: Adjacency, avoid: set<int>, before: seq<int>, w: int, w': int)
    requires StepOf(manner, g, avoid, before, w) && StepOf(manner, g, avoid, before, w')
    ensures w == w'
  {
    if manner.Stack? { return; }
    var j: nat :| Continues(manner, g, avoid, before, w, j);
    var j': nat :| Continues(manner, g, avoid, before, w', j');
    NotExplored(g, avoid, before, before[j], w);
    NotExplored(g, avoid, before, before[j'], w');
    assert !Precedes(manner, j, j') && !Precedes(manner, j', j);
    NextUnique(g, avoid, before, before[j], w, w');
  }

  lemma NotExplored(g: Adjacency, avoid: set<int>, before: seq<int>, u: int, w: int)
    requires NextFrom(g, avoid, before, u, w)
    ensures !Explored(g, avoid, u, Elements(before))
  {
  }

  /** A list in order that holds all that is reachable is the only one with the same start. */
  lemma {:induction false} OrderUnique(manner: Manner, g: Adjacency, avoid: set<int>, s: int,
                                       out: seq<int>, out': seq<int>, n: nat)
    requires ListsReachable(out, g, avoid, s) && ListsReachable(out', g, avoid, s)
    requires out != [] && out' != [] && out[0] == out'[0] == s
    requires Ordered(manner, g, avoid, out) && Ordered(manner, g, avoid, out') && n <= |out|
    ensures n <= |out'| && out[..n] == out'[..n]
    ensures n == |out| ==> out == out'
  {
    if n > 0 {
      OrderUnique(manner, g, avoid, s, out, out', n - 1);
      if n > 1 {
        SameListsGoOn(g, avoid, s, out, out', n - 1);
        assert Follows(manner, g, avoid, out, n - 1) && Follows(manner, g, avoid, out', n - 1);
        StepUnique(manner, g, avoid, out[..n - 1], out[n - 1], out'[n - 1]);
      }
      assert out[..n] == out[..n - 1] + [out[n - 1]] && out'[..n] == out'[..n - 1] + [out'[n - 1]];
    }
    if n == |out| && n < |out'| { SameListsGoOn(g, avoid, s, out', out, n); }
  }

  /** Of two lists of the same vertices with the same beginning, none ends before the other. */
  lemma SameListsGoOn(g: Adjacency, avoid: set<int>, s: int, a: seq<int>, b: seq<int>, n: nat)
    requires ListsReachable(a, g, avoid, s) && ListsReachable(b, g, avoid, s)
    requires n < |a| && n <= |b| && a[..n] == b[..n]
    ensures n < |b|
  {
    var x := a[n];
    assert x in a && Reachable(g, avoid, s, x) && x in b;
    var k :| 0 <= k < |b| && b[k] == x;
    assert forall q :: 0 <= q < n ==> a[q] == a[..n][q] && b[q] == b[..n][q];
  }

  /** Appending what the vertex at t finds, when all before it have nothing left. */
  lemma {:induction false} BreadthAppends(g: Adjacency, avoid: set<int>, all: seq<int>, t: nat, k: nat)
    requires t < |all| && k <= |Neighbours(g, all[t])| && Ordered(Breadth, g, avoid, all)
    requires forall m :: 0 <= m < t ==> Explored(g, avoid, all[m], Elements(all))
    ensures Ordered(Breadth, g, avoid, all + Unseen(Neighbours(g, all[t])[..k], avoid + Elements(all)))
    decreases k
  {
    var nodes, seen := Neighbours(g, all[t]), avoid + Elements(all);
    if k == 0 {
      assert all + Unseen(nodes[..k], seen) == all;
    } else {
      BreadthAppends(g, avoid, all, t, k - 1);
      assert nodes[..k][..k - 1] == nodes[..k - 1];
      var before, w := all + Unseen(nodes[..k - 1], seen), nodes[k - 1];
      if w !in seen && w !in Unseen(nodes[..k - 1], seen) {
        FirstAtLeast(nodes, k - 1);
        forall q | 0 <= q < FirstAt(nodes, w) ensures nodes[q] in avoid || nodes[q] in before {
          assert nodes[q] in nodes[..k - 1];
          UnseenMembers(nodes[..k - 1], seen, nodes[q]);
        }
        forall m: nat | m < t ensures Explored(g, avoid, before[m], Elements(before)) {
          ExploredGrows(g, avoid, all[m], Elements(all), Elements(before));
        }
        assert Continues(Breadth, g, avoid, before, w, t);
        OrderedSnoc(Breadth, g, avoid, before, w);
        assert before + [w] == all + Unseen(nodes[..k], seen);
      }
    }
  }

  lemma OrderedSnoc(manner: Manner, g: Adjacency, avoid: set<int>, before: seq<int>, w: int)
    requires Ordered(manner, g, avoid, before) && StepOf(manner, g, avoid, before, w)
    ensures Ordered(manner, g, avoid, before + [w])
  {
    var out, n := before + [w], |before|;
    forall i: nat | 1 <= i < |out| ensures Follows(manner, g, avoid, out, i) {
      if i == n {
        assert out[..n] == before;
      } else {
        assert Follows(manner, g, avoid, before, i) && out[..i] == before[..i];
      }
    }
  }

  /** What a recursive call lists comes behind what was listed, when only the first vertex has anything left. */
  lemma DepthJoins(g: Adjacency, h: Adjacency, avoid: set<int>, out: seq<int>, sub: seq<int>)
    requires out != [] && sub != [] && Ordered(Depth, g, avoid, out) && Continues(Depth, g, avoid, out, sub[0], 0)
    requires SameGraph(g, h) && Ordered(Depth, h, avoid + Elements(out), sub)
    ensures Ordered(Depth, g, avoid, out + sub)
  {
    var all, n := out + sub, |out|;
    forall i: nat | 1 <= i < |all| ensures Follows(Depth, g, avoid, all, i) {
      if i < n {
        assert Follows(Depth, g, avoid, out, i) && all[..i] == out[..i];
      } else if i == n {
        assert all[..n] == out;
      } else {
        assert Follows(Depth, h, avoid + Elements(out), sub, i - n) && all[..i] == out + sub[..i - n];
        StepShifted(g, h, avoid, out, sub[..i - n], sub[i - n]);
      }
    }
  }

  lemma StepShifted(g: Adjacency, h: Adjacency, avoid: set<int>, out: seq<int>, before: seq<int>, w: int)
    requires SameGraph(g, h) && StepOf(Depth, h, avoid + Elements(out), before, w)
    ensures StepOf(Depth, g, avoid, out + before, w)
  {
    var all, n, marked := out + before, |out|, avoid + Elements(out);
    var j: nat :| Continues(Depth, h, marked, before, w, j);
    ExhaustedShifted(g, h, avoid, out, before, j);
    NextShifted(g, h, avoid, out, before, before[j], w);
    assert all[n + j] == before[j];
    assert Continues(Depth, g, avoid, all, w, n + j);
  }

  lemma ExhaustedShifted(g: Adjacency, h: Adjacency, avoid: set<int>, out: seq<int>, before: seq<int>, j: nat)
    requires SameGraph(g, h) && Exhausted(Depth, h, avoid + Elements(out), before, j)
    ensures Exhausted(Depth, g, avoid, out + before, |out| + j)
  {
    var n := |out|;
    forall m: nat | m < n + |before| && n + j < m ensures Explored(g, avoid, (out + before)[m], Elements(out + before)) {
      assert Precedes(Depth, m - n, j) && (out + before)[m] == before[m - n];
      ExploredShifted(g, h, avoid, out, before, before[m - n]);
    }
  }

  /** What is avoided or listed on one side is avoided or listed on the other. */
  lemma ExploredShifted(g: Adjacency, h: Adjacency, avoid: set<int>, out: seq<int>, before: seq<int>, u: int)
    requires SameGraph(g, h) && Explored(h, avoid + Elements(out), u, Elements(before))
    ensures Explored(g, avoid, u, Elements(out + before))
  {
    assert Neighbours(g, u) == Neighbours(h, u);
  }

  lemma NextShifted(g: Adjacency, h: Adjacency, avoid: set<int>, out: seq<int>, before: seq<int>, u: int, w: int)
    requires SameGraph(g, h) && NextFrom(h, avoid + Elements(out), before, u, w)
    ensures NextFrom(g, avoid, out + before, u, w)
  {
    assert Neighbours(g, u) == Neighbours(h, u);
  }

  // ---------- with a stack ----------

  lemma FinderSnoc(g: Adjacency, out: seq<int>, u: int, x: int)
    ensures Finder(g, out + [u], x) ==
      if Finder(g, out, x) < |out| then Finder(g, out, x) else if x in Neighbours(g, u) then |out| else |out| + 1
  {
    assert (out + [u])[..|out|] == out;
  }

  /** On the stack is what was found and is not listed, in the order in which it was found. */
  ghost predicate OnStack(g: Adjacency, out: seq<int>, vec: seq<int>) {
    if out == [] then |vec| == 1 else
      && (forall q :: 0 <= q < |vec| ==> Finder(g, out, vec[q]) < |out|)
      && (forall q, r :: 0 <= q < r < |vec| ==> FoundBefore(g, out, vec[q], vec[r]))
  }

  /** The top of the stack was found last. */
  lemma TopFoundLast(g: Adjacency, avoid: set<int>, out: seq<int>, vec: seq<int>)
    requires out != [] && vec != [] && OnStack(g, out, vec) && Once(out + vec) && vec[|vec| - 1] !in avoid
    requires forall u :: u in out ==> Explored(g, avoid, u, Elements(out + vec))
    ensures LastFound(g, avoid, out, vec[|vec| - 1])
  {
    var top, all := |vec| - 1, out + vec;
    var w := vec[top];
    forall x | x !in avoid && x !in out && Finder(g, out, x) < |out| && x != w ensures FoundBefore(g, out, x, w) {
      var u := out[Finder(g, out, x)];
      assert u in out && Explored(g, avoid, u, Elements(all)) && x in vec;
      var q :| 0 <= q < |vec| && vec[q] == x;
    }
    assert all[|out| + top] == w;
    assert forall k :: 0 <= k < |out| ==> all[k] == out[k];
  }

  /** What was found by a listed vertex was seen. */
  lemma FoundIsSeen(g: Adjacency, avoid: set<int>, out: seq<int>, all: seq<int>, x: int)
    requires forall m :: m in out ==> Explored(g, avoid, m, Elements(all))
    requires Finder(g, out, x) < |out|
    ensures x in avoid || x in all
  {
    var u := out[Finder(g, out, x)];
    assert u in out && Explored(g, avoid, u, Elements(all));
  }

  lemma NewlyFound(g: Adjacency, avoid: set<int>, out: seq<int>, u: int, vec: seq<int>, x: int)
    requires forall m :: m in out ==> Explored(g, avoid, m, Elements(out + (vec + [u])))
    requires x in Unseen(Neighbours(g, u), avoid + Elements(out + [u] + vec))
    ensures Finder(g, out + [u], x) == |out|
  {
    UnseenMembers(Neighbours(g, u), avoid + Elements(out + [u] + vec), x);
    FinderSnoc(g, out, u, x);
    if Finder(g, out, x) < |out| { FoundIsSeen(g, avoid, out, out + (vec + [u]), x); }
  }

  lemma FoundBeforeKept(g: Adjacency, out: seq<int>, u: int, x: int, y: int)
    requires FoundBefore(g, out, x, y) && Finder(g, out, x) < |out| && Finder(g, out, y) < |out|
    ensures FoundBefore(g, out + [u], x, y)
  {
    FinderSnoc(g, out, u, x);
    FinderSnoc(g, out, u, y);
  }

  /** Listing the top and putting what it finds on the stack. */
  lemma StackGrows(g: Adjacency, avoid: set<int>, out: seq<int>, u: int, vec: seq<int>)
    requires OnStack(g, out, vec + [u])
    requires forall m :: m in out ==> Explored(g, avoid, m, Elements(out + (vec + [u])))
    ensures OnStack(g, out + [u], vec + Unseen(Neighbours(g, u), avoid + Elements(out + [u] + vec)))
  {
    var nodes, seen, done := Neighbours(g, u), avoid + Elements(out + [u] + vec), out + [u];
    var found := Unseen(nodes, seen);
    forall q | 0 <= q < |vec| ensures Finder(g, out, vec[q]) < |out| && Finder(g, done, vec[q]) < |out| {
      assert (vec + [u])[q] == vec[q];
      FinderSnoc(g, out, u, vec[q]);
    }
    forall q | 0 <= q < |found| ensures Finder(g, done, found[q]) == |out| { NewlyFound(g, avoid, out, u, vec, found[q]); }
    forall q, r | 0 <= q < r < |vec| ensures FoundBefore(g, done, vec[q], vec[r]) {
      assert (vec + [u])[q] == vec[q] && (vec + [u])[r] == vec[r];
      FoundBeforeKept(g, out, u, vec[q], vec[r]);
    }
    forall q, r | 0 <= q < r < |found| ensures FoundBefore(g, done, found[q], found[r]) { UnseenAscends(nodes, seen, q, r); }
    StackJoins(g, done, vec, found);
  }

  lemma StackJoins(g: Adjacency, done: seq<int>, vec: seq<int>, found: seq<int>)
    requires done != []
    requires forall q :: 0 <= q < |vec| ==> Finder(g, done, vec[q]) < |done| - 1
    requires forall q :: 0 <= q < |found| ==> Finder(g, done, found[q]) == |done| - 1
    requires forall q, r :: 0 <= q < r < |vec| ==> FoundBefore(g, done, vec[q], vec[r])
    requires forall q, r :: 0 <= q < r < |found| ==> FoundBefore(g, done, found[q], found[r])
    ensures OnStack(g, done, vec + found)
  {
    var all, n := vec + found, |vec|;
    forall q, r | 0 <= q < r < |all| ensures FoundBefore(g, done, all[q], all[r]) {
      if r < n {
        assert FoundBefore(g, done, vec[q], vec[r]);
      } else if q >= n {
        assert FoundBefore(g, done, found[q - n], found[r - n]);
      }
    }
  }

  // ---------- depth first: nested blocks ----------

  /** What is reachable from position i around all that comes before it is the block of n vertices that begins there. */
  ghost predicate Block(g: Adjacency, avoid: set<int>, out: seq<int>, i: nat, n: nat) {
    1 <= n && i + n <= |out| && ListsReachable(out[i..i + n], g, avoid + Elements(out[..i]), out[i])
  }

  ghost predicate HasBlock(g: Adjacency, avoid: set<int>, out: seq<int>, i: nat) {
    exists n :: Block(g, avoid, out, i, n)
  }

  /** From some position on, every vertex is followed directly by all that is reachable from it and not listed before. */
  ghost predicate Nested(g: Adjacency, avoid: set<int>, out: seq<int>, from: nat) {
    forall i :: from <= i < |out| ==> HasBlock(g, avoid, out, i)
  }

  lemma SliceOfFront(a: seq<int>, b: seq<int>, i: nat, j: nat)
    requires i <= j <= |a|
    ensures (a + b)[i..j] == a[i..j] && (a + b)[..i] == a[..i]
  {
    forall k | 0 <= k < j - i ensures (a + b)[i..j][k] == a[i..j][k] { assert (a + b)[i + k] == a[i + k]; }
  }

  lemma SliceOfBack(a: seq<int>, b: seq<int>, i: nat, j: nat)
    requires i <= j <= |b|
    ensures (a + b)[|a| + i..|a| + j] == b[i..j] && (a + b)[..|a| + i] == a + b[..i]
  {
    forall k | 0 <= k < j - i ensures (a + b)[|a| + i..|a| + j][k] == b[i..j][k] { assert (a + b)[|a| + i + k] == b[i + k]; }
  }

  lemma NestedGrows(g: Adjacency, h: Adjacency, avoid: set<int>, out: seq<int>, sub: seq<int>)
    requires Nested(g, avoid, out, 1) && SameGraph(g, h) && Nested(h, avoid + Elements(out), sub, 0)
    ensures Nested(g, avoid, out + sub, 1)
  {
    var all, k, marked := out + sub, |out|, avoid + Elements(out);
    forall i | 1 <= i < |all| ensures HasBlock(g, avoid, all, i) {
      if i < k {
        assert HasBlock(g, avoid, out, i);
        var n: nat :| Block(g, avoid, out, i, n);
        SliceOfFront(out, sub, i, i + n);
        assert Block(g, avoid, all, i, n);
      } else {
        assert HasBlock(h, marked, sub, i - k);
        var n: nat :| Block(h, marked, sub, i - k, n);
        SliceOfBack(out, sub, i - k, i - k + n);
        assert all[i..i + n] == sub[i - k..i - k + n];
        assert marked + Elements(sub[..i - k]) == avoid + Elements(all[..i]);
        SameGraphSameLists(all[i..i + n], g, h, avoid + Elements(all[..i]), all[i]);
        assert Block(g, avoid, all, i, n);
      }
    }
  }

  /** What a depth first search from s is to list. */
  ghost predicate DepthFirst(g: Adjacency, avoid: set<int>, s: int, out: seq<int>) {
    && out != [] && out[0] == s && ListsReachable(out, g, avoid, s)
    && Ordered(Depth, g, avoid, out) && Nested(g, avoid, out, 0)
  }

  lemma NestedEnds(g: Adjacency, avoid: set<int>, out: seq<int>)
    requires out != [] && Nested(g, avoid, out, 1) && ListsReachable(out, g, avoid, out[0])
    ensures Nested(g, avoid, out, 0)
  {
    assert out[0..0 + |out|] == out && avoid + Elements(out[..0]) == avoid;
    assert Block(g, avoid, out, 0, |out|);
  }
}
