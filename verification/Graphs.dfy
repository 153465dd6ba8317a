/** Adjacency lists and walks in them. */
module Graphs {
  import opened Sequences

  type Adjacency = map<int, seq<int>>

  /** What the program's map lookup gives: a missing entry counts as an empty list. */
  function Neighbours(g: Adjacency, v: int): seq<int> {
    if v in g then g[v] else []
  }

  /** The same lists, whether missing or empty. */
  ghost predicate SameGraph(g: Adjacency, h: Adjacency) {
    forall v :: Neighbours(g, v) == Neighbours(h, v)
  }

  lemma SameGraphTransitive(g: Adjacency, h: Adjacency, i: Adjacency)
    requires SameGraph(g, h) && SameGraph(h, i)
    ensures SameGraph(g, i)
  {
  }

  /** The step from position i of p leads to a neighbour. */
  ghost predicate StepAt(g: Adjacency, p: seq<int>, i: nat)
    requires i + 1 < |p|
  {
    p[i + 1] in Neighbours(g, p[i])
  }

  /** Consecutive vertices are neighbours. */
  ghost predicate IsWalk(g: Adjacency, p: seq<int>) {
    p != [] && forall i :: 0 <= i < |p| - 1 ==> StepAt(g, p, i)
  }

  /** A walk from s to v. */
  ghost predicate WalkBetween(g: Adjacency, p: seq<int>, s: int, v: int) {
    IsWalk(g, p) && p[0] == s && p[|p| - 1] == v
  }

  lemma SameGraphSameWalks(g: Adjacency, h: Adjacency, p: seq<int>)
    requires SameGraph(g, h)
    ensures IsWalk(g, p) <==> IsWalk(h, p)
  {
    forall i: nat | i + 1 < |p| ensures StepAt(g, p, i) <==> StepAt(h, p, i) {}
  }

  lemma WalkPrefix(g: Adjacency, p: seq<int>, k: nat)
    requires IsWalk(g, p) && 0 < k <= |p|
    ensures IsWalk(g, p[..k])
  {
    forall i | 0 <= i < k - 1 ensures StepAt(g, p[..k], i) { assert StepAt(g, p, i); }
  }

  lemma WalkSuffix(g: Adjacency, p: seq<int>, k: nat)
    requires IsWalk(g, p) && k < |p|
    ensures IsWalk(g, p[k..])
  {
    forall i | 0 <= i < |p| - k - 1 ensures StepAt(g, p[k..], i) { assert StepAt(g, p, k + i); }
  }

  lemma WalkAppend(g: Adjacency, p: seq<int>, w: int)
    requires IsWalk(g, p) && w in Neighbours(g, p[|p| - 1])
    ensures IsWalk(g, p + [w])
  {
    WalkOne(g, w);
    WalkJoin(g, p, [w]);
  }

  lemma WalkPrepend(g: Adjacency, v: int, p: seq<int>)
    requires IsWalk(g, p) && p[0] in Neighbours(g, v)
    ensures IsWalk(g, [v] + p)
  {
    WalkOne(g, v);
    WalkJoin(g, [v], p);
  }

  lemma WalkOne(g: Adjacency, v: int)
    ensures IsWalk(g, [v])
  {
  }

  lemma WalkJoin(g: Adjacency, p: seq<int>, q: seq<int>)
    requires IsWalk(g, p) && IsWalk(g, q) && q[0] in Neighbours(g, p[|p| - 1])
    ensures IsWalk(g, p + q)
  {
    var n := |p|;
    forall i | 0 <= i < n + |q| - 1 ensures StepAt(g, p + q, i) {
      if i < n - 1 { assert StepAt(g, p, i); } else if i >= n { assert StepAt(g, q, i - n); }
    }
  }

  /** The vertices whose flag is set; a missing flag counts as not set. */
  ghost function VisitedIn(m: map<int, bool>): set<int> {
    set v | v in m && m[v]
  }

  /** No edge leads out of the set. */
  ghost predicate Closed(g: Adjacency, universe: set<int>) {
    forall u, w :: u in universe && w in Neighbours(g, u) ==> w in universe
  }

  lemma SameGraphClosed(g: Adjacency, h: Adjacency, universe: set<int>)
    requires SameGraph(g, h) && Closed(g, universe)
    ensures Closed(h, universe)
  {
  }

  // ---------- undirected graphs ----------

  /** The graph with w appended to the neighbours of v. */
  function WithEdge(g: Adjacency, v: int, w: int): Adjacency {
    g[v := Neighbours(g, v) + [w]]
  }

  /** How often w occurs among the neighbours of v. */
  ghost function Edges(g: Adjacency, v: int, w: int): nat {
    multiset(Neighbours(g, v))[w]
  }

  /** Every vertex has another among its neighbours as often as it is among that one's. */
  ghost predicate Undirected(g: Adjacency) {
    forall v, w :: Edges(g, v, w) == Edges(g, w, v)
  }

  lemma MultisetSnoc(s: seq<int>, w: int, b: int)
    ensures multiset(s + [w])[b] == multiset(s)[b] + if b == w then 1 else 0
  {
  }

  lemma EdgesWith(g: Adjacency, v: int, w: int, a: int, b: int)
    ensures Edges(WithEdge(g, v, w), a, b) == Edges(g, a, b) + if a == v && b == w then 1 else 0
  {
    MultisetSnoc(Neighbours(g, v), w, b);
  }

  lemma NeighbourEdges(g: Adjacency, v: int, w: int)
    ensures w in Neighbours(g, v) <==> Edges(g, v, w) > 0
  {
    assert w in multiset(Neighbours(g, v)) <==> w in Neighbours(g, v);
  }

  /** The walk in the other direction. */
  function Reversed(p: seq<int>): (q: seq<int>)
    ensures |q| == |p| && forall i :: 0 <= i < |p| ==> q[i] == p[|p| - 1 - i]
  {
    seq(|p|, i requires 0 <= i < |p| => p[|p| - 1 - i])
  }

  lemma WalkBack(g: Adjacency, p: seq<int>)
    requires Undirected(g) && IsWalk(g, p)
    ensures IsWalk(g, Reversed(p))
  {
    var q, n := Reversed(p), |p|;
    forall i | 0 <= i < n - 1 ensures StepAt(g, q, i) {
      var u, w := p[n - 2 - i], p[n - 2 - i + 1];
      assert StepAt(g, p, n - 2 - i);
      NeighbourEdges(g, u, w);
      NeighbourEdges(g, w, u);
      assert Edges(g, u, w) == Edges(g, w, u);
    }
  }
}
