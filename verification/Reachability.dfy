/** What walks lead to around the vertices already visited. */
module Reachability {
  import opened Graphs
  import opened Sequences

  /** A walk of n edges leads from s to v, and after s it keeps off the vertices to avoid. */
  ghost predicate Reaches(g: Adjacency, avoid: set<int>, s: int, v: int, n: nat) {
    exists p :: Leads(g, avoid, s, v, n, p)
  }

  ghost predicate Leads(g: Adjacency, avoid: set<int>, s: int, v: int, n: nat, p: seq<int>) {
    WalkBetween(g, p, s, v) && |p| == n + 1 && forall i :: 1 <= i < |p| ==> p[i] !in avoid
  }

  ghost predicate Reachable(g: Adjacency, avoid: set<int>, s: int, v: int) {
    exists n :: Reaches(g, avoid, s, v, n)
  }

  /** The number of edges of a shortest such walk. */
  ghost predicate AtDistance(g: Adjacency, avoid: set<int>, s: int, v: int, d: nat) {
    Reaches(g, avoid, s, v, d) && forall n :: Reaches(g, avoid, s, v, n) ==> d <= n
  }

  lemma ReachesSelf(g: Adjacency, avoid: set<int>, s: int)
    ensures Reaches(g, avoid, s, s, 0)
  {
    assert Leads(g, avoid, s, s, 0, [s]);
  }

  lemma ReachesNext(g: Adjacency, avoid: set<int>, s: int, u: int, w: int, n: nat)
    requires Reaches(g, avoid, s, u, n) && w in Neighbours(g, u) && w !in avoid
    ensures Reaches(g, avoid, s, w, n + 1)
  {
    var p :| Leads(g, avoid, s, u, n, p);
    WalkAppend(g, p, w);
    assert Leads(g, avoid, s, w, n + 1, p + [w]);
  }

  /** Going first to a neighbour that is not avoided, then on around even more vertices. */
  lemma ReachesThrough(g: Adjacency, avoid: set<int>, more: set<int>, s: int, w: int, v: int, n: nat)
    requires w in Neighbours(g, s) && w !in avoid && avoid <= more && Reaches(g, more, w, v, n)
    ensures Reaches(g, avoid, s, v, n + 1)
  {
    var p :| Leads(g, more, w, v, n, p);
    WalkPrepend(g, s, p);
    assert Leads(g, avoid, s, v, n + 1, [s] + p);
  }

  /** The first k nodes were visited before or are in the list. */
  ghost predicate Covered(nodes: seq<int>, k: nat, avoid: set<int>, out: seq<int>) {
    k <= |nodes| && forall i :: 0 <= i < k ==> nodes[i] in avoid || nodes[i] in out
  }

  lemma CoveredMore(nodes: seq<int>, k: nat, avoid: set<int>, out: seq<int>, sub: seq<int>)
    requires Covered(nodes, k, avoid, out) && k < |nodes| && nodes[k] in out + sub
    ensures Covered(nodes, k + 1, avoid, out + sub)
  {
  }

  /** All neighbours of u are avoided or in the set. */
  ghost predicate Explored(g: Adjacency, avoid: set<int>, u: int, found: set<int>) {
    forall w :: w in Neighbours(g, u) ==> w in avoid || w in found
  }

  /** What contains s and is explored contains everything reachable. */
  lemma {:induction false} ExploredIsComplete(g: Adjacency, avoid: set<int>, s: int, found: set<int>, p: seq<int>)
    requires s in found && forall u :: u in found ==> Explored(g, avoid, u, found)
    requires IsWalk(g, p) && p[0] == s && forall i :: 1 <= i < |p| ==> p[i] !in avoid
    ensures p[|p| - 1] in found
    decreases |p|
  {
    if |p| > 1 {
      WalkPrefix(g, p, |p| - 1);
      ExploredIsComplete(g, avoid, s, found, p[..|p| - 1]);
      var u, w := p[|p| - 2], p[|p| - 2 + 1];
      assert StepAt(g, p, |p| - 2);
      assert Explored(g, avoid, u, found);
      assert w in Neighbours(g, u);
    }
  }

  /** The list is exactly what is reachable from s, each vertex once. */
  ghost predicate ListsReachable(out: seq<int>, g: Adjacency, avoid: set<int>, s: int) {
    Once(out) && forall v :: v in out <==> Reachable(g, avoid, s, v)
  }

  lemma ExploredListsReachable(out: seq<int>, g: Adjacency, avoid: set<int>, s: int)
    requires Once(out) && s in out
    requires forall v :: v in out ==> Reachable(g, avoid, s, v) && Explored(g, avoid, v, Elements(out))
    ensures ListsReachable(out, g, avoid, s)
  {
    forall v | Reachable(g, avoid, s, v) ensures v in out {
      var n :| Reaches(g, avoid, s, v, n);
      var p :| Leads(g, avoid, s, v, n, p);
      ExploredIsComplete(g, avoid, s, Elements(out), p);
    }
  }

  lemma ExploredGrows(g: Adjacency, avoid: set<int>, u: int, found: set<int>, more: set<int>)
    requires Explored(g, avoid, u, found) && found <= more
    ensures Explored(g, avoid, u, more)
  {
  }

  lemma SameGraphSameLists(out: seq<int>, g: Adjacency, h: Adjacency, avoid: set<int>, s: int)
    requires SameGraph(g, h) && ListsReachable(out, h, avoid, s)
    ensures ListsReachable(out, g, avoid, s)
  {
    forall v, n: nat, p ensures Leads(g, avoid, s, v, n, p) <==> Leads(h, avoid, s, v, n, p) {
      SameGraphSameWalks(g, h, p);
    }
    forall v, n ensures Reaches(g, avoid, s, v, n) <==> Reaches(h, avoid, s, v, n) {}
  }

  /** From a vertex that is not avoided only vertices that are not avoided are reached. */
  lemma ReachedNotAvoided(g: Adjacency, avoid: set<int>, s: int, v: int)
    requires s !in avoid && Reachable(g, avoid, s, v)
    ensures v !in avoid
  {
    var n :| Reaches(g, avoid, s, v, n);
    var p :| Leads(g, avoid, s, v, n, p);
  }

  // ---------- undirected graphs ----------

  /** In an undirected graph every walk can be gone back. */
  lemma ReachesBack(g: Adjacency, avoid: set<int>, s: int, v: int, n: nat)
    requires Undirected(g) && s !in avoid && Reaches(g, avoid, s, v, n)
    ensures Reaches(g, avoid, v, s, n)
  {
    var p :| Leads(g, avoid, s, v, n, p);
    WalkBack(g, p);
    assert Leads(g, avoid, v, s, n, Reversed(p));
  }

  /**
   * So of two vertices not yet visited, a search from one lists the other exactly if a search from it lists the one. The
   * first search may leave a graph behind in which empty lists have been entered.
   */
  lemma SearchesMeet(g: Adjacency, h: Adjacency, avoid: set<int>, s: int, v: int, fromS: seq<int>, fromV: seq<int>)
    requires Undirected(g) && SameGraph(g, h) && s !in avoid && v !in avoid
    requires ListsReachable(fromS, g, avoid, s) && ListsReachable(fromV, h, avoid, v)
    ensures v in fromS <==> s in fromV
  {
    SameGraphSameLists(fromV, g, h, avoid, v);
    if Reachable(g, avoid, s, v) {
      var n :| Reaches(g, avoid, s, v, n);
      ReachesBack(g, avoid, s, v, n);
    }
    if Reachable(g, avoid, v, s) {
      var n :| Reaches(g, avoid, v, s, n);
      ReachesBack(g, avoid, v, s, n);
    }
  }
}
