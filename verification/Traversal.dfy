/** Breadth-first, stack-based and recursive traversal of a graph with a set of visited vertices. */
module Traversal {
  import opened Graphs
  import opened Reachability
  import opened SearchOrder
  import opened Sequences

  // ---------- the state of a search ----------

  /** The vertices a search from s can ever see. */
  function Universe(g: Adjacency, s: int): set<int> {
    {s} + set u, w | u in g && w in g[u] :: w
  }

  /** Vertices done with and vertices still to do, all different, each reached by a walk; levels are walk lengths. */
  ghost predicate Searching(g: Adjacency, avoid: set<int>, s: int, done: seq<int>, todo: seq<int>,
                            level: map<int, nat>) {
    && Once(done + todo) && s in done + todo
    && forall v :: v in done + todo ==>
      && v in Universe(g, s) && (v == s || v !in avoid)
      && v in level && Reaches(g, avoid, s, v, level[v])
  }

  ghost predicate DoneExplored(g: Adjacency, avoid: set<int>, done: seq<int>, todo: seq<int>) {
    forall u :: u in done ==> Explored(g, avoid, u, Elements(done + todo))
  }

  /** Moving a vertex from what is to do to what is done keeps the search state. */
  lemma TakeOne(g: Adjacency, avoid: set<int>, s: int, done: seq<int>, todo: seq<int>, level: map<int, nat>, q: nat)
    requires q < |todo| && Searching(g, avoid, s, done, todo, level) && DoneExplored(g, avoid, done, todo)
    ensures Searching(g, avoid, s, done + [todo[q]], todo[..q] + todo[q + 1..], level)
    ensures Elements(done + todo) == Elements(done + [todo[q]] + (todo[..q] + todo[q + 1..]))
    ensures todo[q] !in done
  {
    var all, all' := done + todo, done + [todo[q]] + (todo[..q] + todo[q + 1..]);
    var d := |done|;
    assert all[d + q] == todo[q];
    forall i | 0 <= i < |all'| ensures all'[i] == all[Origin(d, q, i)] {}
    forall i | 0 <= i < |all| ensures all[i] == all'[Destination(d, q, i)] {}
    forall x ensures x in all <==> x in all' {
      if x in all {
        var i :| 0 <= i < |all| && all[i] == x;
        assert all'[Destination(d, q, i)] == x;
      }
    }
    forall i | 0 <= i < d ensures done[i] != todo[q] { assert all[i] != all[d + q]; }
  }

  /** Where position i of the list after the move comes from, and where position i of the list before it goes. */
  function Origin(d: nat, q: nat, i: nat): nat {
    if i < d then i else if i == d then d + q else if i <= d + q then i - 1 else i
  }

  function Destination(d: nat, q: nat, i: nat): nat {
    if i < d then i else if i == d + q then d else if i < d + q then i + 1 else i
  }

  /** A new neighbour of a vertex that is found is found, one level further. */
  lemma AddOne(g: Adjacency, avoid: set<int>, s: int, done: seq<int>, todo: seq<int>, level: map<int, nat>, u: int,
               w: int)
    requires Searching(g, avoid, s, done, todo, level)
    requires u in done && w in Neighbours(g, u) && w !in avoid && w !in done + todo
    ensures Searching(g, avoid, s, done, todo + [w], level[w := level[u] + 1])
  {
    var level' := level[w := level[u] + 1];
    assert u in done + todo;
    ReachesNext(g, avoid, s, u, w, level[u]);
    assert done + (todo + [w]) == done + todo + [w];
    forall v | v in done + todo
      ensures v in Universe(g, s) && (v == s || v !in avoid) && v in level' && Reaches(g, avoid, s, v, level'[v])
    {
      assert v in level && level'[v] == level[v];
    }
    assert w in Universe(g, s) by { assert u in g && w in g[u]; }
  }

  ghost predicate LevelsKept(all: seq<int>, level: map<int, nat>, level': map<int, nat>) {
    forall v :: v in all ==> v in level && v in level' && level'[v] == level[v]
  }

  /** Levels never drop along the list, and none exceeds top. */
  ghost predicate LevelsRise(all: seq<int>, level: map<int, nat>, top: nat) {
    && (forall i :: 0 <= i < |all| ==> all[i] in level && level[all[i]] <= top)
    && (forall i, j :: 0 <= i < j < |all| ==> all[i] in level && all[j] in level && level[all[i]] <= level[all[j]])
  }

  lemma LevelsRiseAdd(all: seq<int>, level: map<int, nat>, top: nat, w: int)
    requires LevelsRise(all, level, top) && w !in all
    ensures LevelsRise(all + [w], level[w := top], top)
  {
    forall i | 0 <= i < |all| ensures all[i] != w { assert all[i] in all; }
  }

  /** While the neighbours of u are visited: what was known stays as it was, new vertices are one level further than u. */
  ghost predicate Visiting(g: Adjacency, avoid: set<int>, s: int, done: seq<int>, todo0: seq<int>,
                           level0: map<int, nat>, u: int, todo: seq<int>, level: map<int, nat>) {
    && todo0 <= todo && Searching(g, avoid, s, done, todo, level)
    && LevelsKept(done + todo0, level0, level) && u in level0
    && (LevelsRise(done + todo0, level0, level0[u] + 1) ==> LevelsRise(done + todo, level, level0[u] + 1))
  }

  lemma VisitOne(g: Adjacency, avoid: set<int>, s: int, done: seq<int>, todo0: seq<int>, level0: map<int, nat>, u: int,
                 todo: seq<int>, level: map<int, nat>, w: int)
    requires Visiting(g, avoid, s, done, todo0, level0, u, todo, level)
    requires u in done && w in Neighbours(g, u) && w !in avoid && w !in done + todo
    ensures Visiting(g, avoid, s, done, todo0, level0, u, todo + [w], level[w := level0[u] + 1])
    ensures done + (todo + [w]) == done + todo + [w] && Elements(done + todo + [w]) == Elements(done + todo) + {w}
  {
    assert u in done + todo0;
    AddOne(g, avoid, s, done, todo, level, u, w);
    assert done + (todo + [w]) == done + todo + [w];
    if LevelsRise(done + todo, level, level0[u] + 1) { LevelsRiseAdd(done + todo, level, level0[u] + 1, w); }
  }

  /** Neighbours of what is done are at most one level further. */
  ghost predicate LevelsStep(g: Adjacency, avoid: set<int>, done: seq<int>, level: map<int, nat>) {
    forall u, w :: u in done && w in Neighbours(g, u) && w !in avoid ==>
      u in level && w in level && level[w] <= level[u] + 1
  }

  /** Then no walk is shorter than the level of the vertex it leads to. */
  lemma {:induction false} LevelIsShortest(g: Adjacency, avoid: set<int>, s: int, done: seq<int>,
                                           level: map<int, nat>, p: seq<int>)
    requires s in done && s in level && level[s] == 0 && LevelsStep(g, avoid, done, level)
    requires forall u :: u in done ==> Explored(g, avoid, u, Elements(done))
    requires IsWalk(g, p) && p[0] == s && forall i :: 1 <= i < |p| ==> p[i] !in avoid
    ensures p[|p| - 1] in level && level[p[|p| - 1]] <= |p| - 1
    decreases |p|
  {
    if |p| > 1 {
      var q := p[..|p| - 1];
      WalkPrefix(g, p, |p| - 1);
      LevelIsShortest(g, avoid, s, done, level, q);
      ExploredIsComplete(g, avoid, s, Elements(done), q);
      var u, w := p[|p| - 2], p[|p| - 2 + 1];
      assert StepAt(g, p, |p| - 2) && w in Neighbours(g, u) && w !in avoid;
    }
  }

  /** The vertices come in the order of their distances. */
  ghost predicate ByDistance(out: seq<int>, g: Adjacency, avoid: set<int>, s: int) {
    forall i, j, d, e ::
      0 <= i < j < |out| && AtDistance(g, avoid, s, out[i], d) && AtDistance(g, avoid, s, out[j], e) ==> d <= e
  }

  lemma LevelsAreDistances(out: seq<int>, g: Adjacency, avoid: set<int>, s: int, level: map<int, nat>, top: nat)
    requires Searching(g, avoid, s, out, [], level) && DoneExplored(g, avoid, out, [])
    requires level[s] == 0 && LevelsRise(out, level, top) && LevelsStep(g, avoid, out, level)
    ensures ListsReachable(out, g, avoid, s) && ByDistance(out, g, avoid, s)
  {
    assert out + [] == out;
    ExploredListsReachable(out, g, avoid, s);
    forall i, d | 0 <= i < |out| && AtDistance(g, avoid, s, out[i], d) ensures d == level[out[i]] {
      var v := out[i];
      assert v in out && Reaches(g, avoid, s, v, level[v]);
      var p :| Leads(g, avoid, s, v, d, p);
      LevelIsShortest(g, avoid, s, out, level, p);
    }
  }

  // ---------- undirected graphs ----------

  /** Between v and w, in both directions, there is one edge more; all others are as they were. */
  ghost predicate OneEdgeMore(g: Adjacency, h: Adjacency, v: int, w: int) {
    forall a, b :: Edges(h, a, b) == Edges(g, a, b) + Same(a, b, v, w) + Same(a, b, w, v)
  }

  function Same(a: int, b: int, v: int, w: int): nat {
    if a == v && b == w then 1 else 0
  }

  /** Every list begins with what it was. */
  ghost predicate Extends(g: Adjacency, h: Adjacency) {
    forall a :: Neighbours(g, a) <= Neighbours(h, a)
  }

  lemma AddedEdges(g: Adjacency, h: Adjacency, v: int, w: int)
    requires h == WithEdge(WithEdge(g, v, w), w, v)
    ensures (Undirected(g) ==> Undirected(h)) && OneEdgeMore(g, h, v, w) && Extends(g, h)
  {
    var g' := WithEdge(g, v, w);
    forall a, b ensures Edges(h, a, b) == Edges(g, a, b) + Same(a, b, v, w) + Same(a, b, w, v) {
      EdgesWith(g, v, w, a, b);
      EdgesWith(g', w, v, a, b);
    }
    OneEdgeMoreUndirected(g, h, v, w);
    ExtendsWith(g, v, w);
    ExtendsWith(g', w, v);
    ExtendsTransitive(g, g', h);
  }

  lemma ExtendsWith(g: Adjacency, v: int, w: int)
    ensures Extends(g, WithEdge(g, v, w))
  {
    var h := WithEdge(g, v, w);
    forall a ensures Neighbours(g, a) <= Neighbours(h, a) {
      if a == v { assert Neighbours(h, a) == Neighbours(g, a) + [w]; } else { assert Neighbours(h, a) == Neighbours(g, a); }
    }
  }

  lemma ExtendsTransitive(g: Adjacency, h: Adjacency, i: Adjacency)
    requires Extends(g, h) && Extends(h, i)
    ensures Extends(g, i)
  {
    forall a ensures Neighbours(g, a) <= Neighbours(i, a) {
      assert Neighbours(g, a) <= Neighbours(h, a) && Neighbours(h, a) <= Neighbours(i, a);
    }
  }

  lemma OneEdgeMoreUndirected(g: Adjacency, h: Adjacency, v: int, w: int)
    requires OneEdgeMore(g, h, v, w)
    ensures Undirected(g) ==> Undirected(h)
  {
    if Undirected(g) {
      forall a, b ensures Edges(h, a, b) == Edges(h, b, a) { assert Edges(g, a, b) == Edges(g, b, a); }
    }
  }

  // ---------- the graph ----------

  class Graph {
    var visited: map<int, bool>
    var graph: Adjacency

    constructor ()
      ensures visited == map[] && graph == map[] && Undirected(graph)
    {
      visited, graph := map[], map[];
    }

    ghost function Visited(): set<int>
      reads this
    {
      VisitedIn(visited)
    }

    /**
     * An undirected edge: one more w among the neighbours of v and one more v among those of w, behind what was there,
     * and nothing else, so that the graph stays undirected.
     */
    method Add(v: int, w: int)
      modifies this`graph
      ensures Undirected(old(graph)) ==> Undirected(graph)
      ensures OneEdgeMore(old(graph), graph, v, w) && Extends(old(graph), graph)
    {
      ghost var g := graph;
      graph := graph[v := Neighbours(graph, v) + [w]];
      graph := graph[w := Neighbours(graph, w) + [v]];
      AddedEdges(g, graph, v, w);
    }

    method Mark(v: int)
      modifies this`visited
      ensures Visited() == old(Visited()) + {v}
    {
      visited := visited[v := true];
    }

    /** The lookup visited[v], which enters v as not visited if it is missing. */
    method IsVisited(v: int) returns (yes: bool)
      modifies this`visited
      ensures yes <==> v in old(Visited())
      ensures Visited() == old(Visited())
    {
      if v !in visited { visited := visited[v := false]; }
      yes := visited[v];
    }

    method AdjacentTo(v: int) returns (nodes: seq<int>)
      modifies this`graph
      ensures nodes == Neighbours(old(graph), v) && SameGraph(old(graph), graph)
    {
      if v !in graph { graph := graph[v := []]; }
      nodes := graph[v];
    }

    /** The inner loop of both searches: marks the unvisited neighbours of the vertex at hand and appends them. */
    method Visit(todo0: seq<int>, nodes: seq<int>, ghost g: Adjacency, ghost avoid: set<int>, ghost s: int,
                 ghost done: seq<int>, ghost level0: map<int, nat>)
      returns (todo: seq<int>, ghost level: map<int, nat>)
      requires done != [] && nodes == Neighbours(g, done[|done| - 1])
      requires Searching(g, avoid, s, done, todo0, level0) && done[|done| - 1] in level0
      requires Visited() == avoid + Elements(done + todo0)
      modifies this`visited
      ensures VisitedFrom(g, avoid, s, done, todo0, level0, todo, level)
      ensures Visited() == avoid + Elements(done + todo)
    {
      todo, level := todo0, level0;
      ghost var u := done[|done| - 1];
      assert u in done + todo0;
      for k := 0 to |nodes|
        invariant Visiting(g, avoid, s, done, todo0, level0, u, todo, level)
        invariant todo == todo0 + Unseen(nodes[..k], avoid + Elements(done + todo0))
        invariant Visited() == avoid + Elements(done + todo)
      {
        var it := nodes[k];
        UnseenNext(nodes, k, avoid, done, todo0, todo);
        var seen := IsVisited(it);
        if !seen {
          Mark(it);
          VisitOne(g, avoid, s, done, todo0, level0, u, todo, level, it);
          todo := todo + [it];
          level := level[it := level0[u] + 1];
        }
      }
      assert nodes[..|nodes|] == nodes;
      UnseenExplores(g, avoid, done, todo0, todo, u);
    }

    /** Breadth first: the vertices in the order in which they are printed. */
    method Bfs(s: int) returns (out: seq<int>)
      modifies this
      ensures SameGraph(old(graph), graph)
      ensures ListsReachable(out, old(graph), old(Visited()), s)
      ensures ByDistance(out, old(graph), old(Visited()), s)
      ensures out != [] && out[0] == s && Ordered(Breadth, old(graph), old(Visited()), out)
      ensures Visited() == old(Visited()) + Elements(out)
    {
      ghost var g, avoid := graph, Visited();
      Mark(s);
      var queue := [s];
      out := [];
      ghost var level: map<int, nat>, top := map[s := 0], 0;
      BfsStarts(g, avoid, s);
      while queue != []
        invariant SameGraph(g, graph) && Visited() == avoid + Elements(out + queue)
        invariant BfsState(g, avoid, s, out, queue, level, top)
        decreases Universe(g, s) - Elements(out)
      {
        var u := queue[0];
        ghost var queue0, level0, h := queue, level, graph;
        BfsTakes(g, avoid, s, out, queue, level, top);
        var nodes := AdjacentTo(u);
        SameGraphTransitive(g, h, graph);
        queue, level := Visit(queue[1..], nodes, g, avoid, s, out + [u], level);
        BfsRound(g, avoid, s, out, queue0, level0, top, queue, level);
        top := level0[u] + 1;
        out := out + [u];
      }
      BfsEnds(g, avoid, s, out, level, top);
    }

    /** Depth first with an explicit stack; vertices are marked when pushed. */
    method Dfs1(s: int) returns (out: seq<int>)
      modifies this
      ensures SameGraph(old(graph), graph)
      ensures ListsReachable(out, old(graph), old(Visited()), s)
      ensures out != [] && out[0] == s && Ordered(Stack, old(graph), old(Visited()), out)
      ensures Visited() == old(Visited()) + Elements(out)
    {
      ghost var g, avoid := graph, Visited();
      Mark(s);
      var vec := [s];
      out := [];
      ghost var level: map<int, nat> := map[s := 0];
      Dfs1Starts(g, avoid, s);
      while vec != []
        invariant SameGraph(g, graph) && Visited() == avoid + Elements(out + vec)
        invariant Dfs1State(g, avoid, s, out, vec, level)
        decreases Universe(g, s) - Elements(out)
      {
        var last := |vec| - 1;
        var u := vec[last];
        ghost var vec0, level0, h := vec, level, graph;
        Dfs1Takes(g, avoid, s, out, vec, level);
        var nodes := AdjacentTo(u);
        SameGraphTransitive(g, h, graph);
        vec, level := Visit(vec[..last], nodes, g, avoid, s, out + [u], level);
        Dfs1Round(g, avoid, s, out, vec0, level0, vec, level);
        out := out + [u];
      }
      Dfs1Ends(g, avoid, s, out, level);
    }

    /** Depth first by recursion. The ghost argument bounds the vertices there are. */
    method Dfs(v: int, ghost universe: set<int>) returns (out: seq<int>)
      requires v in universe && Closed(graph, universe)
      modifies this
      ensures SameGraph(old(graph), graph)
      ensures DepthFirst(old(graph), old(Visited()), v, out)
      ensures Visited() == old(Visited()) + Elements(out)
      decreases universe - Visited() - {v}
    {
      ghost var g, avoid := graph, Visited();
      Mark(v);
      out := [v];
      var nodes := AdjacentTo(v);
      DfsStarts(g, avoid, v);
      for k := 0 to |nodes|
        invariant SameGraph(g, graph) && Visited() == avoid + Elements(out)
        invariant DfsState(g, avoid, v, out, k)
      {
        var id := nodes[k];
        var seen := IsVisited(id);
        if !seen {
          ghost var h := graph;
          assert id in Neighbours(g, v) && id in universe - avoid - {v};
          SameGraphClosed(g, h, universe);
          var sub := Dfs(id, universe);
          SameGraphTransitive(g, h, graph);
          DfsNext(g, h, avoid, v, out, k, sub);
          out := out + sub;
        }
      }
      DfsEnds(g, avoid, v, out);
    }
  }

  /** All but v itself is explored. */
  ghost predicate DfsExplored(g: Adjacency, avoid: set<int>, v: int, out: seq<int>) {
    && Once(out) && out != [] && out[0] == v
    && forall x :: x in out ==> Reachable(g, avoid, v, x) && (x == v || Explored(g, avoid, x, Elements(out)))
  }

  /** When the first k neighbours of v have been visited. */
  ghost predicate DfsState(g: Adjacency, avoid: set<int>, v: int, out: seq<int>, k: nat) {
    && DfsExplored(g, avoid, v, out) && Covered(Neighbours(g, v), k, avoid, out)
    && Ordered(Depth, g, avoid, out) && Nested(g, avoid, out, 1)
  }

  lemma DfsStarts(g: Adjacency, avoid: set<int>, v: int)
    ensures DfsState(g, avoid, v, [v], 0)
  {
    ReachesSelf(g, avoid, v);
  }

  lemma DfsNext(g: Adjacency, h: Adjacency, avoid: set<int>, v: int, out: seq<int>, k: nat, sub: seq<int>)
    requires DfsState(g, avoid, v, out, k) && k < |Neighbours(g, v)| && SameGraph(g, h)
    requires var w := Neighbours(g, v)[k]; w !in avoid + Elements(out) && DepthFirst(h, avoid + Elements(out), w, sub)
    ensures DfsState(g, avoid, v, out + sub, k + 1)
    ensures avoid + Elements(out) + Elements(sub) == avoid + Elements(out + sub)
  {
    DepthGrows(g, h, avoid, v, out, k, sub);
    NestedGrows(g, h, avoid, out, sub);
    DfsJoin(g, h, avoid, v, out, Neighbours(g, v)[k], sub);
    CoveredMore(Neighbours(g, v), k, avoid, out, sub);
  }

  lemma UnseenNext(nodes: seq<int>, k: nat, avoid: set<int>, done: seq<int>, todo0: seq<int>, todo: seq<int>)
    requires k < |nodes| && todo == todo0 + Unseen(nodes[..k], avoid + Elements(done + todo0))
    ensures var w, seen := nodes[k], avoid + Elements(done + todo0);
      todo0 + Unseen(nodes[..k + 1], seen) == if w in avoid + Elements(done + todo) then todo else todo + [w]
  {
    assert nodes[..k + 1][..k] == nodes[..k];
  }

  lemma UnseenExplores(g: Adjacency, avoid: set<int>, done: seq<int>, todo0: seq<int>, todo: seq<int>, u: int)
    requires todo == todo0 + Unseen(Neighbours(g, u), avoid + Elements(done + todo0))
    ensures Explored(g, avoid, u, Elements(done + todo))
  {
    forall w | w in Neighbours(g, u) ensures w in avoid || w in Elements(done + todo) {
      UnseenMembers(Neighbours(g, u), avoid + Elements(done + todo0), w);
    }
  }

  /** One vertex of the queue: what it finds comes behind all that earlier ones have found. */
  lemma BreadthGrows(g: Adjacency, avoid: set<int>, out: seq<int>, u: int, rest: seq<int>, queue: seq<int>)
    requires Ordered(Breadth, g, avoid, out + ([u] + rest)) && DoneExplored(g, avoid, out, [u] + rest)
    requires queue == rest + Unseen(Neighbours(g, u), avoid + Elements(out + [u] + rest))
    ensures Ordered(Breadth, g, avoid, out + [u] + queue) && (out + [u] + queue)[0] == (out + ([u] + rest))[0]
  {
    var all, nodes := out + ([u] + rest), Neighbours(g, u);
    assert all == out + [u] + rest && out + [u] + queue == all + Unseen(nodes, avoid + Elements(all));
    assert nodes[..|nodes|] == nodes;
    BreadthAppends(g, avoid, all, |out|, |nodes|);
  }

  lemma DepthGrows(g: Adjacency, h: Adjacency, avoid: set<int>, v: int, out: seq<int>, k: nat, sub: seq<int>)
    requires DfsState(g, avoid, v, out, k) && k < |Neighbours(g, v)| && SameGraph(g, h)
    requires sub != [] && sub[0] == Neighbours(g, v)[k] && sub[0] !in avoid + Elements(out)
    requires Ordered(Depth, h, avoid + Elements(out), sub)
    ensures Ordered(Depth, g, avoid, out + sub)
  {
    FirstAtLeast(Neighbours(g, v), k);
    assert NextFrom(g, avoid, out, v, sub[0]);
    forall m: nat | 1 <= m < |out| ensures Explored(g, avoid, out[m], Elements(out)) {
      assert out[m] in out && out[0] != out[m];
    }
    assert Continues(Depth, g, avoid, out, sub[0], 0);
    DepthJoins(g, h, avoid, out, sub);
  }

  lemma DfsEnds(g: Adjacency, avoid: set<int>, v: int, out: seq<int>)
    requires DfsState(g, avoid, v, out, |Neighbours(g, v)|)
    ensures DepthFirst(g, avoid, v, out)
  {
    assert Explored(g, avoid, v, Elements(out));
    ExploredListsReachable(out, g, avoid, v);
    NestedEnds(g, avoid, out);
  }

  /** What the recursive call lists around all that is marked is new, reachable and explored. */
  lemma DfsJoin(g: Adjacency, h: Adjacency, avoid: set<int>, v: int, out: seq<int>, w: int, sub: seq<int>)
    requires DfsExplored(g, avoid, v, out) && w in Neighbours(g, v) && SameGraph(g, h)
    requires w !in avoid + Elements(out) && ListsReachable(sub, h, avoid + Elements(out), w)
    ensures DfsExplored(g, avoid, v, out + sub) && w in out + sub
    ensures avoid + Elements(out) + Elements(sub) == avoid + Elements(out + sub)
  {
    SameGraphSameLists(sub, g, h, avoid + Elements(out), w);
    var marked, all := avoid + Elements(out), out + sub;
    forall x | x in sub ensures x !in out && Reachable(g, avoid, v, x) && Explored(g, avoid, x, Elements(all)) {
      ReachedNotAvoided(g, marked, w, x);
      var n :| Reaches(g, marked, w, x, n);
      ReachesThrough(g, avoid, marked, v, w, x, n);
      forall y | y in Neighbours(g, x) ensures y in avoid || y in Elements(all) {
        if y !in marked { ReachesNext(g, marked, w, x, y, n); }
      }
    }
    forall x | x in out ensures x == v || Explored(g, avoid, x, Elements(all)) {
      if x != v { ExploredGrows(g, avoid, x, Elements(out), Elements(all)); }
    }
    forall i, j | 0 <= i < j < |all| ensures all[i] != all[j] {
      if i < |out| <= j { assert all[i] in out && all[j] in sub; }
    }
    ReachesSelf(g, marked, w);
    assert w in sub;
  }

  /**
   * Between two rounds: levels rise along out and queue, by one at most beyond the front of the queue, and the vertices
   * have been found in order.
   */
  ghost predicate BfsState(g: Adjacency, avoid: set<int>, s: int, out: seq<int>, queue: seq<int>,
                           level: map<int, nat>, top: nat) {
    && BfsLevels(g, avoid, s, out, queue, level, top)
    && (out + queue)[0] == s && Ordered(Breadth, g, avoid, out + queue)
  }

  ghost predicate BfsLevels(g: Adjacency, avoid: set<int>, s: int, out: seq<int>, queue: seq<int>,
                            level: map<int, nat>, top: nat) {
    && Searching(g, avoid, s, out, queue, level) && DoneExplored(g, avoid, out, queue)
    && level[s] == 0 && LevelsStep(g, avoid, out, level)
    && LevelsRise(out + queue, level, top)
    && (queue != [] ==> queue[0] in level && top <= level[queue[0]] + 1)
  }

  lemma BfsStarts(g: Adjacency, avoid: set<int>, s: int)
    ensures BfsState(g, avoid, s, [], [s], map[s := 0], 0) && Elements([] + [s]) == {s}
  {
    ReachesSelf(g, avoid, s);
    assert [] + [s] == [s];
  }

  lemma BfsEnds(g: Adjacency, avoid: set<int>, s: int, out: seq<int>, level: map<int, nat>, top: nat)
    requires BfsState(g, avoid, s, out, [], level, top)
    ensures ListsReachable(out, g, avoid, s) && ByDistance(out, g, avoid, s)
    ensures out != [] && out[0] == s && Ordered(Breadth, g, avoid, out) && out + [] == out
  {
    assert out + [] == out;
    LevelsAreDistances(out, g, avoid, s, level, top);
  }

  /** What the inner loop has done: appended what was unseen, one level further, and explored the last vertex done. */
  ghost predicate VisitedFrom(g: Adjacency, avoid: set<int>, s: int, done: seq<int>, todo0: seq<int>, level0: map<int, nat>,
                              todo: seq<int>, level: map<int, nat>)
    requires done != [] && done[|done| - 1] in level0
  {
    var u, top := done[|done| - 1], level0[done[|done| - 1]] + 1;
    && Searching(g, avoid, s, done, todo, level)
    && todo == todo0 + Unseen(Neighbours(g, u), avoid + Elements(done + todo0))
    && Explored(g, avoid, u, Elements(done + todo))
    && LevelsKept(done + todo0, level0, level)
    && (LevelsRise(done + todo0, level0, top) ==> LevelsRise(done + todo, level, top))
  }

  /** Between two rounds of the search with a stack. */
  ghost predicate Dfs1State(g: Adjacency, avoid: set<int>, s: int, out: seq<int>, vec: seq<int>, level: map<int, nat>) {
    && Searching(g, avoid, s, out, vec, level) && DoneExplored(g, avoid, out, vec)
    && (if out == [] then vec == [s] else out[0] == s)
    && OnStack(g, out, vec) && Ordered(Stack, g, avoid, out)
  }

  lemma Dfs1Starts(g: Adjacency, avoid: set<int>, s: int)
    ensures Dfs1State(g, avoid, s, [], [s], map[s := 0]) && Elements([] + [s]) == {s}
  {
    ReachesSelf(g, avoid, s);
    assert [] + [s] == [s];
  }

  lemma Dfs1Takes(g: Adjacency, avoid: set<int>, s: int, out: seq<int>, vec: seq<int>, level: map<int, nat>)
    requires Dfs1State(g, avoid, s, out, vec, level) && vec != []
    ensures var u, rest := vec[|vec| - 1], vec[..|vec| - 1];
      && Searching(g, avoid, s, out + [u], rest, level) && u in level && u !in out && u in Universe(g, s)
      && Elements(out + [u] + rest) == Elements(out + vec)
      && Ordered(Stack, g, avoid, out + [u])
  {
    var last := |vec| - 1;
    var u := vec[last];
    TakeOne(g, avoid, s, out, vec, level, last);
    assert vec[..last] + vec[last + 1..] == vec[..last];
    assert (out + vec)[|out| + last] == u && u in out + vec;
    if out == [] {
      assert Ordered(Stack, g, avoid, [] + [u]);
    } else {
      assert (out + vec)[0] == s;
      TopFoundLast(g, avoid, out, vec);
      OrderedSnoc(Stack, g, avoid, out, u);
    }
  }

  lemma Dfs1Round(g: Adjacency, avoid: set<int>, s: int, out: seq<int>, vec0: seq<int>, level0: map<int, nat>,
                  vec: seq<int>, level: map<int, nat>)
    requires Dfs1State(g, avoid, s, out, vec0, level0) && vec0 != [] && vec0[|vec0| - 1] in level0
    requires VisitedFrom(g, avoid, s, out + [vec0[|vec0| - 1]], vec0[..|vec0| - 1], level0, vec, level)
    ensures Dfs1State(g, avoid, s, out + [vec0[|vec0| - 1]], vec, level)
    ensures Universe(g, s) - Elements(out + [vec0[|vec0| - 1]]) < Universe(g, s) - Elements(out)
  {
    var u, rest := vec0[|vec0| - 1], vec0[..|vec0| - 1];
    assert vec0 == rest + [u] && (out + [u])[|out|] == u;
    Dfs1Takes(g, avoid, s, out, vec0, level0);
    DoneGrows(g, avoid, out, u, out + vec0, vec);
    StackGrows(g, avoid, out, u, rest);
    Progress(Universe(g, s), out, u);
  }

  lemma Dfs1Ends(g: Adjacency, avoid: set<int>, s: int, out: seq<int>, level: map<int, nat>)
    requires Dfs1State(g, avoid, s, out, [], level)
    ensures ListsReachable(out, g, avoid, s) && out + [] == out
    ensures out != [] && out[0] == s && Ordered(Stack, g, avoid, out)
  {
    assert out + [] == out;
    ExploredListsReachable(out, g, avoid, s);
  }

  lemma BfsRound(g: Adjacency, avoid: set<int>, s: int, out: seq<int>, queue0: seq<int>, level0: map<int, nat>, top: nat,
                 queue: seq<int>, level: map<int, nat>)
    requires BfsState(g, avoid, s, out, queue0, level0, top) && queue0 != [] && queue0[0] in level0
    requires VisitedFrom(g, avoid, s, out + [queue0[0]], queue0[1..], level0, queue, level)
    ensures BfsState(g, avoid, s, out + [queue0[0]], queue, level, level0[queue0[0]] + 1)
    ensures Universe(g, s) - Elements(out + [queue0[0]]) < Universe(g, s) - Elements(out)
  {
    var u, rest := queue0[0], queue0[1..];
    assert queue0 == [u] + rest && (out + [u])[|out|] == u;
    BfsTakes(g, avoid, s, out, queue0, level0, top);
    BreadthGrows(g, avoid, out, u, rest, queue);
    BfsVisited(g, avoid, s, out, u, rest, level0, top, queue, level);
    Progress(Universe(g, s), out, u);
  }

  lemma BfsTakes(g: Adjacency, avoid: set<int>, s: int, out: seq<int>, queue: seq<int>, level: map<int, nat>, top: nat)
    requires queue != [] && BfsLevels(g, avoid, s, out, queue, level, top)
    ensures var u := queue[0]; var done := out + [u];
      && u !in out && u in Universe(g, s) && u in level
      && done + queue[1..] == out + queue
      && Searching(g, avoid, s, done, queue[1..], level)
      && LevelsRise(done + queue[1..], level, level[u] + 1)
  {
    TakeOne(g, avoid, s, out, queue, level, 0);
    assert queue[..0] + queue[0 + 1..] == queue[1..];
    assert out + [queue[0]] + queue[1..] == out + queue;
    assert queue[0] in out + queue;
    LevelsRiseHigher(out + queue, level, top, level[queue[0]] + 1);
  }

  lemma BfsVisited(g: Adjacency, avoid: set<int>, s: int, out: seq<int>, u: int, rest: seq<int>, level: map<int, nat>,
                   top: nat, queue: seq<int>, level': map<int, nat>)
    requires BfsLevels(g, avoid, s, out, [u] + rest, level, top)
    requires rest <= queue && Searching(g, avoid, s, out + [u], queue, level')
    requires Explored(g, avoid, u, Elements(out + [u] + queue))
    requires LevelsKept(out + [u] + rest, level, level')
    requires LevelsRise(out + [u] + queue, level', level[u] + 1)
    ensures BfsLevels(g, avoid, s, out + [u], queue, level', level[u] + 1)
  {
    var all := out + ([u] + rest);
    assert all == out + [u] + rest;
    assert out + [u] + queue == all + queue[|rest|..];
    assert u in all && s in all;
    DoneGrows(g, avoid, out, u, all, queue);
    LevelsStepGrows(g, avoid, out, u, all, queue, level, level');
    NextIsNotLower(out + [u], queue, level', level[u] + 1);
  }

  lemma LevelsRiseHigher(all: seq<int>, level: map<int, nat>, top: nat, higher: nat)
    requires LevelsRise(all, level, top) && top <= higher
    ensures LevelsRise(all, level, higher)
  {
  }

  /** After visiting from u, it is explored too, and the others still are. */
  lemma DoneGrows(g: Adjacency, avoid: set<int>, done: seq<int>, u: int, all: seq<int>, todo: seq<int>)
    requires forall v :: v in done ==> Explored(g, avoid, v, Elements(all))
    requires Elements(all) <= Elements(done + [u] + todo) && Explored(g, avoid, u, Elements(done + [u] + todo))
    ensures DoneExplored(g, avoid, done + [u], todo)
  {
    forall v | v in done ensures Explored(g, avoid, v, Elements(done + [u] + todo)) {
      ExploredGrows(g, avoid, v, Elements(all), Elements(done + [u] + todo));
    }
  }

  lemma LevelsStepGrows(g: Adjacency, avoid: set<int>, done: seq<int>, u: int, all: seq<int>, todo: seq<int>,
                        level: map<int, nat>, level': map<int, nat>)
    requires LevelsStep(g, avoid, done, level) && u in level && u in level' && level'[u] == level[u]
    requires forall v :: v in done ==> v in all && Explored(g, avoid, v, Elements(all))
    requires LevelsKept(all, level, level')
    requires LevelsRise(done + [u] + todo, level', level[u] + 1) && Explored(g, avoid, u, Elements(done + [u] + todo))
    ensures LevelsStep(g, avoid, done + [u], level')
  {
    forall v, w | v in done + [u] && w in Neighbours(g, v) && w !in avoid
      ensures v in level' && w in level' && level'[w] <= level'[v] + 1
    {
      if v in done {
        assert w in Elements(all);
      } else {
        assert w in Elements(done + [u] + todo);
      }
    }
  }

  lemma Progress(universe: set<int>, done: seq<int>, u: int)
    requires u in universe && u !in done
    ensures universe - Elements(done + [u]) < universe - Elements(done)
  {
    assert u in universe - Elements(done) && u !in universe - Elements(done + [u]);
  }

  lemma NextIsNotLower(done: seq<int>, todo: seq<int>, level: map<int, nat>, top: nat)
    requires done != [] && LevelsRise(done + todo, level, top) && level[(done + todo)[|done| - 1]] + 1 == top
    ensures todo != [] ==> todo[0] in level && top <= level[todo[0]] + 1
  {
    if todo != [] {
      assert (done + todo)[|done|] == todo[0];
    }
  }
}
