/** The shortest and the longest path between two vertices, by backtracking over all simple paths. */
module ShortestPath {
  import opened Graphs
  import opened Sequences

  // ---------- what a search below a vertex has to find ----------

  /** A path without repetition from one vertex to another that keeps off the vertices to avoid. */
  ghost predicate SimplePath(g: Adjacency, avoid: set<int>, from: int, to: int, q: seq<int>) {
    WalkBetween(g, q, from, to) && Once(q) && forall i :: 0 <= i < |q| ==> q[i] !in avoid
  }

  /** A simple path whose second vertex is among the starts. */
  ghost predicate PathThrough(g: Adjacency, avoid: set<int>, from: int, to: int, starts: seq<int>, q: seq<int>) {
    SimplePath(g, avoid, from, to, q) && |q| > 1 && q[1] in starts
  }

  /** What is looked for among the simple paths. */
  datatype Goal = Shortest | Longest

  /** The best path known may be replaced only by a strictly better one; any path is better than none. */
  ghost predicate NoWorse(goal: Goal, before: seq<int>, after: seq<int>) {
    after == before || (after != [] && (before == [] || if goal.Shortest? then |after| < |before| else |after| > |before|))
  }

  ghost predicate AsGoodAs(goal: Goal, after: seq<int>, length: nat) {
    after != [] && if goal.Shortest? then |after| <= length else |after| >= length
  }

  /** Where p and q part, p goes to a neighbour that comes earlier in its list. */
  ghost predicate EarlierAt(g: Adjacency, p: seq<int>, q: seq<int>, i: nat) {
    && 0 < i < |p| && i < |q| && p[..i] == q[..i]
    && FirstAt(Neighbours(g, p[i - 1]), p[i]) < FirstAt(Neighbours(g, p[i - 1]), q[i])
  }

  ghost predicate Earlier(g: Adjacency, p: seq<int>, q: seq<int>) {
    exists i: nat :: EarlierAt(g, p, q, i)
  }

  predicate WorseThan(goal: Goal, length: nat, other: nat) {
    if goal.Shortest? then length > other else length < other
  }

  /** A simple path such that all earlier ones are worse. */
  ghost predicate Foremost(goal: Goal, g: Adjacency, avoid: set<int>, from: int, to: int, q: seq<int>) {
    && SimplePath(g, avoid, from, to, q)
    && forall p :: SimplePath(g, avoid, from, to, p) && Earlier(g, p, q) ==> WorseThan(goal, |p|, |q|)
  }

  ghost predicate TakenOver(goal: Goal, g: Adjacency, avoid: set<int>, from: int, to: int,
                            prefix: seq<int>, after: seq<int>) {
    exists q :: Foremost(goal, g, avoid, from, to, q) && after == prefix + q
  }

  /**
   * What a search from a vertex does to the best path known: it takes over prefix + q only for some q that is better than
   * all earlier ones, and beats every q.
   */
  ghost predicate Improves(goal: Goal, g: Adjacency, avoid: set<int>, from: int, to: int, prefix: seq<int>,
                           before: seq<int>, after: seq<int>) {
    && NoWorse(goal, before, after)
    && (after == before || TakenOver(goal, g, avoid, from, to, prefix, after))
    && forall q :: SimplePath(g, avoid, from, to, q) ==> AsGoodAs(goal, after, |prefix| + |q|)
  }

  ghost predicate ImprovesThrough(goal: Goal, g: Adjacency, avoid: set<int>, from: int, to: int, starts: seq<int>,
                                  prefix: seq<int>, before: seq<int>, after: seq<int>) {
    && NoWorse(goal, before, after)
    && (after == before || TakenOver(goal, g, avoid, from, to, prefix, after))
    && forall q :: PathThrough(g, avoid, from, to, starts, q) ==> AsGoodAs(goal, after, |prefix| + |q|)
  }

  lemma Better(goal: Goal, before: seq<int>, mid: seq<int>, after: seq<int>, length: nat)
    requires NoWorse(goal, before, mid) && NoWorse(goal, mid, after)
    ensures NoWorse(goal, before, after) && (AsGoodAs(goal, mid, length) ==> AsGoodAs(goal, after, length))
  {
  }

  /** Arrived: the only simple path from a vertex to itself is that vertex. */
  lemma Arrived(goal: Goal, g: Adjacency, avoid: set<int>, v: int, prefix: seq<int>, before: seq<int>, after: seq<int>)
    requires v !in avoid
    requires var path := prefix + [v];
      after == if before == [] || (if goal.Shortest? then |before| > |path| else |path| > |before|) then path else before
    ensures Improves(goal, g, avoid, v, v, prefix, before, after)
  {
    assert Foremost(goal, g, avoid, v, v, [v]);
    forall q | SimplePath(g, avoid, v, v, q) ensures |q| == 1 {}
  }

  /** A simple path from a vertex elsewhere is that vertex followed by a simple path from a neighbour around it. */
  lemma SplitPath(g: Adjacency, avoid: set<int>, from: int, to: int, q: seq<int>)
    requires q != [] && from != to && from !in avoid
    ensures SimplePath(g, avoid, from, to, [from] + q) <==>
      q[0] in Neighbours(g, from) && SimplePath(g, avoid + {from}, q[0], to, q)
  {
    var p := [from] + q;
    if SimplePath(g, avoid, from, to, p) {
      WalkSuffix(g, p, 1);
      assert p[1..] == q;
      assert StepAt(g, p, 0);
      forall i | 0 <= i < |q| ensures q[i] !in avoid + {from} { assert q[i] == p[i + 1] && p[0] != p[i + 1]; }
      forall i, j | 0 <= i < j < |q| ensures q[i] != q[j] { assert p[i + 1] != p[j + 1]; }
    }
    if q[0] in Neighbours(g, from) && SimplePath(g, avoid + {from}, q[0], to, q) {
      WalkPrepend(g, from, q);
    }
  }

  /** What is earlier than a path through neighbour k goes through an earlier neighbour, or is earlier from there on. */
  lemma EarlierCases(g: Adjacency, from: int, k: nat, p: seq<int>, r: seq<int>)
    requires k < |Neighbours(g, from)| && r != [] && r[0] == Neighbours(g, from)[k]
    requires Earlier(g, p, [from] + r)
    ensures |p| > 1 && (p[1] in Neighbours(g, from)[..k] || (p[1] == r[0] && Earlier(g, p[1..], r)))
  {
    var q, children := [from] + r, Neighbours(g, from);
    var i: nat :| EarlierAt(g, p, q, i);
    FirstAtLeast(children, k);
    assert p[0] == p[..i][0] == q[..i][0] == from;
    if i == 1 {
      assert p[1] == children[..k][FirstAt(children, p[1])];
    } else {
      assert p[1] == p[..i][1] == q[..i][1] == r[0];
      assert p[1..][..i - 1] == p[..i][1..] && r[..i - 1] == q[..i][1..];
      assert EarlierAt(g, p[1..], r, i - 1);
    }
  }

  /** Whatever is taken over from below neighbour k is a path from the vertex itself, and earlier ones are worse. */
  lemma TakenFromChild(goal: Goal, g: Adjacency, avoid: set<int>, from: int, to: int, k: nat, prefix: seq<int>,
                       before: seq<int>, mid: seq<int>, after: seq<int>)
    requires from != to && from !in avoid && k < |Neighbours(g, from)| && after != mid
    requires ImprovesThrough(goal, g, avoid, from, to, Neighbours(g, from)[..k], prefix, before, mid)
    requires Improves(goal, g, avoid + {from}, Neighbours(g, from)[k], to, prefix + [from], mid, after)
    ensures TakenOver(goal, g, avoid, from, to, prefix, after)
  {
    var id := Neighbours(g, from)[k];
    var r :| Foremost(goal, g, avoid + {from}, id, to, r) && after == prefix + [from] + r;
    var q := [from] + r;
    SplitPath(g, avoid, from, to, r);
    assert BeatsThrough(goal, g, avoid, from, to, Neighbours(g, from)[..k], |prefix|, mid);
    forall p | SimplePath(g, avoid, from, to, p) && Earlier(g, p, q) ensures WorseThan(goal, |p|, |q|) {
      EarlierIsWorse(goal, g, avoid, from, to, k, |prefix|, mid, after, r, p);
    }
    assert Foremost(goal, g, avoid, from, to, q) && after == prefix + q;
  }

  ghost predicate BeatsThrough(goal: Goal, g: Adjacency, avoid: set<int>, from: int, to: int, starts: seq<int>, n: nat,
                               mid: seq<int>) {
    forall q :: PathThrough(g, avoid, from, to, starts, q) ==> AsGoodAs(goal, mid, n + |q|)
  }

  lemma EarlierIsWorse(goal: Goal, g: Adjacency, avoid: set<int>, from: int, to: int, k: nat, n: nat,
                       mid: seq<int>, after: seq<int>, r: seq<int>, p: seq<int>)
    requires from != to && from !in avoid && k < |Neighbours(g, from)|
    requires Foremost(goal, g, avoid + {from}, Neighbours(g, from)[k], to, r)
    requires NoWorse(goal, mid, after) && after != mid && |after| == n + 1 + |r|
    requires BeatsThrough(goal, g, avoid, from, to, Neighbours(g, from)[..k], n, mid)
    requires SimplePath(g, avoid, from, to, p) && Earlier(g, p, [from] + r)
    ensures WorseThan(goal, |p|, 1 + |r|)
  {
    EarlierCases(g, from, k, p, r);
    if p[1] in Neighbours(g, from)[..k] {
      assert PathThrough(g, avoid, from, to, Neighbours(g, from)[..k], p);
    } else {
      var rest := p[1..];
      assert p == [from] + rest;
      SplitPath(g, avoid, from, to, rest);
      assert WorseThan(goal, |rest|, |r|);
    }
  }

  /** A path through one of the neighbours tried so far goes through an earlier one or continues below the last one. */
  lemma ThroughLast(g: Adjacency, avoid: set<int>, from: int, to: int, starts: seq<int>, id: int, q: seq<int>)
    requires from != to && from !in avoid && PathThrough(g, avoid, from, to, starts + [id], q)
    ensures PathThrough(g, avoid, from, to, starts, q)
      || (q[1] == id && id !in avoid + {from} && SimplePath(g, avoid + {from}, id, to, q[1..]))
  {
    assert q == [from] + q[1..];
    SplitPath(g, avoid, from, to, q[1..]);
  }

  /** What the search below one neighbour does, if it is searched. */
  ghost predicate Tried(goal: Goal, h: Adjacency, h': Adjacency, avoid: set<int>, id: int, to: int, prefix: seq<int>,
                        mid: seq<int>, after: seq<int>) {
    if id in avoid then after == mid && h' == h
    else SameGraph(h, h') && Improves(goal, h, avoid, id, to, prefix, mid, after)
  }

  /** The search below one more neighbour. */
  lemma OneMoreChild(goal: Goal, g: Adjacency, avoid: set<int>, from: int, to: int, k: nat,
                     prefix: seq<int>, before: seq<int>, mid: seq<int>, after: seq<int>)
    requires from != to && from !in avoid && k < |Neighbours(g, from)|
    requires ImprovesThrough(goal, g, avoid, from, to, Neighbours(g, from)[..k], prefix, before, mid)
    requires Tried(goal, g, g, avoid + {from}, Neighbours(g, from)[k], to, prefix + [from], mid, after)
    ensures ImprovesThrough(goal, g, avoid, from, to, Neighbours(g, from)[..k + 1], prefix, before, after)
  {
    var starts, id := Neighbours(g, from)[..k], Neighbours(g, from)[k];
    assert Neighbours(g, from)[..k + 1] == starts + [id];
    Better(goal, before, mid, after, 0);
    if after != mid { TakenFromChild(goal, g, avoid, from, to, k, prefix, before, mid, after); }
    forall q | PathThrough(g, avoid, from, to, starts + [id], q) ensures AsGoodAs(goal, after, |prefix| + |q|) {
      ThroughLast(g, avoid, from, to, starts, id, q);
      if PathThrough(g, avoid, from, to, starts, q) {
        Better(goal, before, mid, after, |prefix| + |q|);
      } else {
        assert |prefix + [from]| + |q[1..]| == |prefix| + |q|;
      }
    }
  }

  /** When all neighbours have been tried, every path has been. */
  lemma AllChildren(goal: Goal, g: Adjacency, avoid: set<int>, from: int, to: int, prefix: seq<int>, before: seq<int>,
                    after: seq<int>)
    requires from != to && ImprovesThrough(goal, g, avoid, from, to, Neighbours(g, from), prefix, before, after)
    ensures Improves(goal, g, avoid, from, to, prefix, before, after)
  {
    forall q | SimplePath(g, avoid, from, to, q) ensures PathThrough(g, avoid, from, to, Neighbours(g, from), q) {
      assert |q| > 1;
      assert StepAt(g, q, 0);
    }
  }

  lemma SameGraphImproves(goal: Goal, g: Adjacency, h: Adjacency, avoid: set<int>, from: int, to: int,
                          prefix: seq<int>, before: seq<int>, after: seq<int>)
    requires SameGraph(g, h) && Improves(goal, h, avoid, from, to, prefix, before, after)
    ensures Improves(goal, g, avoid, from, to, prefix, before, after)
  {
    forall q ensures SimplePath(g, avoid, from, to, q) <==> SimplePath(h, avoid, from, to, q) {
      SameGraphSameWalks(g, h, q);
    }
    if after != before {
      var q :| Foremost(goal, h, avoid, from, to, q) && after == prefix + q;
      forall p | SimplePath(g, avoid, from, to, p) && Earlier(g, p, q) ensures WorseThan(goal, |p|, |q|) {
        SameGraphEarlier(g, h, p, q);
      }
      assert Foremost(goal, g, avoid, from, to, q);
    }
  }

  lemma SameGraphEarlier(g: Adjacency, h: Adjacency, p: seq<int>, q: seq<int>)
    requires SameGraph(g, h) && Earlier(g, p, q)
    ensures Earlier(h, p, q)
  {
    var i: nat :| EarlierAt(g, p, q, i);
    assert Neighbours(g, p[i - 1]) == Neighbours(h, p[i - 1]);
    assert EarlierAt(h, p, q, i);
  }

  // ---------- simple paths are enough ----------

  /** Every walk can be cut down to a simple path. */
  lemma {:induction false} CutLoops(g: Adjacency, s: int, t: int, p: seq<int>) returns (q: seq<int>)
    requires WalkBetween(g, p, s, t)
    ensures SimplePath(g, {}, s, t, q) && |q| <= |p|
    decreases |p|
  {
    if Once(p) {
      q := p;
    } else {
      var i, j :| 0 <= i < j < |p| && p[i] == p[j];
      CutWalk(g, s, t, p, i, j);
      q := CutLoops(g, s, t, p[..i] + p[j..]);
    }
  }

  lemma CutWalk(g: Adjacency, s: int, t: int, p: seq<int>, i: nat, j: nat)
    requires WalkBetween(g, p, s, t) && i < j < |p| && p[i] == p[j]
    ensures WalkBetween(g, p[..i] + p[j..], s, t)
  {
    var a, b := p[..i], p[j..];
    WalkSuffix(g, p, j);
    assert b[0] == p[i] && b[|b| - 1] == t;
    if i > 0 {
      WalkPrefix(g, p, i);
      assert StepAt(g, p, i - 1) && a[i - 1] == p[i - 1] && a[0] == s;
      WalkJoin(g, a, b);
    } else {
      assert a + b == b;
    }
  }

  /** The result is empty exactly if no walk leads to the target; otherwise it is a walk there, and none is shorter. */
  ghost predicate IsShortest(g: Adjacency, s: int, t: int, shortest: seq<int>) {
    && (shortest == [] <==> forall p :: !WalkBetween(g, p, s, t))
    && (shortest != [] ==> WalkBetween(g, shortest, s, t) && Once(shortest))
    && (forall p :: WalkBetween(g, p, s, t) ==> |shortest| <= |p|)
  }

  lemma SearchFindsShortest(g: Adjacency, s: int, t: int, shortest: seq<int>)
    requires Improves(Shortest, g, {}, s, t, [], [], shortest)
    ensures IsShortest(g, s, t, shortest)
    ensures shortest != [] ==> Foremost(Shortest, g, {}, s, t, shortest)
  {
    forall p | WalkBetween(g, p, s, t) ensures AsGoodAs(Shortest, shortest, |p|) {
      var q := CutLoops(g, s, t, p);
      assert SimplePath(g, {}, s, t, q);
    }
    if shortest != [] {
      var q :| Foremost(Shortest, g, {}, s, t, q) && shortest == [] + q;
      assert shortest == q;
    }
  }

  /** The result is empty exactly if no walk leads to the target; otherwise no simple path there is longer. */
  ghost predicate IsLongest(g: Adjacency, s: int, t: int, longest: seq<int>) {
    && (longest == [] <==> forall p :: !WalkBetween(g, p, s, t))
    && (longest != [] ==> SimplePath(g, {}, s, t, longest))
    && (forall q :: SimplePath(g, {}, s, t, q) ==> |q| <= |longest|)
  }

  lemma SearchFindsLongest(g: Adjacency, s: int, t: int, longest: seq<int>)
    requires Improves(Longest, g, {}, s, t, [], [], longest)
    ensures IsLongest(g, s, t, longest)
    ensures longest != [] ==> Foremost(Longest, g, {}, s, t, longest)
  {
    forall p | WalkBetween(g, p, s, t) ensures longest != [] {
      var q := CutLoops(g, s, t, p);
    }
    if longest != [] {
      var q :| Foremost(Longest, g, {}, s, t, q) && longest == [] + q;
      assert longest == q;
    }
  }

  // ---------- answers that are kept between queries ----------

  /** A walk from one place to another has those ends only. */
  lemma EndsDiffer(g: Adjacency, s: int, t: int, s0: int, t0: int, p: seq<int>)
    requires WalkBetween(g, p, s, t) && WalkBetween(g, p, s0, t0)
    ensures s == s0 && t == t0
  {
  }

  /** A kept answer stays or gives way to a strictly better path. */
  lemma KeptOrBetter(goal: Goal, g: Adjacency, s: int, t: int, before: seq<int>, after: seq<int>)
    requires before != [] && Improves(goal, g, {}, s, t, [], before, after)
    ensures after != []
    ensures after == before ||
      (SimplePath(g, {}, s, t, after) && if goal.Shortest? then |after| < |before| else |after| > |before|)
  {
    if after != before {
      var q :| Foremost(goal, g, {}, s, t, q) && after == [] + q;
      assert after == q;
    }
  }

  /** A kept answer is replaced if and only if the new query has a strictly shorter walk. */
  lemma StaleShortest(g: Adjacency, s: int, t: int, before: seq<int>, after: seq<int>)
    requires before != [] && Improves(Shortest, g, {}, s, t, [], before, after)
    ensures IsShortest(g, s, t, after) <==>
      IsShortest(g, s, t, before) || exists p :: WalkBetween(g, p, s, t) && |p| < |before|
  {
    forall p | WalkBetween(g, p, s, t) ensures AsGoodAs(Shortest, after, |p|) {
      var q := CutLoops(g, s, t, p);
      assert SimplePath(g, {}, s, t, q);
    }
    KeptOrBetter(Shortest, g, s, t, before, after);
    assert after != before ==> WalkBetween(g, after, s, t);
  }

  /**
   * With the answer to one query kept, the shortest path held after another query is right exactly if it is the same
   * query, or a walk strictly shorter than the kept answer leads to the new target.
   */
  lemma StaleAnswer(g: Adjacency, s0: int, t0: int, before: seq<int>, s: int, t: int, after: seq<int>)
    requires before != [] && IsShortest(g, s0, t0, before)
    requires Improves(Shortest, g, {}, s, t, [], before, after)
    ensures IsShortest(g, s, t, after) <==> (s == s0 && t == t0) || exists p :: WalkBetween(g, p, s, t) && |p| < |before|
  {
    StaleShortest(g, s, t, before, after);
    if IsShortest(g, s, t, before) { EndsDiffer(g, s, t, s0, t0, before); }
  }

  lemma StaleLongest(g: Adjacency, s: int, t: int, before: seq<int>, after: seq<int>)
    requires before != [] && Improves(Longest, g, {}, s, t, [], before, after)
    ensures IsLongest(g, s, t, after) <==>
      IsLongest(g, s, t, before) || exists q :: SimplePath(g, {}, s, t, q) && |q| > |before|
  {
    KeptOrBetter(Longest, g, s, t, before, after);
    forall q | SimplePath(g, {}, s, t, q) ensures |q| <= |after| { assert AsGoodAs(Longest, after, |q|); }
    if after != before { LongestSimple(g, s, t, after); }
  }

  lemma LongestSimple(g: Adjacency, s: int, t: int, longest: seq<int>)
    requires SimplePath(g, {}, s, t, longest) && forall q :: SimplePath(g, {}, s, t, q) ==> |q| <= |longest|
    ensures IsLongest(g, s, t, longest)
  {
    assert WalkBetween(g, longest, s, t);
  }

  /** The same for the longest path: the new query needs a strictly longer simple path. */
  lemma StaleLongestAnswer(g: Adjacency, s0: int, t0: int, before: seq<int>, s: int, t: int, after: seq<int>)
    requires before != [] && IsLongest(g, s0, t0, before)
    requires Improves(Longest, g, {}, s, t, [], before, after)
    ensures IsLongest(g, s, t, after) <==>
      (s == s0 && t == t0) || exists q :: SimplePath(g, {}, s, t, q) && |q| > |before|
  {
    StaleLongest(g, s, t, before, after);
    if IsLongest(g, s, t, before) {
      assert WalkBetween(g, before, s, t);
      EndsDiffer(g, s, t, s0, t0, before);
    }
  }

  /** On 1 -> 2 -> 3 a walk from 1 goes nowhere else. */
  lemma ChainWalk(g: Adjacency, p: seq<int>)
    requires g == map[1 := [2], 2 := [3]] && IsWalk(g, p) && p[0] == 1 && |p| > 1
    ensures p[1] == 2 && (|p| > 2 ==> |p| == 3 && p[2] == 3)
  {
    assert StepAt(g, p, 0);
    if |p| > 2 {
      assert StepAt(g, p, 1);
      assert |p| > 3 ==> StepAt(g, p, 2);
    }
  }

  /** There the shortest path from 1 to 2 is kept, and the query for 3 leaves it in place. */
  lemma StaleShortestFails(g: Adjacency, after: seq<int>)
    requires g == map[1 := [2], 2 := [3]] && Improves(Shortest, g, {}, 1, 3, [], [1, 2], after)
    ensures IsShortest(g, 1, 2, [1, 2]) && !IsShortest(g, 1, 3, after)
  {
    forall p | WalkBetween(g, p, 1, 2) ensures |p| >= 2 {}
    assert StepAt(g, [1, 2], 0) && WalkBetween(g, [1, 2], 1, 2);
    forall p | WalkBetween(g, p, 1, 3) ensures |p| > 2 { if |p| > 1 { ChainWalk(g, p); } }
    StaleAnswer(g, 1, 2, [1, 2], 1, 3, after);
  }

  /** And the longest path from 1 to 3 is kept, and the query for 2 leaves it in place. */
  lemma StaleLongestFails(g: Adjacency, after: seq<int>)
    requires g == map[1 := [2], 2 := [3]] && Improves(Longest, g, {}, 1, 2, [], [1, 2, 3], after)
    ensures IsLongest(g, 1, 3, [1, 2, 3]) && !IsLongest(g, 1, 2, after)
  {
    assert StepAt(g, [1, 2, 3], 0) && StepAt(g, [1, 2, 3], 1) && WalkBetween(g, [1, 2, 3], 1, 3);
    assert SimplePath(g, {}, 1, 3, [1, 2, 3]);
    forall t, q | SimplePath(g, {}, 1, t, q) ensures |q| <= 3 { if |q| > 1 { ChainWalk(g, q); } }
    StaleLongestAnswer(g, 1, 3, [1, 2, 3], 1, 2, after);
  }

  // ---------- the program ----------

  ghost function Marked(s: seq<bool>): set<int> {
    set k | 0 <= k < |s| && s[k]
  }

  function Unmarked(s: seq<bool>): set<int> {
    set k | 0 <= k < |s| && !s[k]
  }

  ghost predicate WithinIds(g: Adjacency, maxId: int) {
    forall v, w :: w in Neighbours(g, v) ==> 0 <= v <= maxId && 0 <= w <= maxId
  }

  lemma SameGraphWithinIds(g: Adjacency, h: Adjacency, maxId: int)
    requires SameGraph(g, h) && WithinIds(g, maxId)
    ensures WithinIds(h, maxId)
  {
  }

  /** The state while the neighbours of `from` are tried. */
  ghost predicate Trying(goal: Goal, g: Adjacency, h: Adjacency, avoid: set<int>, from: int, to: int, k: nat,
                         prefix: seq<int>, before: seq<int>, now: seq<int>)
  {
    && SameGraph(g, h) && k <= |Neighbours(g, from)|
    && ImprovesThrough(goal, g, avoid, from, to, Neighbours(g, from)[..k], prefix, before, now)
  }

  lemma TryNext(goal: Goal, g: Adjacency, h: Adjacency, h': Adjacency, avoid: set<int>, from: int, to: int, k: nat,
                prefix: seq<int>, before: seq<int>, mid: seq<int>, after: seq<int>)
    requires from != to && from !in avoid && k < |Neighbours(g, from)|
    requires Trying(goal, g, h, avoid, from, to, k, prefix, before, mid)
    requires Tried(goal, h, h', avoid + {from}, Neighbours(g, from)[k], to, prefix + [from], mid, after)
    ensures Trying(goal, g, h', avoid, from, to, k + 1, prefix, before, after)
  {
    TriedHere(goal, g, h, h', avoid + {from}, Neighbours(g, from)[k], to, prefix + [from], mid, after);
    OneMoreChild(goal, g, avoid, from, to, k, prefix, before, mid, after);
  }

  lemma TriedHere(goal: Goal, g: Adjacency, h: Adjacency, h': Adjacency, avoid: set<int>, id: int, to: int,
                  prefix: seq<int>, mid: seq<int>, after: seq<int>)
    requires SameGraph(g, h) && Tried(goal, h, h', avoid, id, to, prefix, mid, after)
    ensures SameGraph(g, h') && Tried(goal, g, g, avoid, id, to, prefix, mid, after)
  {
    if id !in avoid {
      SameGraphImproves(goal, g, h, avoid, id, to, prefix, mid, after);
      SameGraphTransitive(g, h, h');
    }
  }

  /** The two answers of the variant that looks for both at once. */
  datatype Answers = Answers(shortest: seq<int>, longest: seq<int>)

  ghost predicate ImprovesBoth(g: Adjacency, avoid: set<int>, from: int, to: int, prefix: seq<int>,
                               before: Answers, after: Answers) {
    && Improves(Shortest, g, avoid, from, to, prefix, before.shortest, after.shortest)
    && Improves(Longest, g, avoid, from, to, prefix, before.longest, after.longest)
  }

  ghost predicate TryingBoth(g: Adjacency, h: Adjacency, avoid: set<int>, from: int, to: int, k: nat,
                             prefix: seq<int>, before: Answers, now: Answers) {
    && Trying(Shortest, g, h, avoid, from, to, k, prefix, before.shortest, now.shortest)
    && Trying(Longest, g, h, avoid, from, to, k, prefix, before.longest, now.longest)
  }

  ghost predicate TriedBoth(h: Adjacency, h': Adjacency, avoid: set<int>, id: int, to: int, prefix: seq<int>,
                            mid: Answers, after: Answers) {
    if id in avoid then after == mid && h' == h
    else SameGraph(h, h') && ImprovesBoth(h, avoid, id, to, prefix, mid, after)
  }

  lemma TryBoth(g: Adjacency, h: Adjacency, h': Adjacency, avoid: set<int>, from: int, to: int, k: nat,
                prefix: seq<int>, before: Answers, mid: Answers, after: Answers)
    requires from != to && from !in avoid && k < |Neighbours(g, from)|
    requires TryingBoth(g, h, avoid, from, to, k, prefix, before, mid)
    requires TriedBoth(h, h', avoid + {from}, Neighbours(g, from)[k], to, prefix + [from], mid, after)
    ensures TryingBoth(g, h', avoid, from, to, k + 1, prefix, before, after)
  {
    TryNext(Shortest, g, h, h', avoid, from, to, k, prefix, before.shortest, mid.shortest, after.shortest);
    TryNext(Longest, g, h, h', avoid, from, to, k, prefix, before.longest, mid.longest, after.longest);
  }

  lemma StartBoth(g: Adjacency, h: Adjacency, avoid: set<int>, from: int, to: int, prefix: seq<int>, before: Answers)
    requires SameGraph(g, h)
    ensures TryingBoth(g, h, avoid, from, to, 0, prefix, before, before)
  {
  }

  lemma EndBoth(g: Adjacency, h: Adjacency, avoid: set<int>, from: int, to: int, prefix: seq<int>,
                before: Answers, after: Answers)
    requires from != to && TryingBoth(g, h, avoid, from, to, |Neighbours(g, from)|, prefix, before, after)
    ensures ImprovesBoth(g, avoid, from, to, prefix, before, after)
  {
    assert Neighbours(g, from)[..|Neighbours(g, from)|] == Neighbours(g, from);
    AllChildren(Shortest, g, avoid, from, to, prefix, before.shortest, after.shortest);
    AllChildren(Longest, g, avoid, from, to, prefix, before.longest, after.longest);
  }

  class Graph {
    var nodes: Adjacency
    var path: seq<int>
    var shortest: seq<int>
    var maxId: int

    /** Every vertex has a flag in an array of maxId + 1 flags. */
    ghost predicate Valid()
      reads this
    {
      maxId >= 0 && WithinIds(nodes, maxId)
    }

    constructor ()
      ensures Valid() && nodes == map[] && maxId == 0
    {
      nodes, path, shortest, maxId := map[], [], [], 0;
    }

    method AddEdge(from: int, to: int)
      requires Valid() && from >= 0 && to >= 0
      modifies this
      ensures Valid()
      ensures nodes == old(nodes)[from := Neighbours(old(nodes), from) + [to]]
      ensures path == old(path) && shortest == old(shortest)
    {
      nodes := nodes[from := Neighbours(nodes, from) + [to]];
      maxId := if from > to then if from > maxId then from else maxId else if to > maxId then to else maxId;
      forall v, w | w in Neighbours(nodes, v) ensures 0 <= v <= maxId && 0 <= w <= maxId {
        assert v != from ==> w in Neighbours(old(nodes), v);
        assert v == from ==> w == to || w in Neighbours(old(nodes), v);
      }
    }

    method AdjacentTo(v: int) returns (children: seq<int>)
      modifies this`nodes
      ensures children == Neighbours(old(nodes), v) && SameGraph(old(nodes), nodes)
    {
      if v !in nodes { nodes := nodes[v := []]; }
      children := nodes[v];
    }

    method FindPath(from: int, to: int, visited: array<bool>)
      requires Valid() && visited.Length == maxId + 1 && 0 <= from <= maxId && !visited[from]
      modifies this`nodes, this`path, this`shortest, visited
      ensures SameGraph(old(nodes), nodes)
      ensures path == old(path) && visited[..] == old(visited[..])
      ensures Improves(Shortest, old(nodes), Marked(old(visited[..])), from, to, old(path), old(shortest), shortest)
      decreases Unmarked(visited[..])
    {
      ghost var g, flags, prefix, before := nodes, visited[..], path, shortest;
      ghost var avoid := Marked(flags);
      visited[from] := true;
      path := path + [from];
      assert Marked(visited[..]) == avoid + {from};
      assert from in Unmarked(flags) && from !in Unmarked(visited[..]);
      if from == to {
        if shortest == [] || |shortest| > |path| {
          shortest := path;
        }
        Arrived(Shortest, g, avoid, from, prefix, before, shortest);
      } else {
        var children := AdjacentTo(from);
        SameGraphWithinIds(g, nodes, maxId);
        for k := 0 to |children|
          invariant path == prefix + [from] && visited[..] == flags[from := true]
          invariant WithinIds(nodes, maxId) && Trying(Shortest, g, nodes, avoid, from, to, k, prefix, before, shortest)
        {
          var id := children[k];
          ghost var mid, h := shortest, nodes;
          assert id in Neighbours(g, from);
          if !visited[id] {
            FindPath(id, to, visited);
            SameGraphWithinIds(h, nodes, maxId);
          }
          TryNext(Shortest, g, h, nodes, avoid, from, to, k, prefix, before, mid, shortest);
        }
        assert children[..|children|] == children;
        AllChildren(Shortest, g, avoid, from, to, prefix, before, shortest);
      }
      path := path[..|path| - 1];
      visited[from] := false;
    }

    /** Leaves in `shortest` a shortest path, or nothing if there is none; the working path is empty again. */
    method FindPaths(v: int, target: int)
      requires Valid() && 0 <= v <= maxId
      modifies this`nodes, this`path, this`shortest
      ensures Valid() && SameGraph(old(nodes), nodes)
      ensures path == [] && IsShortest(old(nodes), v, target, shortest)
      ensures shortest != [] ==> Foremost(Shortest, old(nodes), {}, v, target, shortest)
    {
      path, shortest := [], [];
      var visited := new bool[maxId + 1](_ => false);
      FindPath(v, target, visited);
      SearchFindsShortest(old(nodes), v, target, shortest);
    }
  }

  /** The variant that looks for both at once, with flags in a map and answers that are kept between queries. */
  class PathFinder {
    var visited: map<int, bool>
    var nodes: Adjacency
    var path: seq<int>
    var longestPath: seq<int>
    var shortestPath: seq<int>

    constructor ()
      ensures visited == map[] && nodes == map[] && path == longestPath == shortestPath == []
    {
      visited, nodes, path, longestPath, shortestPath := map[], map[], [], [], [];
    }

    ghost function Visited(): set<int>
      reads this
    {
      VisitedIn(visited)
    }

    ghost function Held(): Answers
      reads this
    {
      Answers(shortestPath, longestPath)
    }

    method AddEdge(v: int, w: int)
      modifies this`nodes
      ensures nodes == old(nodes)[v := Neighbours(old(nodes), v) + [w]]
    {
      nodes := nodes[v := Neighbours(nodes, v) + [w]];
    }

    method AdjacentTo(v: int) returns (children: seq<int>)
      modifies this`nodes
      ensures children == Neighbours(old(nodes), v) && SameGraph(old(nodes), nodes)
    {
      if v !in nodes { nodes := nodes[v := []]; }
      children := nodes[v];
    }

    method IsVisited(v: int) returns (yes: bool)
      modifies this`visited
      ensures yes <==> v in old(Visited())
      ensures Visited() == old(Visited())
    {
      if v !in visited { visited := visited[v := false]; }
      yes := visited[v];
    }

    /** Arrived: the path at hand becomes the shortest if it is the first or shorter, the longest if it is longer. */
    method Record(v: int, ghost g: Adjacency, ghost avoid: set<int>, ghost prefix: seq<int>)
      requires v !in avoid && path == prefix + [v]
      modifies this`shortestPath, this`longestPath
      ensures ImprovesBoth(g, avoid, v, v, prefix, old(Held()), Held())
    {
      if shortestPath == [] || |shortestPath| > |path| {
        shortestPath := path;
      }
      if |path| > |longestPath| {
        longestPath := path;
      }
      Arrived(Shortest, g, avoid, v, prefix, old(shortestPath), shortestPath);
      Arrived(Longest, g, avoid, v, prefix, old(longestPath), longestPath);
    }

    method Enter(v: int)
      modifies this`visited, this`path
      ensures Visited() == old(Visited()) + {v} && path == old(path) + [v]
    {
      visited := visited[v := true];
      path := path + [v];
    }

    method Leave(v: int)
      requires path != []
      modifies this`visited, this`path
      ensures Visited() == old(Visited()) - {v} && path == old(path)[..|old(path)| - 1]
    {
      path := path[..|path| - 1];
      visited := visited[v := false];
    }

    /** The ghost argument bounds the vertices there are. */
    method FindPaths(v: int, target: int, ghost universe: set<int>)
      requires v !in Visited() && v in universe && Closed(nodes, universe)
      modifies this
      ensures SameGraph(old(nodes), nodes) && path == old(path) && Visited() == old(Visited())
      ensures ImprovesBoth(old(nodes), old(Visited()), v, target, old(path), old(Held()), Held())
      decreases universe - Visited(), 0
    {
      ghost var avoid, prefix := Visited(), path;
      Enter(v);
      assert v in universe - avoid && v !in universe - Visited();
      if v == target {
        Record(v, nodes, avoid, prefix);
      } else {
        FindBelow(v, target, universe, avoid, prefix);
      }
      Leave(v);
      assert avoid + {v} - {v} == avoid;
    }

    /** The loop over the neighbours. */
    method FindBelow(v: int, target: int, ghost universe: set<int>, ghost avoid: set<int>, ghost prefix: seq<int>)
      requires v != target && v !in avoid && Visited() == avoid + {v} && path == prefix + [v] && Closed(nodes, universe)
      requires v in universe
      modifies this
      ensures SameGraph(old(nodes), nodes) && path == old(path) && Visited() == old(Visited())
      ensures ImprovesBoth(old(nodes), avoid, v, target, prefix, old(Held()), Held())
      decreases universe - Visited(), 2
    {
      ghost var g, before := nodes, Held();
      var children := AdjacentTo(v);
      SameGraphClosed(g, nodes, universe);
      StartBoth(g, nodes, avoid, v, target, prefix, before);
      for k := 0 to |children|
        invariant path == prefix + [v] && Visited() == avoid + {v} && Closed(nodes, universe)
        invariant TryingBoth(g, nodes, avoid, v, target, k, prefix, before, Held())
      {
        ghost var mid, h := Held(), nodes;
        assert children[k] in Neighbours(g, v);
        Try(children[k], target, universe);
        TryBoth(g, h, nodes, avoid, v, target, k, prefix, before, mid, Held());
      }
      EndBoth(g, nodes, avoid, v, target, prefix, before, Held());
      assert SameGraph(g, nodes);
    }

    /** One neighbour: the search below it, unless it is visited. */
    method Try(id: int, target: int, ghost universe: set<int>)
      requires id in universe && Closed(nodes, universe)
      modifies this
      ensures path == old(path) && Visited() == old(Visited()) && Closed(nodes, universe)
      ensures TriedBoth(old(nodes), nodes, old(Visited()), id, target, old(path), old(Held()), Held())
      decreases universe - Visited(), 1
    {
      ghost var h := nodes;
      var seen := IsVisited(id);
      if !seen {
        FindPaths(id, target, universe);
        SameGraphClosed(h, nodes, universe);
      }
    }

    /** The first query on a fresh graph is answered rightly. */
    method FirstQuery(v: int, target: int, ghost universe: set<int>)
      requires Visited() == {} && path == longestPath == shortestPath == []
      requires v in universe && Closed(nodes, universe)
      modifies this
      ensures SameGraph(old(nodes), nodes) && path == [] && Visited() == {}
      ensures IsShortest(old(nodes), v, target, shortestPath) && IsLongest(old(nodes), v, target, longestPath)
      ensures shortestPath != [] ==> Foremost(Shortest, old(nodes), {}, v, target, shortestPath)
      ensures longestPath != [] ==> Foremost(Longest, old(nodes), {}, v, target, longestPath)
    {
      FindPaths(v, target, universe);
      SearchFindsShortest(old(nodes), v, target, shortestPath);
      SearchFindsLongest(old(nodes), v, target, longestPath);
    }

    /** A query after one whose answers, not empty, are still there: when each of them is right. */
    method LaterQuery(v: int, target: int, ghost v0: int, ghost target0: int, ghost universe: set<int>)
      requires Visited() == {} && path == [] && shortestPath != [] && longestPath != []
      requires IsShortest(nodes, v0, target0, shortestPath) && IsLongest(nodes, v0, target0, longestPath)
      requires v in universe && Closed(nodes, universe)
      modifies this
      ensures SameGraph(old(nodes), nodes) && path == [] && Visited() == {}
      ensures IsShortest(old(nodes), v, target, shortestPath) <==>
        (v == v0 && target == target0) || exists p :: WalkBetween(old(nodes), p, v, target) && |p| < |old(shortestPath)|
      ensures IsLongest(old(nodes), v, target, longestPath) <==>
        (v == v0 && target == target0) || exists q :: SimplePath(old(nodes), {}, v, target, q) && |q| > |old(longestPath)|
    {
      FindPaths(v, target, universe);
      StaleAnswer(old(nodes), v0, target0, old(shortestPath), v, target, shortestPath);
      StaleLongestAnswer(old(nodes), v0, target0, old(longestPath), v, target, longestPath);
    }
  }
}
