/** Optimality of the found path. Breadth-first search returns a path with
    the fewest edges and uniform-cost search one of least cost. Both follow
    from one argument, Dijkstra's, run over a weight that counts edges for
    breadth-first search and sums costs for uniform-cost search. Depth-first
    search promises no optimality; what it does promise is its order. */
module Optimality {
  import opened Graphs
  import opened Frontier
  import opened Searches

  /** The weight of an entry: its edge count (queue) or its cost (sorted queue). */
  function Weight(d: Discipline, e: Entry): int
  {
    if d == Fifo then |e.path| - 1 else e.cost
  }

  function EdgeWeight(d: Discipline, ed: Edge): nat
  {
    if d == Fifo then 1 else ed.cost
  }

  /** The same weight, measured on a walk of the graph. */
  function WalkWeight(d: Discipline, es: seq<Edge>): nat
  {
    if d == Fifo then |es| else Cost(es)
  }

  lemma WalkWeightSnoc(d: Discipline, es: seq<Edge>, ed: Edge)
    ensures WalkWeight(d, es + [ed]) == WalkWeight(d, es) + EdgeWeight(d, ed)
  {
    assert (es + [ed])[..|es|] == es;
  }

  lemma WalkWeightPrefix(d: Discipline, es: seq<Edge>, j: nat)
    requires j <= |es|
    ensures WalkWeight(d, es[..j]) <= WalkWeight(d, es)
  {
    CostPrefix(es, j);
  }

  /** The prefix of a walk up to its `j`-th edge, plus that edge, weighs no more than the walk. */
  lemma WalkWeightStep(d: Discipline, es: seq<Edge>, j: nat)
    requires 0 < j <= |es|
    ensures WalkWeight(d, es[..j - 1]) + EdgeWeight(d, es[j - 1]) <= WalkWeight(d, es)
  {
    assert es[..j] == es[..j - 1] + [es[j - 1]];
    WalkWeightSnoc(d, es[..j - 1], es[j - 1]);
    WalkWeightPrefix(d, es, j);
  }

  /** Queue weights never decrease from front to back and span at most one. */
  predicate Banded(d: Discipline, f: seq<Entry>)
  {
    forall i, j :: 0 <= i < j < |f| ==> Weight(d, f[i]) <= Weight(d, f[j]) <= Weight(d, f[i]) + 1
  }

  // ---------------------------------------------------------------- the invariant
  //
  // `dist` records, for every visited node, the weight of the entry that
  // first popped it.

  /** If `ed` leads from the visited node `u` to an unvisited node, an entry
      for its target is waiting whose weight is at most `u`'s recorded weight
      plus the edge's. */
  ghost predicate CoveredAt(g: Graph, d: Discipline, st: State, dist: map<Node, int>, u: Node, ed: Edge)
    requires st.visited <= dist.Keys
  {
    u in st.visited && ed in Neighbors(g, u) && ed.node !in st.visited ==>
      exists f :: f in st.frontier && f.node == ed.node && Weight(d, f) <= dist[u] + EdgeWeight(d, ed)
  }

  ghost predicate Covered(g: Graph, d: Discipline, st: State, dist: map<Node, int>)
    requires st.visited <= dist.Keys
  {
    forall u, ed :: CoveredAt(g, d, st, dist, u, ed)
  }

  /** If `es` is a walk to a visited node, it is no lighter than that node's
      recorded weight. */
  ghost predicate LowestFor(g: Graph, start: Node, d: Discipline, visited: set<Node>, dist: map<Node, int>, es: seq<Edge>)
    requires visited <= dist.Keys
  {
    IsWalk(g, start, es) && End(start, es) in visited ==> dist[End(start, es)] <= WalkWeight(d, es)
  }

  ghost predicate Lowest(g: Graph, start: Node, d: Discipline, visited: set<Node>, dist: map<Node, int>)
    requires visited <= dist.Keys
  {
    forall es :: LowestFor(g, start, d, visited, dist, es)
  }

  ghost predicate StartPending(d: Discipline, st: State, start: Node)
  {
    start in st.visited || exists f :: f in st.frontier && f.node == start && Weight(d, f) <= 0
  }

  ghost predicate OptInv(g: Graph, start: Node, d: Discipline, st: State, dist: map<Node, int>)
  {
    && WellFormed(st)
    && (d == Fifo ==> Banded(d, st.frontier))
    && st.visited <= dist.Keys
    && Covered(g, d, st, dist)
    && Lowest(g, start, d, st.visited, dist)
    && StartPending(d, st, start)
  }

  // ---------------------------------------------------------------- the argument

  /** A queue kept banded, or a queue sorted before the pop, hands out a
      lightest entry. */
  lemma PopIsLightest(d: Discipline, f: seq<Entry>)
    requires f != [] && d != Lifo
    requires d == Fifo ==> Banded(d, f)
    ensures forall x :: x in f ==> Weight(d, Pop(d, f).0) <= Weight(d, x)
  {
    if d == Fifo {
      forall x | x in f
        ensures Weight(d, f[0]) <= Weight(d, x)
      {
        var i :| 0 <= i < |f| && f[i] == x;
      }
    }
  }

  /** The first node of a walk that is not yet visited, given that its end is not. */
  lemma FirstOutside(g: Graph, start: Node, es: seq<Edge>, visited: set<Node>) returns (j: nat)
    requires End(start, es) !in visited
    ensures j <= |es| && At(start, es, j) !in visited
    ensures j > 0 ==> At(start, es, j - 1) in visited
  {
    j := 0;
    while At(start, es, j) in visited
      invariant j <= |es|
      invariant j > 0 ==> At(start, es, j - 1) in visited
      decreases |es| - j
    {
      j := j + 1;
    }
  }

  lemma LowestAt(g: Graph, start: Node, d: Discipline, visited: set<Node>, dist: map<Node, int>, es: seq<Edge>)
    requires visited <= dist.Keys && Lowest(g, start, d, visited, dist)
    requires IsWalk(g, start, es) && End(start, es) in visited
    ensures dist[End(start, es)] <= WalkWeight(d, es)
  {
    assert LowestFor(g, start, d, visited, dist, es);
  }

  /** The edge on which a walk leaves the visited set has a waiting entry no
      heavier than the walk. */
  lemma CrossingEntry(g: Graph, start: Node, d: Discipline, st: State, dist: map<Node, int>, es: seq<Edge>, j: nat)
    requires st.visited <= dist.Keys
    requires Covered(g, d, st, dist) && Lowest(g, start, d, st.visited, dist)
    requires IsWalk(g, start, es) && 0 < j <= |es|
    requires At(start, es, j - 1) in st.visited && At(start, es, j) !in st.visited
    ensures exists f :: f in st.frontier && Weight(d, f) <= WalkWeight(d, es)
  {
    var u, ed, p := At(start, es, j - 1), es[j - 1], es[..j - 1];
    assert IsWalk(g, start, p) && End(start, p) == u by {
      WalkPrefix(g, start, es, j - 1);
    }
    assert dist[u] <= WalkWeight(d, p) by {
      LowestAt(g, start, d, st.visited, dist, p);
    }
    assert WalkWeight(d, p) + EdgeWeight(d, ed) <= WalkWeight(d, es) by {
      WalkWeightStep(d, es, j);
    }
    assert ed in Neighbors(g, u) && ed.node !in st.visited;
    assert CoveredAt(g, d, st, dist, u, ed);
    var f :| f in st.frontier && f.node == ed.node && Weight(d, f) <= dist[u] + EdgeWeight(d, ed);
  }

  /** The entry popped next is no heavier than any walk to an unvisited node. */
  lemma LowerBound(g: Graph, start: Node, d: Discipline, st: State, dist: map<Node, int>, es: seq<Edge>)
    requires OptInv(g, start, d, st, dist) && d != Lifo && st.frontier != []
    requires IsWalk(g, start, es) && End(start, es) !in st.visited
    ensures Weight(d, Pop(d, st.frontier).0) <= WalkWeight(d, es)
  {
    var j := FirstOutside(g, start, es, st.visited);
    PopIsLightest(d, st.frontier);
    if j == 0 {
      assert start !in st.visited;
    } else {
      CrossingEntry(g, start, d, st, dist, es, j);
    }
  }

  // ---------------------------------------------------------------- one iteration

  function NextDist(d: Discipline, st: State, dist: map<Node, int>): map<Node, int>
    requires st.frontier != []
  {
    var cur := Pop(d, st.frontier).0;
    if cur.node in st.visited then dist else dist[cur.node := Weight(d, cur)]
  }

  lemma NextBanded(g: Graph, st: State)
    requires st.frontier != [] && WellFormed(st) && Banded(Fifo, st.frontier)
    ensures Banded(Fifo, Next(g, Fifo, st).frontier)
  {
    var cur := st.frontier[0];
    var rest := st.frontier[1..];
    var pushed := Expand(cur, st.visited + {cur.node}, Neighbors(g, cur.node));
    var f := rest + pushed;
    assert Next(g, Fifo, st).frontier == f;
    assert cur in st.frontier;
    forall c | c in pushed
      ensures Weight(Fifo, c) == Weight(Fifo, cur) + 1
    {
    }
    forall i | 0 <= i < |rest|
      ensures Weight(Fifo, cur) <= Weight(Fifo, rest[i]) <= Weight(Fifo, cur) + 1
    {
      assert rest[i] == st.frontier[i + 1];
    }
    forall i, j | 0 <= i < j < |f|
      ensures Weight(Fifo, f[i]) <= Weight(Fifo, f[j]) <= Weight(Fifo, f[i]) + 1
    {
      if j < |rest| {
        assert f[i] == st.frontier[i + 1] && f[j] == st.frontier[j + 1];
      } else if i >= |rest| {
        assert f[i] in pushed && f[j] in pushed;
      } else {
        assert f[j] in pushed;
      }
    }
  }

  lemma NextLowest(g: Graph, start: Node, d: Discipline, st: State, dist: map<Node, int>)
    requires OptInv(g, start, d, st, dist) && d != Lifo && st.frontier != []
    ensures var nx := Next(g, d, st);
            nx.visited <= NextDist(d, st, dist).Keys && Lowest(g, start, d, nx.visited, NextDist(d, st, dist))
  {
    var cur := Pop(d, st.frontier).0;
    var dist' := NextDist(d, st, dist);
    var visited := st.visited + {cur.node};
    assert Next(g, d, st).visited == visited;
    forall es
      ensures LowestFor(g, start, d, visited, dist', es)
    {
      if IsWalk(g, start, es) && End(start, es) in visited {
        if End(start, es) !in st.visited {
          LowerBound(g, start, d, st, dist, es);
        } else {
          LowestAt(g, start, d, st.visited, dist, es);
        }
      }
    }
  }

  /** A waiting entry for a node other than the popped one stays behind. */
  lemma CoveredKept(g: Graph, d: Discipline, st: State, dist: map<Node, int>, cur: Entry, rest: seq<Entry>, u: Node, ed: Edge)
    requires st.visited <= dist.Keys && Covered(g, d, st, dist)
    requires forall x :: x in st.frontier ==> x == cur || x in rest
    requires u in st.visited && ed in Neighbors(g, u) && ed.node !in st.visited && ed.node != cur.node
    ensures exists f :: f in rest && f.node == ed.node && Weight(d, f) <= dist[u] + EdgeWeight(d, ed)
  {
    assert CoveredAt(g, d, st, dist, u, ed);
    var f :| f in st.frontier && f.node == ed.node && Weight(d, f) <= dist[u] + EdgeWeight(d, ed);
  }

  lemma NextCovered(g: Graph, d: Discipline, st: State, dist: map<Node, int>)
    requires st.frontier != [] && st.visited <= dist.Keys && Covered(g, d, st, dist)
    ensures var nx := Next(g, d, st);
            nx.visited <= NextDist(d, st, dist).Keys && Covered(g, d, nx, NextDist(d, st, dist))
  {
    var popped := Pop(d, st.frontier);
    var cur, rest := popped.0, popped.1;
    var dist' := NextDist(d, st, dist);
    var visited := st.visited + {cur.node};
    var pushed := Expand(cur, visited, Neighbors(g, cur.node));
    assert Next(g, d, st) == State(rest + pushed, visited, st.steps + [cur.node]);
    PopSplits(d, st.frontier);
    forall u: Node, ed: Edge
      ensures CoveredAt(g, d, Next(g, d, st), dist', u, ed)
    {
      if !(u in visited && ed in Neighbors(g, u) && ed.node !in visited) {
      } else if u in st.visited {
        CoveredKept(g, d, st, dist, cur, rest, u, ed);
        var f: Entry :| f in rest && f.node == ed.node && Weight(d, f) <= dist[u] + EdgeWeight(d, ed);
        assert f in rest + pushed;
      } else {
        var c := Child(cur, ed);
        assert c in pushed;
        assert c in rest + pushed;
      }
    }
  }

  lemma NextStartPending(g: Graph, start: Node, d: Discipline, st: State, dist: map<Node, int>)
    requires OptInv(g, start, d, st, dist) && st.frontier != []
    ensures StartPending(d, Next(g, d, st), start)
  {
    var popped := Pop(d, st.frontier);
    if start !in st.visited + {popped.0.node} {
      var f :| f in st.frontier && f.node == start && Weight(d, f) <= 0;
      PopKeeps(d, st.frontier, f);
      assert Next(g, d, st).frontier == popped.1 + Expand(popped.0, st.visited + {popped.0.node}, Neighbors(g, popped.0.node));
    }
  }

  lemma NextOpt(g: Graph, start: Node, d: Discipline, st: State, dist: map<Node, int>)
    requires OptInv(g, start, d, st, dist) && d != Lifo && st.frontier != []
    ensures OptInv(g, start, d, Next(g, d, st), NextDist(d, st, dist))
  {
    NextWellFormed(g, d, st);
    if d == Fifo {
      NextBanded(g, st);
    }
    NextLowest(g, start, d, st, dist);
    NextCovered(g, d, st, dist);
    NextStartPending(g, start, d, st, dist);
  }

  // ---------------------------------------------------------------- the loop

  /** While the invariant holds, the entry popped next is no heavier than
      any walk to an unvisited goal. */
  lemma PoppedBound(g: Graph, start: Node, goal: Node, d: Discipline, st: State, dist: map<Node, int>)
    requires OptInv(g, start, d, st, dist) && d != Lifo && st.frontier != [] && goal !in st.visited
    ensures forall es :: IsWalk(g, start, es) && End(start, es) == goal ==>
              Weight(d, Pop(d, st.frontier).0) <= WalkWeight(d, es)
  {
    forall es | IsWalk(g, start, es) && End(start, es) == goal
      ensures Weight(d, Pop(d, st.frontier).0) <= WalkWeight(d, es)
    {
      LowerBound(g, start, d, st, dist, es);
    }
  }

  /** The goal popped while the invariant holds is no heavier than any walk to it. */
  lemma GoalPoppedOptimal(g: Graph, start: Node, goal: Node, d: Discipline, st: State, dist: map<Node, int>)
    requires OptInv(g, start, d, st, dist) && d != Lifo && goal !in st.visited
    requires st.frontier != [] && Pop(d, st.frontier).0.node == goal
    ensures var r := Run(g, goal, d, st);
            forall es :: IsWalk(g, start, es) && End(start, es) == goal ==>
              Weight(d, Entry(goal, r.path, r.cost)) <= WalkWeight(d, es)
  {
    PoppedBound(g, start, goal, d, st, dist);
    RunUnfold(g, goal, d, st);
    var r := Run(g, goal, d, st);
    assert Entry(goal, r.path, r.cost) == Pop(d, st.frontier).0;
  }

  /** An iteration that does not pop the goal keeps the invariant, leaves
      the goal unvisited, shrinks the measure and does not change the outcome. */
  lemma NextKeepsOptInv(g: Graph, start: Node, goal: Node, d: Discipline, st: State, dist: map<Node, int>)
    requires OptInv(g, start, d, st, dist) && d != Lifo && goal !in st.visited
    requires st.frontier != [] && Pop(d, st.frontier).0.node != goal
    ensures var nx := Next(g, d, st);
            && OptInv(g, start, d, nx, NextDist(d, st, dist))
            && goal !in nx.visited
            && Total(g, nx.frontier) < Total(g, st.frontier)
            && Run(g, goal, d, st) == Run(g, goal, d, nx)
  {
    NextOpt(g, start, d, st, dist);
    NextDecreases(g, d, st);
    RunUnfold(g, goal, d, st);
  }

  lemma {:induction false} RunOptimal(g: Graph, start: Node, goal: Node, d: Discipline, st: State, dist: map<Node, int>)
    requires OptInv(g, start, d, st, dist) && d != Lifo && goal !in st.visited
    ensures var r := Run(g, goal, d, st);
            r.path != [] ==>
              forall es :: IsWalk(g, start, es) && End(start, es) == goal ==>
                Weight(d, Entry(goal, r.path, r.cost)) <= WalkWeight(d, es)
    decreases Total(g, st.frontier)
  {
    if st.frontier != [] {
      var cur := Pop(d, st.frontier).0;
      if cur.node == goal {
        GoalPoppedOptimal(g, start, goal, d, st, dist);
      } else {
        NextKeepsOptInv(g, start, goal, d, st, dist);
        RunOptimal(g, start, goal, d, Next(g, d, st), NextDist(d, st, dist));
      }
    }
  }

  lemma InitOpt(g: Graph, start: Node, d: Discipline)
    ensures OptInv(g, start, d, Init(start), map[])
  {
    assert Init(start).frontier[0].node == start;
  }

  /** Breadth-first search returns a path with no more nodes than any path of
      the graph from `start` to `goal`. */
  lemma BreadthFirstSearchFindsFewestEdges(g: Graph, start: Node, goal: Node)
    ensures var r := BreadthFirstSearch(g, start, goal);
            r.path != [] ==>
              forall q :: IsPathIn(g, q) && |q| > 0 && q[0] == start && q[|q| - 1] == goal ==> |r.path| <= |q|
  {
    var r := Search(g, start, goal, Fifo);
    InitOpt(g, start, Fifo);
    RunOptimal(g, start, goal, Fifo, Init(start), map[]);
    forall q | IsPathIn(g, q) && |q| > 0 && q[0] == start && q[|q| - 1] == goal
      ensures r.path != [] ==> |r.path| <= |q|
    {
      var es := PathHasWalk(g, q);
    }
  }

  /** Uniform-cost search returns a cost no greater than that of any walk of
      the graph from `start` to `goal`. */
  lemma UniformCostSearchIsCheapest(g: Graph, start: Node, goal: Node)
    ensures var r := UniformCostSearch(g, start, goal);
            r.path != [] ==>
              forall es :: IsWalk(g, start, es) && End(start, es) == goal ==> r.cost.value <= Cost(es)
  {
    InitOpt(g, start, CheapestFirst);
    RunOptimal(g, start, goal, CheapestFirst, Init(start), map[]);
  }

  // ---------------------------------------------------------------- depth-first order

  /** After expanding `cur`, depth-first search next pops the entry for the
      last-listed adjacency entry of `cur` whose target was unvisited. */
  lemma DepthFirstExpandsLastNeighbor(g: Graph, st: State, k: nat)
    requires st.frontier != []
    requires var cur := Pop(Lifo, st.frontier).0;
             var es := Neighbors(g, cur.node);
             && k < |es| && es[k].node !in st.visited + {cur.node}
             && forall j :: k < j < |es| ==> es[j].node in st.visited + {cur.node}
    ensures var cur := Pop(Lifo, st.frontier).0;
            var nx := Next(g, Lifo, st);
            nx.frontier != [] && Pop(Lifo, nx.frontier).0 == Child(cur, Neighbors(g, cur.node)[k])
  {
    var popped := Pop(Lifo, st.frontier);
    var cur := popped.0;
    var visited := st.visited + {cur.node};
    var pushed := Expand(cur, visited, Neighbors(g, cur.node));
    ExpandLast(cur, visited, Neighbors(g, cur.node), k);
    var f := popped.1 + pushed;
    assert Next(g, Lifo, st).frontier == f;
    assert f[|f| - 1] == pushed[|pushed| - 1];
  }
}
