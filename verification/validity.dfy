/** What a found path is: a simple path of the graph from the start to the
    goal, and, for uniform-cost search, one whose adjacency entries add up to
    the returned cost. */
module Validity {
  import opened Graphs
  import opened Frontier
  import opened Searches

  /** `es` is a walk from `start` along `e.path` whose entries cost `e.cost` in all. */
  ghost predicate Realizes(g: Graph, start: Node, es: seq<Edge>, e: Entry)
  {
    IsWalk(g, start, es) && Traces(start, es, e.path) && Cost(es) == e.cost
  }

  ghost predicate EntryValid(g: Graph, start: Node, e: Entry)
  {
    Distinct(e.path) && exists es :: Realizes(g, start, es, e)
  }

  ghost predicate ValidState(g: Graph, start: Node, st: State)
  {
    WellFormed(st) && forall e :: e in st.frontier ==> EntryValid(g, start, e)
  }

  lemma DistinctSnoc(p: seq<Node>, x: Node)
    requires Distinct(p) && x !in p
    ensures Distinct(p + [x])
  {
  }

  lemma ChildRealized(g: Graph, start: Node, cur: Entry, ed: Edge, es: seq<Edge>)
    requires Realizes(g, start, es, cur) && |cur.path| > 0 && cur.node == cur.path[|cur.path| - 1]
    requires ed in Neighbors(g, cur.node)
    ensures Realizes(g, start, es + [ed], Child(cur, ed))
  {
    assert End(start, es) == cur.path[|es|];
    WalkExtend(g, start, es, ed);
    TracesExtend(start, es, ed, cur.path);
  }

  /** The entry pushed for an unvisited neighbour extends a valid entry validly. */
  lemma ChildValid(g: Graph, start: Node, cur: Entry, ed: Edge, visited: set<Node>)
    requires EntryValid(g, start, cur) && EntryWF(cur, visited)
    requires cur.node in visited
    requires ed in Neighbors(g, cur.node) && ed.node !in visited
    ensures EntryValid(g, start, Child(cur, ed))
  {
    var es :| Realizes(g, start, es, cur);
    ChildRealized(g, start, cur, ed, es);
    assert ed.node !in cur.path by {
      forall i | 0 <= i < |cur.path|
        ensures cur.path[i] != ed.node
      {
        assert cur.path[i] in visited;
      }
    }
    DistinctSnoc(cur.path, ed.node);
  }

  lemma NextValid(g: Graph, start: Node, d: Discipline, st: State)
    requires st.frontier != [] && ValidState(g, start, st)
    ensures ValidState(g, start, Next(g, d, st))
  {
    NextWellFormed(g, d, st);
    var popped := Pop(d, st.frontier);
    var cur, rest := popped.0, popped.1;
    var visited := st.visited + {cur.node};
    var pushed := Expand(cur, visited, Neighbors(g, cur.node));
    assert Next(g, d, st).frontier == rest + pushed;
    PopFrom(d, st.frontier);
    assert EntryWF(cur, st.visited);
    EntryWFMono(cur, st.visited, visited);
    forall e | e in rest + pushed
      ensures EntryValid(g, start, e)
    {
      if e !in rest {
        var ed :| ed in Neighbors(g, cur.node) && ed.node !in visited && e == Child(cur, ed);
        ChildValid(g, start, cur, ed, visited);
      }
    }
  }

  lemma {:induction false} RunValid(g: Graph, start: Node, goal: Node, d: Discipline, st: State)
    requires ValidState(g, start, st)
    ensures var r := Run(g, goal, d, st);
            r.path != [] ==>
              && Distinct(r.path)
              && exists es :: IsWalk(g, start, es) && Traces(start, es, r.path) && Cost(es) == r.cost
    decreases Total(g, st.frontier)
  {
    if st.frontier != [] {
      var cur := Pop(d, st.frontier).0;
      PopFrom(d, st.frontier);
      if cur.node == goal {
        assert EntryValid(g, start, cur);
      } else {
        NextValid(g, start, d, st);
        NextDecreases(g, d, st);
        RunValid(g, start, goal, d, Next(g, d, st));
      }
    }
  }

  lemma InitValid(g: Graph, start: Node)
    ensures ValidState(g, start, Init(start))
  {
    var e := Entry(start, [start], 0);
    assert Realizes(g, start, [], e);
  }

  /** A found path starts at `start`, ends at `goal`, follows adjacency
      entries and repeats no node; the steps run from `start` to `goal`. */
  lemma SearchFindsSimplePath(g: Graph, start: Node, goal: Node, d: Discipline)
    ensures var r := Search(g, start, goal, d);
            r.path != [] ==>
              && r.path[0] == start && r.path[|r.path| - 1] == goal
              && IsPathIn(g, r.path)
              && Distinct(r.path)
              && r.steps[0] == start && r.steps[|r.steps| - 1] == goal
  {
    var r := Search(g, start, goal, d);
    InitValid(g, start);
    RunValid(g, start, goal, d, Init(start));
    if r.path != [] {
      var es :| IsWalk(g, start, es) && Traces(start, es, r.path) && Cost(es) == r.cost;
      WalkTraceIsPath(g, start, es, r.path);
    }
  }

  /** The cost uniform-cost search reports is the summed cost of adjacency
      entries that lead, one per step, along the returned path. */
  lemma UniformCostSearchCostIsPathCost(g: Graph, start: Node, goal: Node)
    ensures var r := UniformCostSearch(g, start, goal);
            r.path != [] ==>
              exists es :: IsWalk(g, start, es) && Traces(start, es, r.path) && Cost(es) == r.cost.value
  {
    InitValid(g, start);
    RunValid(g, start, goal, CheapestFirst, Init(start));
  }
}
