/** What a search explores: the nodes in `steps` are exactly those reachable
    from the start when the goal is not found, and a path is found exactly
    when the goal is reachable. Holds for all three searches. */
module Reach {
  import opened Graphs
  import opened Frontier
  import opened Searches

  /** `visited` is closed under the graph's adjacency entries. */
  ghost predicate ClosedUnderEdges(g: Graph, visited: set<Node>)
  {
    forall u, ed :: u in visited && ed in Neighbors(g, u) ==> ed.node in visited
  }

  /** Loop invariant: everything seen is reachable, the visited set is the set
      of steps, and every adjacency entry leaving a visited node either leads
      to a visited node or has an entry for its target waiting in the frontier. */
  ghost predicate Explored(g: Graph, start: Node, st: State)
  {
    && WellFormed(st)
    && st.visited == Elems(st.steps)
    && (forall v :: v in st.visited ==> Reachable(g, start, v))
    && (forall e :: e in st.frontier ==> Reachable(g, start, e.node))
    && (start in st.visited || exists e :: e in st.frontier && e.node == start)
    && (forall u, ed :: u in st.visited && ed in Neighbors(g, u) && ed.node !in st.visited ==>
          exists f :: f in st.frontier && f.node == ed.node)
  }

  lemma ElemsSnoc(s: seq<Node>, x: Node)
    ensures Elems(s + [x]) == Elems(s) + {x}
  {
  }

  lemma ReachableStep(g: Graph, start: Node, u: Node, ed: Edge)
    requires Reachable(g, start, u) && ed in Neighbors(g, u)
    ensures Reachable(g, start, ed.node)
  {
    var es :| IsWalk(g, start, es) && End(start, es) == u;
    WalkExtend(g, start, es, ed);
  }

  /** Every entry of the next frontier is for a reachable node. */
  lemma NextFrontierReachable(g: Graph, start: Node, d: Discipline, st: State)
    requires st.frontier != [] && Explored(g, start, st)
    ensures forall e :: e in Next(g, d, st).frontier ==> Reachable(g, start, e.node)
  {
    var popped := Pop(d, st.frontier);
    var cur, rest := popped.0, popped.1;
    var visited := st.visited + {cur.node};
    var pushed := Expand(cur, visited, Neighbors(g, cur.node));
    assert Next(g, d, st).frontier == rest + pushed;
    PopFrom(d, st.frontier);
    assert Reachable(g, start, cur.node);
    forall e: Entry | e in rest + pushed
      ensures Reachable(g, start, e.node)
    {
      if e !in rest {
        var ed: Edge :| ed in Neighbors(g, cur.node) && ed.node !in visited && e == Child(cur, ed);
        ReachableStep(g, start, cur.node, ed);
      }
    }
  }

  /** Marking `cur` visited and pushing its expansion keeps an entry waiting
      for every adjacency entry that leaves the visited set, when every old
      entry but `cur` is kept in `rest`. */
  lemma PendingKept(g: Graph, cur: Entry, f: seq<Entry>, rest: seq<Entry>, vis: set<Node>)
    requires forall x :: x in f ==> x == cur || x in rest
    requires forall u, ed :: u in vis && ed in Neighbors(g, u) && ed.node !in vis ==>
               exists x :: x in f && x.node == ed.node
    ensures var vis' := vis + {cur.node};
            var f' := rest + Expand(cur, vis', Neighbors(g, cur.node));
            forall u, ed :: u in vis' && ed in Neighbors(g, u) && ed.node !in vis' ==>
              exists x :: x in f' && x.node == ed.node
  {
    var vis' := vis + {cur.node};
    var pushed := Expand(cur, vis', Neighbors(g, cur.node));
    forall u: Node, ed: Edge | u in vis' && ed in Neighbors(g, u) && ed.node !in vis'
      ensures exists x: Entry :: x in rest + pushed && x.node == ed.node
    {
      if u == cur.node {
        var c := Child(cur, ed);
        assert c in pushed;
        assert c in rest + pushed && c.node == ed.node;
      } else {
        var x :| x in f && x.node == ed.node;
        assert x in rest + pushed && x.node == ed.node;
      }
    }
  }

  /** Every adjacency entry that leaves the next visited set has an entry
      waiting in the next frontier. */
  lemma NextPending(g: Graph, start: Node, d: Discipline, st: State)
    requires st.frontier != [] && Explored(g, start, st)
    ensures var nx := Next(g, d, st);
            forall u, ed :: u in nx.visited && ed in Neighbors(g, u) && ed.node !in nx.visited ==>
              exists f :: f in nx.frontier && f.node == ed.node
  {
    var popped := Pop(d, st.frontier);
    forall x | x in st.frontier
      ensures x == popped.0 || x in popped.1
    {
      PopKeeps(d, st.frontier, x);
    }
    PendingKept(g, popped.0, st.frontier, popped.1, st.visited);
  }

  lemma NextExplored(g: Graph, start: Node, d: Discipline, st: State)
    requires st.frontier != [] && Explored(g, start, st)
    ensures Explored(g, start, Next(g, d, st))
  {
    NextWellFormed(g, d, st);
    var popped := Pop(d, st.frontier);
    var cur, rest := popped.0, popped.1;
    var visited := st.visited + {cur.node};
    var nx := Next(g, d, st);
    assert nx.frontier == rest + Expand(cur, visited, Neighbors(g, cur.node));
    assert nx.visited == visited && nx.steps == st.steps + [cur.node];
    PopFrom(d, st.frontier);
    ElemsSnoc(st.steps, cur.node);
    assert Reachable(g, start, cur.node);
    if start !in visited {
      var f :| f in st.frontier && f.node == start;
      PopKeeps(d, st.frontier, f);
      assert f in nx.frontier;
    }
    NextFrontierReachable(g, start, d, st);
    NextPending(g, start, d, st);
  }

  /** A set holding `start` and closed under adjacency entries holds every
      node reachable from `start`. */
  lemma {:induction false} ClosedHoldsReachable(g: Graph, start: Node, visited: set<Node>, es: seq<Edge>)
    requires start in visited && ClosedUnderEdges(g, visited)
    requires IsWalk(g, start, es)
    ensures End(start, es) in visited
    decreases |es|
  {
    if es != [] {
      var n := |es| - 1;
      WalkPrefix(g, start, es, n);
      ClosedHoldsReachable(g, start, visited, es[..n]);
      assert es[n] in Neighbors(g, At(start, es, n));
    }
  }

  lemma {:induction false} RunExplores(g: Graph, start: Node, goal: Node, d: Discipline, st: State)
    requires Explored(g, start, st)
    ensures var r := Run(g, goal, d, st);
            && r.visited == Elems(r.steps)
            && (r.path != [] ==> Reachable(g, start, goal))
            && (r.path == [] ==> forall v :: v in r.steps <==> Reachable(g, start, v))
    decreases Total(g, st.frontier)
  {
    if st.frontier == [] {
      assert ClosedUnderEdges(g, st.visited);
      forall v | Reachable(g, start, v)
        ensures v in st.steps
      {
        var es :| IsWalk(g, start, es) && End(start, es) == v;
        ClosedHoldsReachable(g, start, st.visited, es);
      }
    } else {
      var cur := Pop(d, st.frontier).0;
      PopFrom(d, st.frontier);
      if cur.node == goal {
        ElemsSnoc(st.steps, cur.node);
      } else {
        NextExplored(g, start, d, st);
        NextWellFormed(g, d, st);
        NextDecreases(g, d, st);
        RunExplores(g, start, goal, d, Next(g, d, st));
      }
    }
  }

  lemma InitExplored(g: Graph, start: Node)
    ensures Explored(g, start, Init(start))
  {
    assert IsWalk(g, start, []) && End(start, []) == start;
  }

  /** When the goal is never popped, the nodes in `steps` are exactly those
      reachable from `start`; either way the visited set handed to the replay
      is the set of steps. */
  lemma SearchExploresReachable(g: Graph, start: Node, goal: Node, d: Discipline)
    ensures var r := Search(g, start, goal, d);
            && r.visited == Elems(r.steps)
            && (r.path == [] ==> forall v :: v in r.steps <==> Reachable(g, start, v))
  {
    InitExplored(g, start);
    RunExplores(g, start, goal, d, Init(start));
  }

  /** Each search finds a path exactly when the goal is reachable. */
  lemma SearchFindsIffReachable(g: Graph, start: Node, goal: Node, d: Discipline)
    ensures Search(g, start, goal, d).path != [] <==> Reachable(g, start, goal)
  {
    InitExplored(g, start);
    RunExplores(g, start, goal, d, Init(start));
    InitWellFormed(start);
    RunSteps(g, goal, d, Init(start));
    var r := Search(g, start, goal, d);
    if r.path == [] {
      assert r.steps[0..] == r.steps;
    }
  }
}
