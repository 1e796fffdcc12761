/** A concrete graph showing that the frontier may hold several entries for
    one node, so that a node is popped, and recorded in `steps`, more than
    once. */
module Duplicates {
  import opened Graphs
  import opened Frontier
  import opened Searches

  /** Two adjacency entries from `A` to `B`: the graph left by submitting the
      same edge twice. */
  function TwinEdges(c: nat): (g: Graph)
    ensures g == BuildGraph([EdgeSpec("A", "B", c), EdgeSpec("A", "B", c)])
  {
    var sp := EdgeSpec("A", "B", c);
    assert [sp, sp][..1] == [sp] && [sp][..0] == [];
    assert BuildGraph([sp, sp]) == AddEdge(BuildGraph([sp]), "A", "B", c);
    var m := map["A" := [Edge("B", c)]];
    assert Neighbors(m, "A") + [Edge("B", c)] == [Edge("B", c), Edge("B", c)];
    assert [] + [Edge("B", c)] == [Edge("B", c)];
    assert BuildGraph([sp]) == m;
    map["A" := [Edge("B", c), Edge("B", c)]]
  }

  /** Of two equal entries, every discipline pops one and keeps the other. */
  lemma PopTwin(d: Discipline, e: Entry)
    ensures Pop(d, [e, e]) == (e, [e])
  {
    var f := [e, e];
    assert f[1..] == [e] && f[..1] == [e];
    if d == CheapestFirst {
      assert [e][..0] == [];
      assert SortByCost([e]) == Insert([], e) == [e];
      assert SortByCost(f) == Insert([e], e) == [e, e];
    }
  }

  /** Two equal adjacency entries to an unvisited node push two equal entries. */
  lemma ExpandTwin(cur: Entry, visited: set<Node>, ed: Edge)
    requires ed.node !in visited
    ensures Expand(cur, visited, [ed, ed]) == [Child(cur, ed), Child(cur, ed)]
  {
    assert [ed, ed][1..] == [ed] && [ed][1..] == [];
    ExpandCons(cur, visited, [ed]);
    ExpandCons(cur, visited, [ed, ed]);
  }

  /** The iteration that pops the only entry of a fresh frontier. */
  lemma NextSingle(g: Graph, d: Discipline, e: Entry)
    ensures Next(g, d, State([e], {}, [])) == State(Expand(e, {e.node}, Neighbors(g, e.node)), {e.node}, [e.node])
  {
    PopSingle(d, e);
    assert [] + Expand(e, {e.node}, Neighbors(g, e.node)) == Expand(e, {e.node}, Neighbors(g, e.node));
    assert {} + {e.node} == {e.node};
    assert [] + [e.node] == [e.node];
  }

  /** Expanding `A` pushes one entry per adjacency entry: two for `B`. */
  lemma TwinStep0(c: nat, d: Discipline)
    ensures var eb := Entry("B", ["A", "B"], c);
            Next(TwinEdges(c), d, Init("A")) == State([eb, eb], {"A"}, ["A"])
  {
    var e0 := Entry("A", ["A"], 0);
    var ed := Edge("B", c);
    NextSingle(TwinEdges(c), d, e0);
    assert Neighbors(TwinEdges(c), "A") == [ed, ed];
    ExpandTwin(e0, {"A"}, ed);
    assert ["A"] + ["B"] == ["A", "B"];
  }

  /** `B` is popped a first time; it has no adjacency entries. */
  lemma TwinStep1(c: nat, d: Discipline)
    ensures var eb := Entry("B", ["A", "B"], c);
            Next(TwinEdges(c), d, State([eb, eb], {"A"}, ["A"])) == State([eb], {"A", "B"}, ["A", "B"])
  {
    PopTwin(d, Entry("B", ["A", "B"], c));
  }

  /** `B` is popped a second time, although already visited. */
  lemma TwinStep2(c: nat, d: Discipline)
    ensures var eb := Entry("B", ["A", "B"], c);
            Next(TwinEdges(c), d, State([eb], {"A", "B"}, ["A", "B"])) == State([], {"A", "B"}, ["A", "B", "B"])
  {
    PopSingle(d, Entry("B", ["A", "B"], c));
  }

  /** Each of the three searches from `A` for a node other than `A` and `B`,
      whatever the edge's cost, steps on `B` twice: once for each of its
      frontier entries. */
  lemma DuplicateEntriesRepeatSteps(c: nat, d: Discipline, goal: Node)
    requires goal != "A" && goal != "B"
    ensures var r := Search(TwinEdges(c), "A", goal, d);
            r.path == [] && r.steps == ["A", "B", "B"]
  {
    var g := TwinEdges(c);
    var eb := Entry("B", ["A", "B"], c);
    var s0 := Init("A");
    var s1 := State([eb, eb], {"A"}, ["A"]);
    var s2 := State([eb], {"A", "B"}, ["A", "B"]);
    TwinStep0(c, d);
    TwinStep1(c, d);
    TwinStep2(c, d);
    PopSingle(d, Entry("A", ["A"], 0));
    PopTwin(d, eb);
    PopSingle(d, eb);
    InitWellFormed("A");
    RunUnfold(g, goal, d, s0);
    RunUnfold(g, goal, d, s1);
    RunUnfold(g, goal, d, s2);
  }
}
