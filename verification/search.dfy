/** The search loop shared by `breadthFirstSearch`, `depthFirstSearch` and
    `uniformCostSearch`: pop an entry, record it in `steps`, mark it visited,
    stop if it is the goal, otherwise push one entry per unvisited neighbour.
    The three differ only in which entry is popped. */
module Searches {
  import opened Graphs
  import opened Frontier

  datatype Option<T> = None | Some(value: T)

  /** The loop's variables: `queue`/`stack`, `visited` and `steps`. */
  datatype State = State(frontier: seq<Entry>, visited: set<Node>, steps: seq<Node>)

  /** What the loop ends with: the path found (empty when the goal was never
      popped), the steps, the cost of the goal's entry (0 when not found),
      and the visited set handed to the visit replay. */
  datatype Outcome = Outcome(path: seq<Node>, steps: seq<Node>, cost: nat, visited: set<Node>)

  /** The value a search function returns: `{ path, steps }` for breadth- and
      depth-first search, `{ path, steps, cost }` for uniform-cost search. */
  datatype SearchResult = SearchResult(path: seq<Node>, steps: seq<Node>, cost: Option<nat>)

  /** The state before the first iteration: one entry for `start`. */
  function Init(start: Node): State
  {
    State([Entry(start, [start], 0)], {}, [])
  }

  /** An entry's path is non-empty, ends at its node, and every earlier node
      of it has already been popped. */
  predicate EntryWF(e: Entry, visited: set<Node>)
  {
    && |e.path| > 0
    && e.node == e.path[|e.path| - 1]
    && forall i :: 0 <= i < |e.path| - 1 ==> e.path[i] in visited
  }

  lemma EntryWFMono(e: Entry, v: set<Node>, v': set<Node>)
    requires EntryWF(e, v) && v <= v'
    ensures EntryWF(e, v')
  {
  }

  predicate WellFormed(st: State)
  {
    forall e :: e in st.frontier ==> EntryWF(e, st.visited)
  }

  /** One iteration whose popped entry is not the goal. */
  function Next(g: Graph, d: Discipline, st: State): State
    requires st.frontier != []
  {
    var popped := Pop(d, st.frontier);
    var cur := popped.0;
    var visited := st.visited + {cur.node};
    State(popped.1 + Expand(cur, visited, Neighbors(g, cur.node)), visited, st.steps + [cur.node])
  }

  // ---------------------------------------------------------------- termination
  //
  // Every entry's path is simple and all of it but the last node is visited,
  // so an entry can only ever give rise to entries for the simple edge-walks
  // that extend its path. `Walks` counts those; `Total`, their sum over the
  // frontier, drops by at least one at every iteration.

  lemma CoverOneMore(t: set<Node>, p: seq<Node>, n: Node)
    requires n in t && n !in p
    ensures |t - Elems(p + [n])| < |t - Elems(p)|
  {
    assert Elems(p + [n]) == Elems(p) + {n};
    assert t - Elems(p) == (t - Elems(p + [n])) + {n};
  }

  /** The number of simple edge-walks that leave the end of `p` through one
      of the adjacency entries `es` and then go on anywhere not yet on them. */
  ghost function Walks(g: Graph, p: seq<Node>, es: seq<Edge>): nat
    requires forall ed :: ed in es ==> ed.node in Targets(g)
    decreases |Targets(g) - Elems(p)|, |es|
  {
    if es == [] then 0
    else
      var n := es[0].node;
      var here := if n in p then 0
                  else (CoverOneMore(Targets(g), p, n); 1 + Walks(g, p + [n], Neighbors(g, n)));
      here + Walks(g, p, es[1..])
  }

  ghost function Pot(g: Graph, p: seq<Node>): nat
  {
    1 + Walks(g, p, if p == [] then [] else Neighbors(g, p[|p| - 1]))
  }

  ghost function Total(g: Graph, f: seq<Entry>): nat
  {
    if f == [] then 0 else Pot(g, f[0].path) + Total(g, f[1..])
  }

  lemma {:induction false} TotalAppend(g: Graph, a: seq<Entry>, b: seq<Entry>)
    ensures Total(g, a + b) == Total(g, a) + Total(g, b)
    decreases |a|
  {
    if a == [] {
      assert a + b == b;
    } else {
      assert (a + b)[0] == a[0];
      assert (a + b)[1..] == a[1..] + b;
      TotalAppend(g, a[1..], b);
    }
  }

  lemma {:induction false} TotalInsert(g: Graph, s: seq<Entry>, e: Entry)
    ensures Total(g, Insert(s, e)) == Total(g, s) + Pot(g, e.path)
    decreases |s|
  {
    if s != [] && e.cost >= s[0].cost {
      TotalInsert(g, s[1..], e);
      assert ([s[0]] + Insert(s[1..], e))[1..] == Insert(s[1..], e);
    }
  }

  lemma SortSnoc(f: seq<Entry>)
    requires f != []
    ensures SortByCost(f) == Insert(SortByCost(f[..|f| - 1]), f[|f| - 1])
  {
  }

  lemma TotalSnoc(g: Graph, init: seq<Entry>, last: Entry)
    ensures Total(g, init + [last]) == Total(g, init) + Pot(g, last.path)
  {
    TotalAppend(g, init, [last]);
    assert [last][1..] == [];
  }

  lemma {:induction false} TotalSort(g: Graph, f: seq<Entry>)
    ensures Total(g, SortByCost(f)) == Total(g, f)
    decreases |f|
  {
    if f != [] {
      var init, last := f[..|f| - 1], f[|f| - 1];
      assert f == init + [last];
      SortSnoc(f);
      TotalSort(g, init);
      TotalInsert(g, SortByCost(init), last);
      TotalSnoc(g, init, last);
    }
  }

  /** The measure of a frontier is that of the popped entry plus that of the rest. */
  lemma TotalPop(g: Graph, d: Discipline, f: seq<Entry>)
    requires f != []
    ensures Total(g, f) == Pot(g, Pop(d, f).0.path) + Total(g, Pop(d, f).1)
  {
    match d
    case Fifo =>
      assert Pop(d, f) == (f[0], f[1..]);
    case Lifo =>
      assert Pop(d, f) == (f[|f| - 1], f[..|f| - 1]);
      assert f == f[..|f| - 1] + [f[|f| - 1]];
      TotalSnoc(g, f[..|f| - 1], f[|f| - 1]);
    case CheapestFirst =>
      var s := SortByCost(f);
      assert Pop(d, f) == (s[0], s[1..]);
      TotalSort(g, f);
  }

  /** Each pushed entry accounts for the walks through its adjacency entry. */
  lemma {:induction false} ExpandBounded(g: Graph, cur: Entry, visited: set<Node>, es: seq<Edge>)
    requires |cur.path| > 0
    requires forall x :: x in cur.path ==> x in visited
    requires forall ed :: ed in es ==> ed.node in Targets(g)
    ensures Total(g, Expand(cur, visited, es)) <= Walks(g, cur.path, es)
    decreases |es|
  {
    if es != [] {
      var n := es[0].node;
      var rest := Expand(cur, visited, es[1..]);
      ExpandBounded(g, cur, visited, es[1..]);
      var head := if n in visited then [] else [Child(cur, es[0])];
      assert Expand(cur, visited, es) == head + rest;
      TotalAppend(g, head, rest);
      if n !in visited {
        assert n !in cur.path;
        assert Total(g, head) == Pot(g, cur.path + [n]);
      }
    }
  }

  lemma PoppedWF(d: Discipline, st: State)
    requires st.frontier != [] && WellFormed(st)
    ensures EntryWF(Pop(d, st.frontier).0, st.visited)
  {
    PopFrom(d, st.frontier);
  }

  /** Once an entry's own node is visited, so is every node of its path. */
  lemma PathVisited(e: Entry, visited: set<Node>)
    requires EntryWF(e, visited) && e.node in visited
    ensures forall x :: x in e.path ==> x in visited
  {
    forall x | x in e.path
      ensures x in visited
    {
      var i :| 0 <= i < |e.path| && e.path[i] == x;
    }
  }

  /** The entries left behind stay well formed as the visited set grows. */
  lemma RestWF(d: Discipline, st: State, visited: set<Node>)
    requires st.frontier != [] && WellFormed(st) && st.visited <= visited
    ensures forall e :: e in Pop(d, st.frontier).1 ==> EntryWF(e, visited)
  {
    PopFrom(d, st.frontier);
    forall e | e in Pop(d, st.frontier).1
      ensures EntryWF(e, visited)
    {
      EntryWFMono(e, st.visited, visited);
    }
  }

  /** Expanding an entry whose node is visited pushes well-formed entries. */
  lemma ExpandWF(cur: Entry, visited: set<Node>, es: seq<Edge>)
    requires EntryWF(cur, visited) && cur.node in visited
    ensures forall c :: c in Expand(cur, visited, es) ==> EntryWF(c, visited)
  {
    forall c | c in Expand(cur, visited, es)
      ensures EntryWF(c, visited)
    {
      var ed :| ed in es && ed.node !in visited && c == Child(cur, ed);
      assert c.path[..|c.path| - 1] == cur.path;
    }
  }

  /** One iteration keeps the frontier well formed. */
  lemma NextWellFormed(g: Graph, d: Discipline, st: State)
    requires st.frontier != [] && WellFormed(st)
    ensures WellFormed(Next(g, d, st))
  {
    var popped := Pop(d, st.frontier);
    var cur := popped.0;
    var visited := st.visited + {cur.node};
    var pushed := Expand(cur, visited, Neighbors(g, cur.node));
    PoppedWF(d, st);
    EntryWFMono(cur, st.visited, visited);
    RestWF(d, st, visited);
    ExpandWF(cur, visited, Neighbors(g, cur.node));
    assert Next(g, d, st) == State(popped.1 + pushed, visited, st.steps + [cur.node]);
  }

  /** One iteration shrinks the measure. */
  lemma NextDecreases(g: Graph, d: Discipline, st: State)
    requires st.frontier != [] && WellFormed(st)
    ensures Total(g, Next(g, d, st).frontier) < Total(g, st.frontier)
  {
    var popped := Pop(d, st.frontier);
    var cur := popped.0;
    var visited := st.visited + {cur.node};
    var pushed := Expand(cur, visited, Neighbors(g, cur.node));
    PoppedWF(d, st);
    EntryWFMono(cur, st.visited, visited);
    PathVisited(cur, visited);
    ExpandBounded(g, cur, visited, Neighbors(g, cur.node));
    TotalAppend(g, popped.1, pushed);
    TotalPop(g, d, st.frontier);
    assert Next(g, d, st).frontier == popped.1 + pushed;
  }

  // ---------------------------------------------------------------- the loop

  /** What the loop does to `steps` when it starts from `s`: it only
      appends, it appends at least once if it iterates at all, and the goal
      is appended exactly once, last, when it is found (never otherwise). */
  predicate StepsAppended(s: seq<Node>, goal: Node, iterates: bool, r: Outcome)
  {
    && |r.steps| >= |s| && r.steps[..|s|] == s
    && (iterates ==> |r.steps| > |s|)
    && (r.path == [] ==> goal !in r.steps[|s|..])
    && (r.path != [] ==>
          && |r.steps| > |s|
          && r.steps[|r.steps| - 1] == goal
          && goal !in r.steps[|s|..|r.steps| - 1])
  }

  /** Bookkeeping of `steps` for an iteration that pops the goal. */
  lemma StepsOfGoal(s: seq<Node>, goal: Node, r: Outcome)
    requires r.steps == s + [goal] && r.path != []
    ensures StepsAppended(s, goal, true, r)
  {
    assert r.steps[..|s|] == s;
    assert r.steps[|s|..|r.steps| - 1] == [];
  }

  /** Bookkeeping of `steps` for an iteration that pops another node. */
  lemma StepsOfNonGoal(s: seq<Node>, x: Node, goal: Node, iterates: bool, r: Outcome)
    requires x != goal && StepsAppended(s + [x], goal, iterates, r)
    ensures StepsAppended(s, goal, true, r)
  {
    var t := r.steps;
    assert t[..|s|] == t[..|s| + 1][..|s|];
    assert t[|s|] == x;
    assert t[|s|..] == [x] + t[|s| + 1..];
    if r.path != [] {
      assert t[|s|..|t| - 1] == [x] + t[|s| + 1..|t| - 1];
    }
  }

  /** `while (frontier.length > 0) { ... }` from state `st`. */
  function Run(g: Graph, goal: Node, d: Discipline, st: State): (r: Outcome)
    requires WellFormed(st)
    ensures r.path == [] ==> r.cost == 0
    ensures r.path != [] ==> r.path[|r.path| - 1] == goal
    decreases Total(g, st.frontier)
  {
    if st.frontier == [] then Outcome([], st.steps, 0, st.visited)
    else
      var cur := Pop(d, st.frontier).0;
      PoppedWF(d, st);
      if cur.node == goal then
        Outcome(cur.path, st.steps + [cur.node], cur.cost, st.visited + {cur.node})
      else
        NextWellFormed(g, d, st);
        NextDecreases(g, d, st);
        Run(g, goal, d, Next(g, d, st))
  }

  /** One iteration either returns the popped goal or hands over to the next state. */
  lemma RunUnfold(g: Graph, goal: Node, d: Discipline, st: State)
    requires WellFormed(st) && st.frontier != []
    ensures var cur := Pop(d, st.frontier).0;
            cur.node == goal ==>
              Run(g, goal, d, st) == Outcome(cur.path, st.steps + [cur.node], cur.cost, st.visited + {cur.node})
    ensures var cur := Pop(d, st.frontier).0;
            cur.node != goal ==>
              && WellFormed(Next(g, d, st))
              && Next(g, d, st).steps == st.steps + [cur.node]
              && Run(g, goal, d, st) == Run(g, goal, d, Next(g, d, st))
  {
    NextWellFormed(g, d, st);
  }

  /** The loop's bookkeeping of `steps`, as `StepsAppended` states it. */
  lemma {:induction false} RunSteps(g: Graph, goal: Node, d: Discipline, st: State)
    requires WellFormed(st)
    ensures StepsAppended(st.steps, goal, st.frontier != [], Run(g, goal, d, st))
    decreases Total(g, st.frontier)
  {
    if st.frontier != [] {
      var cur := Pop(d, st.frontier).0;
      RunUnfold(g, goal, d, st);
      if cur.node == goal {
        PoppedWF(d, st);
        StepsOfGoal(st.steps, goal, Run(g, goal, d, st));
      } else {
        NextDecreases(g, d, st);
        var nx := Next(g, d, st);
        RunSteps(g, goal, d, nx);
        StepsOfNonGoal(st.steps, cur.node, goal, nx.frontier != [], Run(g, goal, d, nx));
      }
    }
  }

  lemma PopSingle(d: Discipline, e: Entry)
    ensures Pop(d, [e]) == (e, [])
  {
    if d == CheapestFirst {
      assert [e][..0] == [];
      assert SortByCost([e]) == Insert([], e) == [e];
    }
  }

  lemma InitWellFormed(start: Node)
    ensures WellFormed(Init(start))
  {
  }

  /** The first iteration pops the entry of `start`. */
  lemma FirstIteration(g: Graph, start: Node, goal: Node, d: Discipline)
    requires WellFormed(Init(start))
    ensures var r := Run(g, goal, d, Init(start));
            && |r.steps| > 0 && r.steps[0] == start
            && (start == goal ==> r.path == [start] && r.steps == [start] && r.cost == 0)
  {
    var st := Init(start);
    var e := Entry(start, [start], 0);
    assert st.frontier == [e];
    PopSingle(d, e);
    RunUnfold(g, goal, d, st);
    if start == goal {
      assert st.steps + [start] == [start];
    } else {
      var nx := Next(g, d, st);
      RunSteps(g, goal, d, nx);
      var r := Run(g, goal, d, nx);
      assert r.steps[..1] == [start];
      assert r.steps[0] == r.steps[..1][0];
    }
  }

  /** Steps appended to nothing hold the goal only as the last step of a found path. */
  lemma GoalOnlyLast(goal: Node, r: Outcome)
    requires StepsAppended([], goal, true, r)
    ensures r.path == [] ==> goal !in r.steps
    ensures r.path != [] ==> goal !in r.steps[..|r.steps| - 1]
  {
    assert r.steps[0..] == r.steps;
    assert r.steps[0..|r.steps| - 1] == r.steps[..|r.steps| - 1];
  }

  /** A search from `start` for `goal` under discipline `d`. */
  function Search(g: Graph, start: Node, goal: Node, d: Discipline): (r: Outcome)
    ensures |r.steps| > 0 && r.steps[0] == start
    ensures start == goal ==> r.path == [start] && r.steps == [start] && r.cost == 0
    ensures r.path == [] ==> r.cost == 0
    ensures r.path != [] ==> r.path[|r.path| - 1] == goal && r.steps[|r.steps| - 1] == goal
    ensures r.path == [] ==> goal !in r.steps
    ensures r.path != [] ==> goal !in r.steps[..|r.steps| - 1]
  {
    InitWellFormed(start);
    FirstIteration(g, start, goal, d);
    RunSteps(g, goal, d, Init(start));
    var r := Run(g, goal, d, Init(start));
    GoalOnlyLast(goal, r);
    r
  }

  function BreadthFirstSearch(g: Graph, start: Node, goal: Node): (r: SearchResult)
    ensures r.cost == None
    ensures |r.steps| > 0 && r.steps[0] == start
    ensures start == goal ==> r.path == [start] && r.steps == [start]
  {
    var o := Search(g, start, goal, Fifo);
    SearchResult(o.path, o.steps, None)
  }

  function DepthFirstSearch(g: Graph, start: Node, goal: Node): (r: SearchResult)
    ensures r.cost == None
    ensures |r.steps| > 0 && r.steps[0] == start
    ensures start == goal ==> r.path == [start] && r.steps == [start]
  {
    var o := Search(g, start, goal, Lifo);
    SearchResult(o.path, o.steps, None)
  }

  function UniformCostSearch(g: Graph, start: Node, goal: Node): (r: SearchResult)
    ensures r.cost.Some?
    ensures |r.steps| > 0 && r.steps[0] == start
    ensures start == goal ==> r.path == [start] && r.steps == [start] && r.cost == Some(0)
    ensures r.path == [] ==> r.cost == Some(0)
  {
    var o := Search(g, start, goal, CheapestFirst);
    SearchResult(o.path, o.steps, Some(o.cost))
  }
}
