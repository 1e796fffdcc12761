/** The weighted directed graph the searches run over: an adjacency list that
    `addEdge` grows one entry at a time, and the walks a search can follow in it. */
module Graphs {

  /** A node name, as typed (and upper-cased) in the form. */
  type Node = string

  /** One adjacency entry `{ node, cost }`: the target node and the edge cost. */
  datatype Edge = Edge(node: Node, cost: nat)

  /** Node name to its ordered adjacency list. A node without a list has no out-edges. */
  type Graph = map<Node, seq<Edge>>

  /** One submitted edge, the arguments of `addEdge(from, to, cost)`. */
  datatype EdgeSpec = EdgeSpec(from: Node, to: Node, cost: nat)

  function Elems<T>(s: seq<T>): set<T>
  {
    set x | x in s
  }

  /** The adjacency list of `n`; unknown and sink nodes have none. */
  function Neighbors(g: Graph, n: Node): seq<Edge>
  {
    if n in g then g[n] else []
  }

  /** Every node that occurs as the target of some adjacency entry. */
  function Targets(g: Graph): (t: set<Node>)
    ensures forall n, ed :: ed in Neighbors(g, n) ==> ed.node in t
  {
    set k, ed | k in g && ed in g[k] :: ed.node
  }

  /** Appends `{ node: to, cost }` to the list of `from`, creating that list
      when missing; `to` gets no list of its own. */
  function AddEdge(g: Graph, from: Node, to: Node, cost: nat): (g': Graph)
    ensures Neighbors(g', from) == Neighbors(g, from) + [Edge(to, cost)]
    ensures forall n :: n != from ==> Neighbors(g', n) == Neighbors(g, n)
    ensures g'.Keys == g.Keys + {from}
  {
    g[from := Neighbors(g, from) + [Edge(to, cost)]]
  }

  /** The graph after submitting `specs`, in order, to an empty graph. */
  function BuildGraph(specs: seq<EdgeSpec>): Graph
  {
    if specs == [] then map[]
    else
      var last := specs[|specs| - 1];
      AddEdge(BuildGraph(specs[..|specs| - 1]), last.from, last.to, last.cost)
  }

  /** Reference definition: the edges of `specs` that leave `n`, in submission order. */
  function OutEdges(specs: seq<EdgeSpec>, n: Node): seq<Edge>
  {
    if specs == [] then []
    else if specs[0].from == n then [Edge(specs[0].to, specs[0].cost)] + OutEdges(specs[1..], n)
    else OutEdges(specs[1..], n)
  }

  lemma {:induction false} OutEdgesSnoc(specs: seq<EdgeSpec>, s: EdgeSpec, n: Node)
    ensures OutEdges(specs + [s], n)
            == OutEdges(specs, n) + (if s.from == n then [Edge(s.to, s.cost)] else [])
    decreases |specs|
  {
    if specs == [] {
      assert OutEdges([s], n) == (if s.from == n then [Edge(s.to, s.cost)] else []) + OutEdges([], n);
    } else {
      assert (specs + [s])[1..] == specs[1..] + [s];
      OutEdgesSnoc(specs[1..], s, n);
    }
  }

  /** Building a graph edge by edge lists, for every node, exactly the edges
      submitted from it, in submission order (duplicates kept), and gives a
      list only to nodes that have an out-edge. */
  lemma {:induction false} BuildGraphLists(specs: seq<EdgeSpec>, n: Node)
    ensures Neighbors(BuildGraph(specs), n) == OutEdges(specs, n)
    ensures n in BuildGraph(specs) <==> OutEdges(specs, n) != []
    decreases |specs|
  {
    if specs != [] {
      var init := specs[..|specs| - 1];
      var last := specs[|specs| - 1];
      assert specs == init + [last];
      BuildGraphLists(init, n);
      OutEdgesSnoc(init, last, n);
    }
  }

  // ---------------------------------------------------------------- walks

  /** Node `i` of the walk that leaves `s` through the edges `es`. */
  function At(s: Node, es: seq<Edge>, i: nat): Node
    requires i <= |es|
  {
    if i == 0 then s else es[i - 1].node
  }

  /** The node a walk ends at. */
  function End(s: Node, es: seq<Edge>): Node
  {
    At(s, es, |es|)
  }

  /** `es` is a walk from `s` in `g`: each edge is an adjacency entry of the node it leaves. */
  predicate IsWalk(g: Graph, s: Node, es: seq<Edge>)
  {
    forall i {:trigger At(s, es, i)} :: 0 <= i < |es| ==> es[i] in Neighbors(g, At(s, es, i))
  }

  /** `p` is the node sequence the walk passes through, `s` first. */
  predicate Traces(s: Node, es: seq<Edge>, p: seq<Node>)
  {
    |p| == |es| + 1 && forall i :: 0 <= i < |p| ==> p[i] == At(s, es, i)
  }

  /** The summed cost of the adjacency entries a walk uses. */
  function Cost(es: seq<Edge>): nat
  {
    if es == [] then 0 else Cost(es[..|es| - 1]) + es[|es| - 1].cost
  }

  ghost predicate Reachable(g: Graph, s: Node, v: Node)
  {
    exists es :: IsWalk(g, s, es) && End(s, es) == v
  }

  predicate HasEdge(g: Graph, a: Node, b: Node)
  {
    exists ed :: ed in Neighbors(g, a) && ed.node == b
  }

  /** Each consecutive pair of `p` is an adjacency entry of the earlier node. */
  predicate IsPathIn(g: Graph, p: seq<Node>)
  {
    forall i :: 0 <= i < |p| - 1 ==> HasEdge(g, p[i], p[i + 1])
  }

  predicate Distinct<T(==)>(p: seq<T>)
  {
    forall i, j :: 0 <= i < j < |p| ==> p[i] != p[j]
  }

  /** Extending a walk by an adjacency entry of its end node. */
  lemma WalkExtend(g: Graph, s: Node, es: seq<Edge>, ed: Edge)
    requires IsWalk(g, s, es)
    requires ed in Neighbors(g, End(s, es))
    ensures IsWalk(g, s, es + [ed])
    ensures End(s, es + [ed]) == ed.node
    ensures Cost(es + [ed]) == Cost(es) + ed.cost
  {
    var es' := es + [ed];
    assert es'[..|es'| - 1] == es;
    forall i | 0 <= i < |es'|
      ensures es'[i] in Neighbors(g, At(s, es', i))
    {
      if i < |es| {
        assert es'[i] == es[i] && At(s, es', i) == At(s, es, i);
      }
    }
  }

  /** The node sequence of an extended walk is the old one plus the new end node. */
  lemma TracesExtend(s: Node, es: seq<Edge>, ed: Edge, p: seq<Node>)
    requires Traces(s, es, p)
    ensures Traces(s, es + [ed], p + [ed.node])
  {
    var es' := es + [ed];
    var p' := p + [ed.node];
    forall i | 0 <= i < |p'|
      ensures p'[i] == At(s, es', i)
    {
      if 0 < i < |p| {
        assert es'[i - 1] == es[i - 1];
      }
    }
  }

  /** A prefix of a walk is a walk ending at the corresponding node. */
  lemma WalkPrefix(g: Graph, s: Node, es: seq<Edge>, j: nat)
    requires IsWalk(g, s, es)
    requires j <= |es|
    ensures IsWalk(g, s, es[..j])
    ensures End(s, es[..j]) == At(s, es, j)
  {
    forall i | 0 <= i <= j
      ensures At(s, es[..j], i) == At(s, es, i)
    {
    }
  }

  /** Costs are non-negative, so a prefix of a walk costs no more than the walk. */
  lemma {:induction false} CostPrefix(es: seq<Edge>, j: nat)
    requires j <= |es|
    ensures Cost(es[..j]) <= Cost(es)
    decreases |es| - j
  {
    if j < |es| {
      CostPrefix(es, j + 1);
      assert es[..j + 1][..j] == es[..j];
    } else {
      assert es[..j] == es;
    }
  }

  /** The trace of a walk is a path of the graph, in the sense of `IsPathIn`. */
  lemma WalkTraceIsPath(g: Graph, s: Node, es: seq<Edge>, t: seq<Node>)
    requires IsWalk(g, s, es) && Traces(s, es, t)
    ensures IsPathIn(g, t)
    ensures t[0] == s && t[|t| - 1] == End(s, es)
  {
    forall i | 0 <= i < |t| - 1
      ensures HasEdge(g, t[i], t[i + 1])
    {
      assert es[i] in Neighbors(g, t[i]) && es[i].node == t[i + 1];
    }
  }

  lemma PathPrefix(g: Graph, p: seq<Node>)
    requires |p| > 0 && IsPathIn(g, p)
    ensures IsPathIn(g, p[..|p| - 1])
  {
    var init := p[..|p| - 1];
    forall i | 0 <= i < |init| - 1
      ensures HasEdge(g, init[i], init[i + 1])
    {
      assert HasEdge(g, p[i], p[i + 1]);
    }
  }

  /** Conversely, every non-empty path of the graph is the trace of some walk. */
  lemma {:induction false} PathHasWalk(g: Graph, p: seq<Node>) returns (es: seq<Edge>)
    requires |p| > 0 && IsPathIn(g, p)
    ensures IsWalk(g, p[0], es) && Traces(p[0], es, p)
    ensures End(p[0], es) == p[|p| - 1]
    decreases |p|
  {
    if |p| == 1 {
      es := [];
    } else {
      var init := p[..|p| - 1];
      PathPrefix(g, p);
      var es0 := PathHasWalk(g, init);
      var a, b := p[|p| - 2], p[|p| - 1];
      assert HasEdge(g, a, b);
      var ed :| ed in Neighbors(g, a) && ed.node == b;
      assert End(p[0], es0) == init[|init| - 1] == a;
      WalkExtend(g, p[0], es0, ed);
      TracesExtend(p[0], es0, ed, init);
      es := es0 + [ed];
      assert init + [b] == p;
    }
  }

  /** Adding an edge keeps every walk a walk: reachability only grows. */
  lemma AddEdgeKeepsWalks(g: Graph, from: Node, to: Node, cost: nat, s: Node, es: seq<Edge>)
    requires IsWalk(g, s, es)
    ensures IsWalk(AddEdge(g, from, to, cost), s, es)
  {
    var g' := AddEdge(g, from, to, cost);
    forall i | 0 <= i < |es|
      ensures es[i] in Neighbors(g', At(s, es, i))
    {
      assert es[i] in Neighbors(g, At(s, es, i));
    }
  }

  /** Submitting more edges keeps every walk a walk: reachability only grows. */
  lemma {:induction false} BuildGraphKeepsWalks(specs: seq<EdgeSpec>, more: seq<EdgeSpec>, s: Node, es: seq<Edge>)
    requires IsWalk(BuildGraph(specs), s, es)
    ensures IsWalk(BuildGraph(specs + more), s, es)
    decreases |more|
  {
    if more == [] {
      assert specs + more == specs;
    } else {
      var init, last := more[..|more| - 1], more[|more| - 1];
      BuildGraphKeepsWalks(specs, init, s, es);
      assert specs + more == (specs + init) + [last];
      AddEdgeKeepsWalks(BuildGraph(specs + init), last.from, last.to, last.cost, s, es);
    }
  }
}
