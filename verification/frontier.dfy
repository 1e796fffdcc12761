/** The frontier of the three searches: its entries, the entries a popped
    node pushes, and the three ways an entry leaves it (queue, stack, and a
    queue re-sorted by cost before every pop). */
module Frontier {
  import opened Graphs

  /** A frontier entry `{ node, path, cost }`: the node to expand, the path
      that led to it, and the accumulated cost of that path. */
  datatype Entry = Entry(node: Node, path: seq<Node>, cost: nat)

  /** How the next entry leaves the frontier: `queue.shift()` (breadth-first),
      `stack.pop()` (depth-first), or `queue.sort(byCost)` then `queue.shift()`
      (uniform-cost). */
  datatype Discipline = Fifo | Lifo | CheapestFirst

  /** The entry pushed for adjacency entry `ed` of the expanded entry `cur`. */
  function Child(cur: Entry, ed: Edge): Entry
  {
    Entry(ed.node, cur.path + [ed.node], cur.cost + ed.cost)
  }

  /** Reference count: the adjacency entries of `es` whose target is not in `visited`. */
  function CountUnvisited(es: seq<Edge>, visited: set<Node>): nat
  {
    if es == [] then 0 else (if es[0].node in visited then 0 else 1) + CountUnvisited(es[1..], visited)
  }

  /** The entries pushed when `cur` is expanded: one per adjacency entry in
      `es` whose target is not yet visited, in adjacency order. Duplicate
      adjacency entries each push their own entry. */
  function Expand(cur: Entry, visited: set<Node>, es: seq<Edge>): (r: seq<Entry>)
    ensures |r| == CountUnvisited(es, visited) <= |es|
    ensures forall ed :: ed in es && ed.node !in visited ==> Child(cur, ed) in r
    ensures forall c :: c in r ==> exists ed :: ed in es && ed.node !in visited && c == Child(cur, ed)
  {
    if es == [] then []
    else
      var rest := Expand(cur, visited, es[1..]);
      assert forall ed :: ed in es ==> ed == es[0] || ed in es[1..];
      (if es[0].node in visited then [] else [Child(cur, es[0])]) + rest
  }

  lemma ExpandCons(cur: Entry, visited: set<Node>, es: seq<Edge>)
    requires es != []
    ensures Expand(cur, visited, es)
            == (if es[0].node in visited then [] else [Child(cur, es[0])]) + Expand(cur, visited, es[1..])
  {
  }

  /** Entries are pushed in adjacency order: the entry for `es[j]` comes after
      one entry for each earlier adjacency entry with an unvisited target. */
  lemma {:induction false} ExpandOrder(cur: Entry, visited: set<Node>, es: seq<Edge>, j: nat)
    requires j < |es| && es[j].node !in visited
    ensures var r := Expand(cur, visited, es);
            var n := CountUnvisited(es[..j], visited);
            n < |r| && r[n] == Child(cur, es[j])
    decreases j
  {
    ExpandCons(cur, visited, es);
    if j == 0 {
      assert es[..0] == [];
    } else {
      var pre := es[..j];
      assert pre[0] == es[0] && pre[1..] == es[1..][..j - 1];
      ExpandOrder(cur, visited, es[1..], j - 1);
    }
  }

  /** The last entry pushed comes from the last adjacency entry whose target
      is unvisited: on a stack it is the first one expanded. */
  lemma {:induction false} ExpandLast(cur: Entry, visited: set<Node>, es: seq<Edge>, k: nat)
    requires k < |es| && es[k].node !in visited
    requires forall j :: k < j < |es| ==> es[j].node in visited
    ensures var r := Expand(cur, visited, es); r != [] && r[|r| - 1] == Child(cur, es[k])
    decreases |es|
  {
    if k > 0 {
      ExpandLast(cur, visited, es[1..], k - 1);
    } else {
      ExpandNone(cur, visited, es[1..]);
    }
  }

  lemma {:induction false} ExpandNone(cur: Entry, visited: set<Node>, es: seq<Edge>)
    requires forall j :: 0 <= j < |es| ==> es[j].node in visited
    ensures Expand(cur, visited, es) == []
    decreases |es|
  {
    if es != [] {
      ExpandNone(cur, visited, es[1..]);
    }
  }

  // ---------------------------------------------------------------- sorting

  predicate SortedByCost(s: seq<Entry>)
  {
    forall i, j :: 0 <= i < j < |s| ==> s[i].cost <= s[j].cost
  }

  /** Places `e` behind every entry of `s` whose cost does not exceed its own. */
  function Insert(s: seq<Entry>, e: Entry): (r: seq<Entry>)
    ensures multiset(r) == multiset(s) + multiset{e}
    ensures s != [] ==> r[0] == (if e.cost < s[0].cost then e else s[0])
  {
    if s == [] then [e]
    else if e.cost < s[0].cost then [e] + s
    else
      assert s == [s[0]] + s[1..];
      [s[0]] + Insert(s[1..], e)
  }

  lemma InsertFrom(s: seq<Entry>, e: Entry, x: Entry)
    requires x in Insert(s, e)
    ensures x == e || x in s
  {
    assert x in multiset(Insert(s, e));
  }

  lemma SortedTailAbove(s: seq<Entry>)
    requires s != [] && SortedByCost(s)
    ensures forall x :: x in s[1..] ==> s[0].cost <= x.cost
  {
    forall x | x in s[1..]
      ensures s[0].cost <= x.cost
    {
      var i :| 0 <= i < |s| - 1 && s[1..][i] == x;
      assert s[i + 1] == x;
    }
  }

  lemma ConsSorted(h: Entry, r: seq<Entry>)
    requires SortedByCost(r) && forall x :: x in r ==> h.cost <= x.cost
    ensures SortedByCost([h] + r)
  {
    var t := [h] + r;
    forall i, j | 0 <= i < j < |t|
      ensures t[i].cost <= t[j].cost
    {
      assert t[j] == r[j - 1];
      if i > 0 {
        assert t[i] == r[i - 1];
      }
    }
  }

  lemma {:induction false} InsertSorted(s: seq<Entry>, e: Entry)
    requires SortedByCost(s)
    ensures SortedByCost(Insert(s, e))
    decreases |s|
  {
    if s != [] && e.cost >= s[0].cost {
      var tail := s[1..];
      var r' := Insert(tail, e);
      assert SortedByCost(tail);
      InsertSorted(tail, e);
      SortedTailAbove(s);
      forall x | x in r'
        ensures s[0].cost <= x.cost
      {
        InsertFrom(tail, e, x);
      }
      ConsSorted(s[0], r');
      assert Insert(s, e) == [s[0]] + r';
    }
  }

  /** `queue.sort((a, b) => a.cost - b.cost)`. The sort is stable, so it is
      modelled as an insertion sort that keeps equal-cost entries in their
      frontier order. */
  function SortByCost(f: seq<Entry>): (s: seq<Entry>)
    ensures multiset(s) == multiset(f)
    ensures SortedByCost(s)
  {
    if f == [] then []
    else
      assert f == f[..|f| - 1] + [f[|f| - 1]];
      InsertSorted(SortByCost(f[..|f| - 1]), f[|f| - 1]);
      Insert(SortByCost(f[..|f| - 1]), f[|f| - 1])
  }

  /** The entries of cost `k` that `e` contributes: itself or nothing. */
  function OwnCost(e: Entry, k: nat): seq<Entry>
  {
    if e.cost == k then [e] else []
  }

  /** Reference filter: the entries of `s` that cost exactly `k`, in `s`'s order. */
  function OfCost(s: seq<Entry>, k: nat): seq<Entry>
  {
    if s == [] then [] else OwnCost(s[0], k) + OfCost(s[1..], k)
  }

  lemma {:induction false} OfCostAppend(a: seq<Entry>, b: seq<Entry>, k: nat)
    ensures OfCost(a + b, k) == OfCost(a, k) + OfCost(b, k)
    decreases |a|
  {
    if a == [] {
      assert a + b == b;
    } else {
      assert (a + b)[0] == a[0] && (a + b)[1..] == a[1..] + b;
      OfCostAppend(a[1..], b, k);
    }
  }

  lemma {:induction false} OfCostNone(s: seq<Entry>, k: nat)
    requires forall i :: 0 <= i < |s| ==> s[i].cost != k
    ensures OfCost(s, k) == []
    decreases |s|
  {
    if s != [] {
      OfCostNone(s[1..], k);
    }
  }

  lemma InsertStableFront(s: seq<Entry>, e: Entry, k: nat)
    requires SortedByCost(s) && s != [] && e.cost < s[0].cost
    ensures OfCost(Insert(s, e), k) == OfCost(s, k) + OwnCost(e, k)
  {
    assert Insert(s, e) == [e] + s;
    assert ([e] + s)[1..] == s;
    if e.cost == k {
      OfCostNone(s, k);
    }
  }

  /** Putting `h` in front of both sides keeps an `OfCost` equation. */
  lemma OfCostConsBoth(h: Entry, tail: seq<Entry>, rest: seq<Entry>, e: Entry, k: nat)
    requires OfCost(rest, k) == OfCost(tail, k) + OwnCost(e, k)
    ensures OfCost([h] + rest, k) == OfCost([h] + tail, k) + OwnCost(e, k)
  {
    assert ([h] + rest)[0] == h && ([h] + rest)[1..] == rest;
    assert ([h] + tail)[0] == h && ([h] + tail)[1..] == tail;
    var head := OwnCost(h, k);
    assert head + (OfCost(tail, k) + OwnCost(e, k)) == (head + OfCost(tail, k)) + OwnCost(e, k);
  }

  /** Inserting `e` into a sorted sequence puts it behind every entry of its cost. */
  lemma {:induction false} InsertStable(s: seq<Entry>, e: Entry, k: nat)
    requires SortedByCost(s)
    ensures OfCost(Insert(s, e), k) == OfCost(s, k) + OwnCost(e, k)
    decreases |s|
  {
    if s == [] {
      assert [e][1..] == [];
    } else if e.cost < s[0].cost {
      InsertStableFront(s, e, k);
    } else {
      assert SortedByCost(s[1..]);
      InsertStable(s[1..], e, k);
      OfCostConsBoth(s[0], s[1..], Insert(s[1..], e), e, k);
      assert Insert(s, e) == [s[0]] + Insert(s[1..], e);
      assert s == [s[0]] + s[1..];
    }
  }

  /** The sort is stable: for every cost, the entries of that cost keep
      their frontier order. */
  lemma {:induction false} SortByCostStable(f: seq<Entry>, k: nat)
    ensures OfCost(SortByCost(f), k) == OfCost(f, k)
    decreases |f|
  {
    if f != [] {
      var init, last := f[..|f| - 1], f[|f| - 1];
      assert f == init + [last];
      assert SortByCost(f) == Insert(SortByCost(init), last);
      SortByCostStable(init, k);
      InsertStable(SortByCost(init), last, k);
      OfCostAppend(init, [last], k);
      assert [last][1..] == [];
    }
  }

  /** After the sort-then-shift pop, every cost class of the rest is that of
      the frontier, in frontier order, less the popped entry. */
  lemma SortedPopStable(f: seq<Entry>)
    requires f != []
    ensures var s := SortByCost(f);
            forall k: nat :: OfCost(f, k) == OwnCost(s[0], k) + OfCost(s[1..], k)
  {
    var s := SortByCost(f);
    forall k: nat
      ensures OfCost(f, k) == OwnCost(s[0], k) + OfCost(s[1..], k)
    {
      SortByCostStable(f, k);
    }
  }

  /** `k` is the first position of a cheapest entry of `f`. */
  predicate FirstCheapest(f: seq<Entry>, k: int)
  {
    && 0 <= k < |f|
    && (forall j :: 0 <= j < |f| ==> f[k].cost <= f[j].cost)
    && (forall j :: 0 <= j < k ==> f[k].cost < f[j].cost)
  }

  lemma FirstCheapestSnoc(init: seq<Entry>, last: Entry, k: int)
    requires FirstCheapest(init, k)
    ensures init[k].cost <= last.cost ==> FirstCheapest(init + [last], k)
    ensures last.cost < init[k].cost ==> FirstCheapest(init + [last], |init|)
  {
    var f := init + [last];
    assert forall j :: 0 <= j < |init| ==> f[j] == init[j];
  }

  /** Reference definition: the first position of a cheapest entry of `f`,
      scanning from the front and moving only on a strictly lower cost. */
  function FirstCheapestIndex(f: seq<Entry>): (k: nat)
    requires f != []
    ensures k < |f|
    decreases |f|
  {
    if |f| == 1 then 0
    else
      var init, last := f[..|f| - 1], f[|f| - 1];
      var k := FirstCheapestIndex(init);
      if last.cost < init[k].cost then |init| else k
  }

  /** The scan finds a cheapest entry, and no earlier entry is as cheap. */
  lemma {:induction false} FirstCheapestIndexSpec(f: seq<Entry>)
    requires f != []
    ensures FirstCheapest(f, FirstCheapestIndex(f))
    decreases |f|
  {
    if |f| > 1 {
      var init, last := f[..|f| - 1], f[|f| - 1];
      assert f == init + [last];
      FirstCheapestIndexSpec(init);
      FirstCheapestSnoc(init, last, FirstCheapestIndex(init));
    }
  }

  /** Stability where it shows: after sorting, the head is the earliest of
      the cheapest entries. */
  lemma {:induction false} SortHeadIsFirstCheapest(f: seq<Entry>)
    requires f != []
    ensures SortByCost(f)[0] == f[FirstCheapestIndex(f)]
    decreases |f|
  {
    var init, last := f[..|f| - 1], f[|f| - 1];
    assert f == init + [last];
    if init == [] {
      assert SortByCost(f) == Insert([], last);
    } else {
      SortHeadIsFirstCheapest(init);
      var k := FirstCheapestIndex(init);
      assert f[k] == init[k];
      assert SortByCost(f) == Insert(SortByCost(init), last);
    }
  }

  // ---------------------------------------------------------------- popping

  lemma SortedHeadIsCheapest(f: seq<Entry>)
    requires f != []
    ensures forall x :: x in f ==> SortByCost(f)[0].cost <= x.cost
  {
    var s := SortByCost(f);
    forall x | x in f
      ensures s[0].cost <= x.cost
    {
      assert x in multiset(s);
      var j :| 0 <= j < |s| && s[j] == x;
    }
  }

  lemma HeadSplit(f: seq<Entry>)
    requires f != []
    ensures multiset(f) == multiset(f[1..]) + multiset{f[0]}
    ensures [f[0]] + f[1..] == f
  {
    assert f == [f[0]] + f[1..];
  }

  lemma LastSplit(f: seq<Entry>)
    requires f != []
    ensures multiset(f) == multiset(f[..|f| - 1]) + multiset{f[|f| - 1]}
    ensures f[..|f| - 1] + [f[|f| - 1]] == f
  {
    assert f == f[..|f| - 1] + [f[|f| - 1]];
  }

  lemma SortedSplit(f: seq<Entry>)
    requires f != []
    ensures var s := SortByCost(f);
            && multiset(f) == multiset(s[1..]) + multiset{s[0]}
            && (forall x :: x in f ==> s[0].cost <= x.cost)
            && SortedByCost(s[1..])
  {
    var s := SortByCost(f);
    HeadSplit(s);
    SortedHeadIsCheapest(f);
  }

  /** The entry that leaves the frontier next and the frontier left behind. */
  function Pop(d: Discipline, f: seq<Entry>): (r: (Entry, seq<Entry>))
    requires f != []
    ensures multiset(f) == multiset(r.1) + multiset{r.0}
    ensures d == Fifo ==> [r.0] + r.1 == f
    ensures d == Lifo ==> r.1 + [r.0] == f
    ensures d == CheapestFirst ==> r.0 == f[FirstCheapestIndex(f)]
    ensures d == CheapestFirst ==> forall x :: x in f ==> r.0.cost <= x.cost
    ensures d == CheapestFirst ==> SortedByCost(r.1)
    ensures d == CheapestFirst ==>
              forall k: nat :: OfCost(f, k) == OwnCost(r.0, k) + OfCost(r.1, k)
  {
    match d
    case Fifo =>
      HeadSplit(f);
      (f[0], f[1..])
    case Lifo =>
      LastSplit(f);
      (f[|f| - 1], f[..|f| - 1])
    case CheapestFirst =>
      SortedSplit(f);
      SortHeadIsFirstCheapest(f);
      SortedPopStable(f);
      (SortByCost(f)[0], SortByCost(f)[1..])
  }

  /** Every entry of the frontier is the popped one or is still there. */
  lemma PopKeeps(d: Discipline, f: seq<Entry>, x: Entry)
    requires f != [] && x in f
    ensures x == Pop(d, f).0 || x in Pop(d, f).1
  {
    assert x in multiset(f);
  }

  /** `PopKeeps` for all entries at once. */
  lemma PopSplits(d: Discipline, f: seq<Entry>)
    requires f != []
    ensures forall x :: x in f ==> x == Pop(d, f).0 || x in Pop(d, f).1
  {
    forall x | x in f
      ensures x == Pop(d, f).0 || x in Pop(d, f).1
    {
      PopKeeps(d, f, x);
    }
  }

  /** Popping invents no entry. */
  lemma PopFrom(d: Discipline, f: seq<Entry>)
    requires f != []
    ensures Pop(d, f).0 in f
    ensures forall x :: x in Pop(d, f).1 ==> x in f
  {
    var r := Pop(d, f);
    assert r.0 in multiset(f);
    forall x | x in r.1
      ensures x in f
    {
      assert x in multiset(r.1);
      assert x in multiset(f);
    }
  }
}
