/** The animation that follows a search, as a sequence of frames rather than
    timers: `visualizeSearch` reveals the steps one per frame with a pause
    after each, `extractHighlightPath` turns the found path into `"from-to"`
    edge keys, and `highlightBestPath` highlights those keys one per frame. */
module Replay {
  import opened Graphs
  import opened Frontier
  import opened Searches
  import opened Reach

  /** One call of `drawGraph`: the highlighted edge keys, the highlighted
      nodes, and the pause in milliseconds before the next frame. */
  datatype Frame = Frame(edges: seq<string>, nodes: set<Node>, delayMs: nat)

  const Dash: char := '-'

  /** The key `drawGraph` gives the edge from `a` to `b`. */
  function EdgeKey(a: Node, b: Node): string
  {
    a + [Dash] + b
  }

  /** `extractHighlightPath`: one key per consecutive pair of the path. */
  function ExtractHighlightPath(p: seq<Node>): (keys: seq<string>)
    ensures |keys| == if |p| == 0 then 0 else |p| - 1
    ensures forall i :: 0 <= i < |keys| ==> keys[i] == EdgeKey(p[i], p[i + 1])
  {
    if |p| < 2 then [] else [EdgeKey(p[0], p[1])] + ExtractHighlightPath(p[1..])
  }

  // ---------------------------------------------------------------- splitting keys

  /** `s.split(sep)`: the maximal runs between separators, empty ones included. */
  function Split(s: string, sep: char): (parts: seq<string>)
    ensures |parts| > 0
    decreases |s|
  {
    if s == [] then [""]
    else
      var rest := Split(s[1..], sep);
      if s[0] == sep then [""] + rest else [[s[0]] + rest[0]] + rest[1..]
  }

  /** `parts.join(sep)`. */
  function Join(parts: seq<string>, sep: char): string
    requires |parts| > 0
  {
    if |parts| == 1 then parts[0] else parts[0] + [sep] + Join(parts[1..], sep)
  }

  /** A run without separators is absorbed into the first part. */
  lemma {:induction false} SplitRun(a: string, sep: char, t: string)
    requires sep !in a
    ensures Split(a + t, sep) == [a + Split(t, sep)[0]] + Split(t, sep)[1..]
    decreases |a|
  {
    if a != [] {
      var st := Split(t, sep);
      assert (a + t)[0] == a[0] != sep;
      assert (a + t)[1..] == a[1..] + t;
      SplitRun(a[1..], sep, t);
      var rest := Split(a[1..] + t, sep);
      assert rest == [a[1..] + st[0]] + st[1..];
      assert rest[0] == a[1..] + st[0] && rest[1..] == st[1..];
      assert [a[0]] + (a[1..] + st[0]) == a + st[0];
    } else {
      var st := Split(t, sep);
      assert a + t == t && a + st[0] == st[0];
      assert st == [st[0]] + st[1..];
    }
  }

  /** Joining the parts of a split gives the string back. */
  lemma {:induction false} SplitJoin(s: string, sep: char)
    ensures Join(Split(s, sep), sep) == s
    decreases |s|
  {
    if s != [] {
      SplitJoin(s[1..], sep);
      var rest := Split(s[1..], sep);
      if s[0] == sep {
        assert ([""] + rest)[1..] == rest;
      } else {
        var parts := [[s[0]] + rest[0]] + rest[1..];
        if |rest| > 1 {
          assert parts[1..] == rest[1..];
          assert rest == [rest[0]] + rest[1..];
        }
      }
    }
  }

  /** Splitting a join of separator-free parts gives the parts back. */
  lemma {:induction false} JoinSplit(parts: seq<string>, sep: char)
    requires |parts| > 0
    requires forall i :: 0 <= i < |parts| ==> sep !in parts[i]
    ensures Split(Join(parts, sep), sep) == parts
    decreases |parts|
  {
    if |parts| == 1 {
      SplitRun(parts[0], sep, "");
      assert parts[0] + "" == parts[0];
    } else {
      var t := [sep] + Join(parts[1..], sep);
      JoinSplit(parts[1..], sep);
      assert Join(parts, sep) == parts[0] + t;
      SplitRun(parts[0], sep, t);
      assert t[1..] == Join(parts[1..], sep);
      assert Split(t, sep) == [""] + parts[1..];
      assert parts[0] + "" == parts[0];
    }
  }

  /** For node names without a dash, splitting an edge key on the dash gives
      back exactly the two names it was made from. */
  lemma KeySplitRoundTrip(a: Node, b: Node)
    requires Dash !in a && Dash !in b
    ensures Split(EdgeKey(a, b), Dash) == [a, b]
  {
    assert Join([a, b], Dash) == EdgeKey(a, b);
    JoinSplit([a, b], Dash);
  }

  /** `const [from, to] = key.split('-')`, as the set of nodes it highlights.
      A key without a dash yields only `from`. */
  function Endpoints(key: string): set<Node>
  {
    var parts := Split(key, Dash);
    if |parts| >= 2 then {parts[0], parts[1]} else {parts[0]}
  }

  // ---------------------------------------------------------------- frames

  /** The nodes highlighted after the given keys have been replayed. */
  function Touched(keys: seq<string>): set<Node>
  {
    if keys == [] then {} else Touched(keys[..|keys| - 1]) + Endpoints(keys[|keys| - 1])
  }

  /** `highlightBestPath(keys)` as written: frame `i` highlights the first
      `i + 1` keys and the nodes read back out of them, then waits 1000 ms. */
  function HighlightBestPath(keys: seq<string>): (fs: seq<Frame>)
    ensures |fs| == |keys|
    ensures forall i :: 0 <= i < |fs| ==>
              fs[i].edges == keys[..i + 1] && fs[i].nodes == Touched(keys[..i + 1]) && fs[i].delayMs == 1000
  {
    if keys == [] then []
    else
      var init := keys[..|keys| - 1];
      var fs := HighlightBestPath(init);
      assert forall m :: 0 < m <= |init| ==> init[..m] == keys[..m];
      assert keys[..|keys|] == keys;
      fs + [Frame(keys, Touched(keys), 1000)]
  }

  /** The pause after reveal `i`: a long one after every third node. */
  function VisitDelay(i: nat): nat
  {
    if (i + 1) % 3 == 0 then 1000 else 500
  }

  /** `visualizeSearch(steps, visited)`: frame `i` reveals `steps[i]`. The set
      it draws is the one the search hands over, already holding every
      visited node, with the steps so far added to it. */
  function VisualizeSearch(steps: seq<Node>, visited: set<Node>): (fs: seq<Frame>)
    ensures |fs| == |steps|
    ensures forall i :: 0 <= i < |fs| ==>
              && fs[i].edges == []
              && fs[i].nodes == visited + Elems(steps[..i + 1])
              && fs[i].delayMs == (if (i + 1) % 3 == 0 then 1000 else 500)
  {
    if steps == [] then []
    else
      var init := steps[..|steps| - 1];
      var fs := VisualizeSearch(init, visited);
      assert forall m :: 0 < m <= |init| ==> init[..m] == steps[..m];
      assert steps[..|steps|] == steps;
      fs + [Frame([], visited + Elems(steps), VisitDelay(|steps| - 1))]
  }

  function TotalDelay(fs: seq<Frame>): nat
  {
    if fs == [] then 0 else TotalDelay(fs[..|fs| - 1]) + fs[|fs| - 1].delayMs
  }

  lemma DelayStep(n: nat)
    ensures 500 * (n + 1) + 500 * ((n + 1) / 3) == 500 * n + 500 * (n / 3) + VisitDelay(n)
  {
    assert (n + 1) / 3 == n / 3 + (if (n + 1) % 3 == 0 then 1 else 0);
  }

  /** Revealing `n` steps pauses 500 ms per step plus 500 ms more for every
      third one. */
  lemma {:induction false} VisualizeSearchTotalDelay(steps: seq<Node>, visited: set<Node>)
    ensures TotalDelay(VisualizeSearch(steps, visited)) == 500 * |steps| + 500 * (|steps| / 3)
    decreases |steps|
  {
    if steps != [] {
      var n := |steps| - 1;
      var init := steps[..n];
      var fs := VisualizeSearch(steps, visited);
      VisualizeSearchTotalDelay(init, visited);
      assert fs[..n] == VisualizeSearch(init, visited);
      DelayStep(n);
    }
  }

  // ---------------------------------------------------------------- path frames

  /** The intended path replay: frame `i` highlights the first `i + 1` edges
      of the path and exactly the nodes they join, whatever the node names. */
  function PathFrames(p: seq<Node>): (fs: seq<Frame>)
    ensures |fs| == |ExtractHighlightPath(p)|
    ensures forall i :: 0 <= i < |fs| ==>
              fs[i] == Frame(ExtractHighlightPath(p)[..i + 1], Elems(p[..i + 2]), 1000)
    decreases |p|
  {
    if |p| < 2 then []
    else
      var init := p[..|p| - 1];
      var fs := PathFrames(init);
      var keys := ExtractHighlightPath(p);
      assert ExtractHighlightPath(init) == keys[..|keys| - 1] by {
        var ki := ExtractHighlightPath(init);
        forall i | 0 <= i < |ki|
          ensures ki[i] == keys[i]
        {
          assert init[i] == p[i] && init[i + 1] == p[i + 1];
        }
      }
      assert forall m :: 0 < m <= |init| ==> init[..m] == p[..m];
      assert p[..|p|] == p && keys[..|keys|] == keys;
      fs + [Frame(keys, Elems(p), 1000)]
  }

  lemma TouchedSnoc(p: seq<Node>, n: nat)
    requires 0 < n < |p| && forall k :: 0 <= k < |p| ==> Dash !in p[k]
    ensures var keys := ExtractHighlightPath(p);
            Touched(keys[..n]) == Touched(keys[..n - 1]) + {p[n - 1], p[n]}
  {
    var keys := ExtractHighlightPath(p);
    assert keys[..n][..n - 1] == keys[..n - 1];
    KeySplitRoundTrip(p[n - 1], p[n]);
  }

  lemma {:induction false} TouchedIsPathPrefix(p: seq<Node>, n: nat)
    requires 0 < n < |p| && forall k :: 0 <= k < |p| ==> Dash !in p[k]
    ensures Touched(ExtractHighlightPath(p)[..n]) == Elems(p[..n + 1])
    decreases n
  {
    var keys := ExtractHighlightPath(p);
    var before := Touched(keys[..n - 1]);
    TouchedSnoc(p, n);
    assert Elems(p[..n + 1]) == Elems(p[..n]) + {p[n]} by {
      assert p[..n + 1] == p[..n] + [p[n]];
      ElemsSnoc(p[..n], p[n]);
    }
    if n == 1 {
      assert before == {} by {
        assert keys[..0] == [];
      }
      assert Elems(p[..1]) == {p[0]} by {
        assert p[..1] == [p[0]];
      }
    } else {
      assert before == Elems(p[..n]) by {
        TouchedIsPathPrefix(p, n - 1);
      }
      assert p[n - 1] in Elems(p[..n]) by {
        assert p[..n][n - 1] == p[n - 1];
      }
    }
  }

  lemma FrameAgrees(p: seq<Node>, i: nat)
    requires forall k :: 0 <= k < |p| ==> Dash !in p[k]
    requires i < |ExtractHighlightPath(p)|
    ensures HighlightBestPath(ExtractHighlightPath(p))[i] == PathFrames(p)[i]
  {
    TouchedIsPathPrefix(p, i + 1);
  }

  /** For node names without a dash, the replay as written draws exactly the
      intended frames. */
  lemma HighlightMatchesPathFrames(p: seq<Node>)
    requires forall k :: 0 <= k < |p| ==> Dash !in p[k]
    ensures HighlightBestPath(ExtractHighlightPath(p)) == PathFrames(p)
  {
    var keys := ExtractHighlightPath(p);
    var a, b := HighlightBestPath(keys), PathFrames(p);
    assert |a| == |b|;
    forall i | 0 <= i < |a|
      ensures a[i] == b[i]
    {
      FrameAgrees(p, i);
    }
  }

  /** With a dash inside a node name the split reads the wrong endpoints: for
      the path `A-B` then `C` the key is `A-B-C`, and the frame highlights
      `A` and `B` instead of `A-B` and `C`. */
  lemma HighlightMisreadsDashedNames()
    ensures var p := ["A-B", "C"];
            && ExtractHighlightPath(p) == ["A-B-C"]
            && HighlightBestPath(ExtractHighlightPath(p))[0].nodes == {"A", "B"}
            && PathFrames(p)[0].nodes == {"A-B", "C"}
  {
    var p := ["A-B", "C"];
    var key := EdgeKey(p[0], p[1]);
    assert key == "A-B-C";
    assert ExtractHighlightPath(p) == [key];
    assert Split(key, Dash) == ["A", "B", "C"] by {
      assert Join(["A", "B", "C"], Dash) == key;
      JoinSplit(["A", "B", "C"], Dash);
    }
    assert Touched([key]) == {"A", "B"} by {
      assert [key][..0] == [];
    }
    assert PathFrames(p)[0].nodes == {"A-B", "C"} by {
      assert p[..2] == p;
    }
  }

  // ---------------------------------------------------------------- after a search

  /** What the start button draws after a search: the step reveal, then the
      path replay as written, `highlightBestPath(extractHighlightPath(path))`. */
  function Animation(g: Graph, start: Node, goal: Node, d: Discipline): (r: (seq<Frame>, seq<Frame>))
  {
    var o := Search(g, start, goal, d);
    (VisualizeSearch(o.steps, o.visited), HighlightBestPath(ExtractHighlightPath(o.path)))
  }

  /** When the visited set handed over is the set of steps, every reveal
      frame shows all of it. */
  lemma RevealShowsAllSteps(steps: seq<Node>, visited: set<Node>)
    requires visited == Elems(steps)
    ensures forall i :: 0 <= i < |steps| ==> VisualizeSearch(steps, visited)[i].nodes == Elems(steps)
  {
    var visit := VisualizeSearch(steps, visited);
    forall i | 0 <= i < |steps|
      ensures visit[i].nodes == Elems(steps)
    {
      assert Elems(steps[..i + 1]) <= Elems(steps) by {
        forall x | x in steps[..i + 1]
          ensures x in steps
        {
          var k :| 0 <= k < i + 1 && steps[..i + 1][k] == x;
          assert steps[k] == x;
        }
      }
    }
  }

  /** The path replay as written has one frame per edge; the last shows every
      key and the nodes read back out of them, and for dash-free names every
      frame is the intended one. */
  lemma PathReplayShape(p: seq<Node>)
    ensures var keys := ExtractHighlightPath(p);
            var path := HighlightBestPath(keys);
            && |path| == |keys|
            && (|p| >= 2 ==> path[|path| - 1].edges == keys && path[|path| - 1].nodes == Touched(keys))
            && ((forall k :: 0 <= k < |p| ==> Dash !in p[k]) ==>
                  && (forall i :: 0 <= i < |path| ==> path[i] == PathFrames(p)[i])
                  && (|p| >= 2 ==> path[|path| - 1].nodes == Elems(p)))
  {
    var keys := ExtractHighlightPath(p);
    var path := HighlightBestPath(keys);
    assert keys[..|keys|] == keys;
    if forall k :: 0 <= k < |p| ==> Dash !in p[k] {
      forall i | 0 <= i < |path|
        ensures path[i] == PathFrames(p)[i]
      {
        FrameAgrees(p, i);
      }
      if |p| >= 2 {
        assert p[..|p|] == p;
      }
    }
  }

  /** Every reveal frame shows every node the search stepped on, since the
      visited set handed over is already complete; there is one reveal frame
      per step and one path frame per edge of the found path (none when it is
      not found). The last path frame shows every key and the nodes read back
      out of them; for dash-free node names the path frames are the intended
      ones, so the last shows the whole path. */
  lemma AnimationShape(g: Graph, start: Node, goal: Node, d: Discipline)
    ensures var o := Search(g, start, goal, d);
            var keys := ExtractHighlightPath(o.path);
            var (visit, path) := Animation(g, start, goal, d);
            && |visit| == |o.steps| > 0
            && (forall i :: 0 <= i < |visit| ==> visit[i].nodes == Elems(o.steps))
            && (o.path == [] || start == goal ==> path == [])
            && (|o.path| >= 2 ==>
                  && |path| == |o.path| - 1
                  && path[|path| - 1].edges == keys
                  && path[|path| - 1].nodes == Touched(keys))
            && ((forall k :: 0 <= k < |o.path| ==> Dash !in o.path[k]) ==>
                  && (forall i :: 0 <= i < |path| ==> path[i] == PathFrames(o.path)[i])
                  && (|o.path| >= 2 ==> path[|path| - 1].nodes == Elems(o.path)))
  {
    var o := Search(g, start, goal, d);
    SearchExploresReachable(g, start, goal, d);
    RevealShowsAllSteps(o.steps, o.visited);
    PathReplayShape(o.path);
  }
}
