# Uninformed search visualiser: a Dafny model

This project models the logic of `script.js`, a browser page that builds a
directed weighted graph edge by edge and then runs one of three uninformed
searches from a start node to a goal node. The searches are breadth-first,
depth-first and uniform-cost. Afterwards the page animates the nodes the
search stepped on, then the edges of the path it found.

The model is pure. The global `graph` object becomes a value
`map<Node, seq<Edge>>`. The canvas drawing becomes a sequence of `Frame`
values, and timers become each frame's delay in milliseconds.

The modules follow the script's structure:

- `Graphs` (`graph.dfy`): the adjacency lists, `addEdge`, walks, paths and reachability.
- `Frontier` (`frontier.dfy`): frontier entries `{ node, path, cost }`, the entries
  an expanded node pushes, and the three ways an entry leaves the frontier:
  - `shift` for breadth-first search;
  - `pop` for depth-first search;
  - a stable sort by cost followed by `shift` for uniform-cost search.
- `Searches` (`search.dfy`): the search loop all three functions share, and the
  three functions themselves.
- `Validity` (`validity.dfy`): a found path is a simple path of the graph, and
  uniform-cost search reports its cost.
- `Reach` (`reach.dfy`): a search finds a path exactly when the goal is reachable.
  When it does not, its steps are exactly the reachable nodes.
- `Optimality` (`optimal.dfy`): breadth-first search finds a path with the fewest
  edges and uniform-cost search a cheapest one. Both follow from one
  Dijkstra-style invariant. Depth-first search expands the last-listed
  unvisited neighbour first.
- `Replay` (`replay.dfy`): `extractHighlightPath`, `visualizeSearch` and
  `highlightBestPath`, given as frames and delays.
- `Duplicates` (`duplicates.dfy`): a concrete run in which one node is stepped on twice.

Two behaviours of `script.js` that the model follows on purpose:

- A popped node that is already visited is not skipped. It is recorded in
  `steps` again and expanded again. The frontier may hold several entries for
  one node, so when the goal is unreachable the steps cover exactly the
  reachable nodes, but a node may occur more than once (`Duplicates`).
- Breadth- and depth-first search return `{ path, steps }` with no cost, not a
  cost of 0.

## Model

| member | source | states |
|---|---|---|
| Graphs.AddEdge | script.js:21-28 | Adding an edge appends one adjacency entry `{node: to, cost}` to the list of `from`, creating the list if needed. Every other node's list is unchanged. |
| Graphs.BuildGraphLists | script.js:21-28 | After a sequence of `addEdge` calls, a node's adjacency list holds the added edges leaving it, in the order they were added, duplicates included. The node has a list exactly when some edge leaves it. |
| Graphs.BuildGraphKeepsWalks | script.js:21-28 | `addEdge` only appends, so every walk of a graph stays a walk after more edges are submitted. Reachability only grows. |
| Frontier.Expand | script.js:131-138 | The entries pushed for an expanded node number exactly the adjacency entries whose target is unvisited, counted with repetition (`CountUnvisited`, defined independently). Each adjacency entry with an unvisited target pushes its own entry, which extends the path by the target and adds the edge cost. Every pushed entry comes from such an adjacency entry. |
| Frontier.ExpandOrder | script.js:131-138 | Entries are pushed in adjacency order. The entry for adjacency entry j sits at the position given by the number of earlier adjacency entries with an unvisited target. |
| Frontier.ExpandLast | script.js:161-168 | The last entry pushed comes from the last adjacency entry whose target is unvisited. |
| Frontier.SortByCost | script.js:182 | Sorting yields a permutation of the frontier, in non-decreasing order of cost. |
| Frontier.SortByCostStable | script.js:182 | The sort is stable: for every cost, the entries of that cost appear after sorting exactly as they appear in the frontier, in the same order. |
| Frontier.FirstCheapestIndexSpec | script.js:182-183 | The reference index used for the uniform-cost pop, a front-to-back scan that moves only on a strictly lower cost, picks an entry of least cost, and no earlier entry costs as little. |
| Frontier.SortHeadIsFirstCheapest | script.js:182-183 | Because the sort is stable, the entry shifted after sorting is the one at the first position of least cost in frontier order (`FirstCheapestIndex`, defined independently). |
| Frontier.Pop | script.js:122-183 | `queue.shift()` (line 122) removes the head and keeps the rest in order. `stack.pop()` (line 152) removes the last entry and keeps the rest in order. Sort-then-shift (lines 182-183) removes the entry at the first position of least cost and leaves the rest sorted by cost. For every cost, the entries of that cost in the frontier are the popped one, if it has that cost, followed by the rest's entries of that cost, in frontier order (`OfCost`, a filter by cost). So equal-cost entries wait in the order they were pushed. |
| Searches.NextDecreases | script.js:121-139 | One iteration that does not pop the goal strictly decreases a bound on the work left, so the loop terminates. |
| Searches.Run | script.js:121-142 | A path that is not found comes with cost 0. A found path ends at the goal. |
| Searches.RunSteps | script.js:121-142 | The loop only appends to `steps`, and appends at least once if it runs at all. The goal is appended once, as the last step, exactly when it is found; otherwise it never appears. |
| Searches.Search | script.js:116-143 | The first step is the start. When start equals goal, the path and the steps are both `[start]` at cost 0. A found path and the last step are the goal. The goal is among the steps only when a path is found, and then only as the last step. |
| Searches.BreadthFirstSearch | script.js:116-143 | The result `{ path, steps }` has no cost. Its steps begin at the start, and the result is trivial when start equals goal. |
| Searches.DepthFirstSearch | script.js:146-173 | The same as breadth-first search, for the stack discipline. |
| Searches.UniformCostSearch | script.js:176-205 | The result always carries a cost. The cost is 0 when no path is found or when start equals goal. |
| Validity.SearchFindsSimplePath | script.js:126-136 | For all three searches, a found path runs from start to goal along adjacency entries and repeats no node. |
| Validity.UniformCostSearchCostIsPathCost | script.js:192-198 | The reported cost is the sum of the costs of adjacency entries that lead along the returned path, one per step. |
| Reach.SearchExploresReachable | script.js:121-142 | The visited set handed to the replay is the set of steps. When the goal is not found, a node is among the steps if and only if it is reachable from the start. |
| Reach.SearchFindsIffReachable | script.js:121-142 | Each search finds a path if and only if the goal is reachable from the start. |
| Optimality.RunOptimal | script.js:181-200 | While the Dijkstra invariant holds, a goal popped from a queue, or from a cost-sorted queue, is no heavier than any walk to it. Weight counts edges for the queue and sums costs for the sorted queue. |
| Optimality.BreadthFirstSearchFindsFewestEdges | script.js:116-143 | A path found by breadth-first search has no more nodes than any path of the graph from start to goal. |
| Optimality.UniformCostSearchIsCheapest | script.js:176-205 | The cost reported by uniform-cost search is at most the cost of every walk from start to goal. |
| Optimality.DepthFirstExpandsLastNeighbor | script.js:151-168 | After expanding a node, depth-first search next pops the entry for that node's last-listed unvisited neighbour. |
| Replay.ExtractHighlightPath | script.js:107-113 | A path of n ≥ 1 nodes gives n-1 edge keys. Key i is `path[i] + "-" + path[i+1]`. The empty path gives no keys. |
| Replay.SplitJoin | script.js:98 | Joining the parts of `split` with the separator gives back the string. |
| Replay.JoinSplit | script.js:98 | Splitting a join of parts that do not contain the separator gives back the parts. |
| Replay.KeySplitRoundTrip | script.js:98 | For dash-free node names, splitting an edge key gives back its two endpoints. |
| Replay.VisualizeSearch | script.js:77-92 | There is one frame per step, and none of them highlights an edge. Frame i shows the handed-over visited set plus the first i+1 steps. It then waits 1000 ms after every third step and 500 ms otherwise. |
| Replay.VisualizeSearchTotalDelay | script.js:84-90 | Revealing n steps waits 500·n + 500·⌊n/3⌋ ms in total. |
| Replay.HighlightBestPath | script.js:95-104 | As written: there is one frame per key. Frame i highlights the first i+1 keys and the nodes read back out of them by splitting on `-`, then waits 1000 ms. |
| Replay.PathFrames | script.js:95-104 | As intended: frame i highlights the first i+1 edge keys of the path and exactly its first i+2 nodes, then waits 1000 ms. |
| Replay.FrameAgrees | script.js:95-113 | When no node name contains `-`, frame i of the replay as written equals frame i of the intended replay, for every path and every i. Both replays have one frame per edge. |
| Replay.HighlightMisreadsDashedNames | script.js:98-100 | For the path `["A-B", "C"]`, the frame as written highlights `A` and `B`, whereas the intended frame highlights `A-B` and `C`. |
| Replay.AnimationShape | script.js:237-242 | The path replay is `highlightBestPath(extractHighlightPath(path))` as written. Every reveal frame shows every stepped-on node, because the visited set handed over is already complete. There is one reveal frame per step. There are no path frames when no path is found or when start equals goal. Otherwise there is one path frame per edge, and the last shows every key and the nodes read back out of the keys. When no node name contains `-`, every path frame is the intended one, so the last shows the whole path. |
| Duplicates.DuplicateEntriesRepeatSteps | script.js:131-138 | Entries are pushed without checking the frontier for the node. Submitting the edge A→B twice, at any cost, and searching from A for any node other than A and B therefore finds no path and steps on A, B, B, for each of the three searches. |

## Left out

- `drawGraph`, the canvas and the node positions (`randomPosition`, `positions`) are drawing only. A frame records what would be highlighted, not where it is drawn.
- Timers and `async`/`await` are left out. The pause after each frame is its `delayMs`, and frames play in sequence order. Two animations overlapping, when a search starts before the previous one has finished drawing, are not modelled.
- The DOM handlers are not modelled: form parsing (`parseInt`, `toUpperCase`), the rejection of costs below 1, the text outputs (including `result.cost || 'N/A'`, which shows a cost of 0 as `N/A`), and the `No path found` alert. Costs are modelled as `nat`. The searches' results do not depend on the validation.
- `reset` is not modelled; it empties the graph, which is the empty map here.
- JavaScript prototype keys such as `constructor` in `graph[...]` are not modelled. A node with no list gets `[]`, as `graph[n] || []` gives for ordinary names.
- No search modifies the graph. This needs no lemma, since every function here is pure.
- Replay.Endpoints: a key that does not contain `-` yields only its `from` part. The script would also add `undefined` to the highlighted set, and the model leaves that value out.
- Searches.BreadthFirstSearch: breadth- and depth-first entries carry a cost field that the script's entries do not have. The field does not affect which entry is popped, and their results report no cost.
- Frontier.SortByCost: its own contract states only a sorted permutation. Stability is stated separately, for every cost, by `SortByCostStable`.
- Optimality.UniformCostSearchIsCheapest: costs are exact unbounded integers here, whereas JavaScript numbers are doubles, and the `Frontier.SortByCost` order holds only for exact integers. In the script, `current.cost + neighbor.cost` (line 197) rounds once sums pass 2^53. `parseInt` of an overlong digit string gives `Infinity`, which passes the `cost < 1` check (lines 212-214). With two `Infinity` costs, the comparator `a.cost - b.cost` (line 182) returns `NaN`. None of this is modelled.

## Findings

| source | as written | input that shows it | evidently intended | confidence | as-written member | corrected member |
|---|---|---|---|---|---|---|
| script.js:98 | `highlightBestPath` reads an edge's endpoints back out of its key `from-to` with `split('-')`. A node name that contains `-` therefore gives the wrong endpoints. | path `["A-B", "C"]`: the key is `A-B-C` and the frame highlights nodes `A` and `B` | the frame highlights the nodes the edge joins, `A-B` and `C` | not executed | Replay.HighlightMisreadsDashedNames | Replay.PathFrames |

`Replay.Animation` replays the path frames as written, as `script.js`
does at lines 238 and 242. `Replay.PathFrames` is the reference that
`Replay.FrameAgrees` and `Replay.AnimationShape` compare those frames against.
