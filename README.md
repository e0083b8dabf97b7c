# Advent-of-Code helpers: grids, shortest paths, flattening

This project models the reusable core of `utils.py`, a helper module for
Advent-of-Code style puzzles, and proves what the helpers promise.

- **Points.** `Point(y, x)` and `add_points`. The straight and diagonal direction tables, in the order the source lists them.
- **Grid.** A rectangular grid of cells read from a text block:
  - every line is stripped, and reading stops at the first blank line;
  - in integer mode a digit character becomes its value and any other character becomes `None` (`Absent` here);
  - ragged rows are an error.

  The class `Grids.Grid` keeps the rows in a field and offers:
  - `rows`, `cols` and `in_bounds`;
  - a bounds-checked read that gives `None` outside the grid;
  - a bounds-checked write that does nothing outside the grid;
  - `copy`;
  - `get_neighbors`, which fails when neither straight nor diagonal steps are asked for.

  The Python string built-ins the constructor uses (`split`, `strip`, `isdigit`) are modelled in `PyText`.
- **Graph.** An adjacency map `node -> (neighbour -> weight)` with three parts:
  - `add_edge`, an overwriting insertion into the caller's map (`Graphs.Adjacency`);
  - `_do_dijkstra`: Dijkstra's algorithm with a lazily cleaned heap, in single-path or all-paths mode (`Dijkstra.Search`);
  - `_backtrack` and `get_shortest_paths`: the reconstruction of cheapest paths from the recorded predecessors (`ShortestPaths`).

  The main results:
  - every reached node's cost is the weight of a cheapest path to it, and unreached nodes have no path;
  - in single-path mode exactly one cheapest path is returned;
  - in all-paths mode every cheapest path is returned.
- **`flatten_list`.** Removes one level of list nesting (`Lists`).

The heap is a multiset of `(cost, node)` entries from which some entry of
least cost is popped. A node's absence from the cost map stands for the
source's infinite cost.

Two details of the code that the model follows exactly:
- Each grid line is stripped of white space at both ends (`utils.py:76`).
- In single-path mode a node's predecessor is replaced on every strict improvement of its cost (`utils.py:278-280`), so it keeps the predecessor of the last one.

## Model

| member | source | states |
|---|---|---|
| Points.AddPoints | utils.py:57-62 | the sum is the point whose offset from either argument is the other argument |
| Points.AddOffset | utils.py:57-62 | adding the offset from `p` to `q` onto `p` gives `q`, so AddPoints and Offset are inverse |
| Points.Directions | utils.py:165-169 | the step list has 4 entries per selected kind (4, 4 or 8) and never the zero step |
| Points.StepShapes | utils.py:28-50 | a straight step changes exactly one coordinate by one; a diagonal step changes both by one |
| PyText.DigitValue | utils.py:80 | `int(c)` of a digit character is below 10 and spells that character back |
| PyText.DigitRoundTrip | utils.py:80 | reading the digit character of `n < 10` gives `n` back |
| PyText.LeadingSpaces | utils.py:76 | counts exactly the white-space prefix: all counted characters are white space and the next one is not |
| PyText.TrailingSpaces | utils.py:76 | counts exactly the white-space suffix in the same sense |
| PyText.Strip | utils.py:76 | the stripped line is no longer than the line and, unless empty, neither starts nor ends with white space |
| PyText.StripRemovesSpaces | utils.py:76 | the stripped line is a piece of the line with only white space before and after it; with Strip's own contract this fixes the result |
| PyText.StripBlank | utils.py:76-78 | a line strips to nothing exactly when it is all white space (the constructor's stop condition) |
| PyText.StripIdempotent | utils.py:76 | stripping twice is stripping once |
| PyText.Split | utils.py:75 | splitting gives at least one piece and no piece contains the separator |
| PyText.JoinSplit | utils.py:75 | joining the pieces of a split with the separator gives the text back, so no character is lost |
| Grids.ToCells | utils.py:79-82 | one cell per character; without integer mode the character itself, in integer mode a digit's value or `Absent` for a non-digit |
| Grids.RowsOfKeepsLinesUpToFirstBlank | utils.py:74-82 | the kept rows are the leading non-blank lines, each stripped and converted, and the line after them (if any) is blank |
| Grids.RowsOfRows | utils.py:75-82 | row `i` is line `i` stripped and converted, and line `i` is not blank |
| Grids.RowsOfStops | utils.py:77-78 | reading stops at a blank line or at the end of the text |
| Grids.ReadRows | utils.py:74-82 | the construction loop yields exactly the rows described by RowsOf for the text's lines |
| Grids.EmptyTextHasNoRows | utils.py:133 | `Grid('')` has no rows |
| Grids.NewGrid | utils.py:65-84 | an error exactly when the kept rows are ragged (`RaggedRows`), otherwise a fresh valid grid holding exactly those rows, whose row count is the position of the first blank line (or the number of lines) |
| Grids.Grid.FromRows | utils.py:74-84 | a grid built from rectangular rows is valid and holds them |
| Grids.GridRowCount | utils.py:74-140 | the `rows` of a grid read from text is the position of the first blank line, or the number of lines when there is none |
| Grids.Grid.Cols | utils.py:142-145 | 0 for an empty grid; for a valid grid, the length of every row |
| Grids.Grid.InBounds | utils.py:147-154 | for a valid grid, true exactly when the row index and the column index address a stored cell |
| Grids.Grid.Get | utils.py:94-103 | the stored cell when in bounds, `Absent` (`None`) otherwise |
| Grids.Grid.Set | utils.py:105-113 | the grid stays valid with the same size; in bounds exactly that one cell changes, out of bounds nothing does |
| Grids.Grid.Copy | utils.py:129-135 | a fresh valid grid equal cell by cell to the original |
| Grids.CopyThenSet | utils.py:129-135 | writing to a copy leaves the original's cells unchanged |
| Grids.Grid.Neighbors | utils.py:156-178 | `NoDirections` exactly when neither kind is selected; otherwise exactly the in-bounds points one selected step from `p`, at most 4 or 8 of them |
| Grids.OneMoreStep | utils.py:174-177 | one more direction in the loop adds exactly the point one step that way |
| Graphs.WithEdge | utils.py:182-185 | after insertion the edge is there with the new weight, the source node has an entry, and every other edge and node is as before |
| Graphs.AddEdgeOverwrites | utils.py:182-185 | inserting the same edge twice keeps only the second weight |
| Graphs.AddEdgeIdempotent | utils.py:182-185 | re-inserting an edge with its current weight changes nothing |
| Graphs.Adjacency.AddEdge | utils.py:182-185 | the caller's map becomes the map with the edge inserted |
| Dijkstra.LeastEntry | utils.py:262 | a non-empty heap has an entry of least cost, which `heappop` removes |
| Dijkstra.Initially | utils.py:252-259 | start at cost 0 with no predecessor and the single heap entry `(0, start)` satisfies the loop invariant |
| Dijkstra.StaleStep | utils.py:264-266 | skipping an entry dearer than its node's cost keeps the invariant |
| Dijkstra.SettleStep | utils.py:262-273 | a popped entry that is not stale is its node's cost; the node was not popped before, and it becomes the next settled node with all its edges to relax |
| Dijkstra.ImproveStep | utils.py:278-281 | a strict improvement (new cost, sole predecessor `cur`, new heap entry) keeps the invariant |
| Dijkstra.TieStep | utils.py:283-284 | in all-paths mode an equal-cost route appends `cur` to the predecessors and keeps the invariant |
| Dijkstra.NoChangeStep | utils.py:277-284 | a relaxation that neither improves nor ties changes nothing and keeps the invariant |
| Dijkstra.RelaxEdge | utils.py:274-284 | on a strict improvement the neighbour gets the new cost, `cur` as its sole predecessor and a heap entry; on a tie in all-paths mode `cur` is appended to its predecessors; otherwise nothing changes |
| Dijkstra.RelaxStep | utils.py:274-284 | each of the three outcomes of relaxing one edge out of `cur` keeps the invariant with that neighbour done |
| Dijkstra.CostsAfterStep | utils.py:274-284 | relaxing the edge to one more neighbour lowers that neighbour's cost to the lesser of its old cost and the tentative one, and changes no other cost |
| Dijkstra.Expand | utils.py:273-284 | relaxing every edge out of `cur` keeps the invariant with none left to do, each neighbour's cost becomes the lesser of its old cost (absent counts as infinite) and `cur`'s cost plus the edge's weight, and no other cost changes |
| Dijkstra.Search | utils.py:230-286 | start costs 0; every reached node has a path of exactly its cost; no edge out of a reached node offers a cheaper route; recorded predecessors are neighbours on cheapest routes; in all-paths mode every such neighbour is recorded; non-start nodes have predecessors, exactly one in single-path mode |
| Dijkstra.LowerBound | utils.py:278 | with every edge relaxed, a path from a reached node ends at a reached node costing at most the start cost plus the path's weight |
| Dijkstra.CostIsShortest | utils.py:230-286 | a reached node's cost is the weight of a cheapest path from start; an unreached node has no path from start |
| ShortestPaths.Backtrack | utils.py:288-312 | the paths appended are exactly the completions of the partial path, in the source's order |
| ShortestPaths.CompletionsSound | utils.py:302-312 | every appended path extends the partial path by recorded predecessor links back to start |
| ShortestPaths.CompletionsComplete | utils.py:302-312 | every such extension that does not pass through start earlier is appended |
| ShortestPaths.AtMostOneCompletion | utils.py:278-284 | with one predecessor per node (single-path mode) at most one path is appended |
| ShortestPaths.SomeCompletion | utils.py:303-312 | from a node with recorded predecessors at least one path is appended |
| ShortestPaths.ChainIsCheapest | utils.py:302-312 | a chain of recorded predecessors from start is a graph path weighing its end's cost |
| ShortestPaths.CheapestIsTight | utils.py:278-284 | every edge of a cheapest path from start is on a cheapest route |
| ShortestPaths.CheapestAvoidsStart | utils.py:303-305 | with positive weights a cheapest path from start does not come back to start |
| ShortestPaths.RankedByCost | utils.py:283-284 | with positive weights a predecessor is strictly cheaper than its node, so backtracking ends |
| ShortestPaths.FoundPathsCheapest | utils.py:220-228 | every reconstructed path goes from start to the destination and weighs the destination's cost |
| ShortestPaths.CheapestPathsFound | utils.py:220-228 | in all-paths mode every cheapest path to the destination is reconstructed |
| ShortestPaths.Reconstructed | utils.py:220-228 | from a reached destination at least one path is reconstructed, exactly one in single-path mode, all cheapest ones in all-paths mode |
| ShortestPaths.GetShortestPaths | utils.py:187-228 | `([], None)` exactly when no path reaches the destination; otherwise the lowest cost, which no path beats, and paths from start to the destination of that cost: one in single-path mode, all of them in all-paths mode |
| Lists.Flatten | utils.py:439-440 | every element contributed by an input element is in the result, and every result element comes from some input element |
| Lists.FlattenAppend | utils.py:439-440 | flattening a concatenation concatenates the flattenings |
| Lists.FlattenAtoms | utils.py:439-440 | a list without nested lists is returned as it is |
| Lists.FlattenLength | utils.py:439-440 | the result's length is the sum of what each element contributes |
| Lists.FlattenOne | utils.py:439-440 | a one-element list flattens to what that element contributes: a nested list's items, or the element itself |
| Lists.OneLevel | utils.py:439-440 | only one level of nesting is removed |

## Left out

- I/O, the puzzle service, timing, logging and day detection (`__get_input_data`, `solve_puzzle_part`, `get_day`, `input_data_to_list`): none of it is algorithmic, and it depends on files, the network and the clock.
- The deprecated module-level `get_grid` and `in_bounds`: a second text-to-grid parser and a bounds check that the `Grid` class replaces. The old `in_bounds` compares the column with the number of rows and the row with the number of columns (`utils.py:478`), so it differs from `Grid.in_bounds` on grids that are not square.
- `Grid.__iter__`, `Grid.to_string` and `__repr__`: iteration and display formatting.
- The concrete heap layout of `heapq`: the heap is a multiset, and the popped entry is any entry of least cost. When costs tie, Python compares the nodes, and it fails when they are not comparable. That tie-break is not modelled, and no proved property depends on it.
- The order in which `graph[node].items()` lists neighbours: `Expand` relaxes them in any order. Every proved property holds for every order.
- `float('inf')`: an unreached node is absent from the cost map.
- Dijkstra.Search: edge weights must be non-negative, the condition under which the source's algorithm computes cheapest costs. Weights are unbounded integers; the source uses Python integers, which do not overflow.
- ShortestPaths.GetShortestPaths: all-paths mode requires strictly positive weights. With a zero-weight cycle, `_backtrack` in the source recurses forever (for S→A:0, A→B:0, B→A:0 it records `preds[A] = [S, B]` and `preds[B] = [A]`). Single-path mode allows zero weights.
- ShortestPaths.Backtrack: the source appends to the caller's list object. Here the list is passed in and returned as a value, so aliasing of `all_paths` is not modelled. The appended paths are fresh lists in the source, so nothing observable is lost.
- Grids.ToCells: only the ASCII digits count as digits. Python's `str.isdigit` also accepts other Unicode digits, for some of which `int(c)` fails.
- ShortestPaths.GetShortestPaths: the source scans every key of the cost map for one equal to the destination (`utils.py:211-226`), which allows for several matching keys. The model tests `dest in cost` once. The two agree because Dafny's equality is an equivalence that agrees with map lookup. A Python node type whose `__eq__` is not consistent with its hash could match several keys or none, and that case is not modelled.
- Grids.Grid.Copy: rows are values here, so two grids can never share a row. The row-by-row `row.copy()` of the source (`utils.py:134`) has nothing to guard against, and CopyThenSet follows from the copy being a fresh object with equal cells.
- Grids.Grid.Set: the stored value is a `Cell`. The source accepts any Python value.
- Grids.NewGrid: the source raises `ValueError`; the model returns `Err(RaggedRows)`.
- Grids.Grid.Neighbors: the source raises `ValueError`; the model returns `Err(NoDirections)`.
