/**
 * Reconstructing cheapest paths from the predecessor lists of the search
 * (`Graph._backtrack`) and the public entry point `Graph.get_shortest_paths`.
 *
 * Paths are built backwards: a partial path starts at the node reached last
 * and is extended at its front by one recorded predecessor at a time until
 * it starts at the start node.
 */
module ShortestPaths {
  import opened Graphs
  import opened Dijkstra

  datatype Option<T> = None | Some(value: T)

  // ---------------------------------------------------------------------------
  // What backtracking produces
  // ---------------------------------------------------------------------------

  /** A node's rank, 0 for nodes without one. */
  function RankOf<T>(rank: map<T, nat>, n: T): nat
  {
    if n in rank then rank[n] else 0
  }

  /** Every node of `ps` ranks below `n`. */
  ghost predicate AllBelow<T>(rank: map<T, nat>, ps: seq<T>, n: T)
  {
    forall i :: 0 <= i < |ps| ==> Below(rank, ps[i], n)
  }

  /**
   * The complete paths that backtracking from the partial path `path`
   * appends, in the order it appends them. `rank` only serves termination.
   */
  ghost function Completions<T>(preds: map<T, seq<T>>, start: T, rank: map<T, nat>, path: seq<T>): seq<seq<T>>
    requires |path| >= 1 && RankedBy(preds, rank)
    decreases RankOf(rank, path[0]), 1, 0
  {
    if path[0] == start then [path]
    else if path[0] !in preds then []
    else
      var ps := preds[path[0]];
      PredecessorsBelow(preds, rank, path[0]);
      ExtendAll(preds, start, rank, ps, path)
  }

  /** The completions of `path` extended by each of `ps` in turn, concatenated. */
  ghost function ExtendAll<T>(preds: map<T, seq<T>>, start: T, rank: map<T, nat>, ps: seq<T>, path: seq<T>): seq<seq<T>>
    requires |path| >= 1 && RankedBy(preds, rank) && AllBelow(rank, ps, path[0])
    decreases RankOf(rank, path[0]), 0, |ps|
  {
    if ps == [] then []
    else ExtendAll(preds, start, rank, ps[..|ps| - 1], path) + Completions(preds, start, rank, [ps[|ps| - 1]] + path)
  }

  /** A node's recorded predecessors rank below it. */
  lemma PredecessorsBelow<T>(preds: map<T, seq<T>>, rank: map<T, nat>, n: T)
    requires RankedBy(preds, rank) && n in preds
    ensures AllBelow(rank, preds[n], n)
  {
    forall i | 0 <= i < |preds[n]| ensures Below(rank, preds[n][i], n) {
      assert preds[n][i] in preds[n];
    }
  }

  /** The first `k` links of `q`, read backwards, are recorded predecessor links. */
  ghost predicate LinkedBack<T>(preds: map<T, seq<T>>, q: seq<T>, k: nat)
    requires k < |q|
  {
    forall i :: 0 <= i < k ==> Recorded(preds, q[i + 1], q[i])
  }

  /** `q` is `path` extended at its front by a chain of recorded predecessors reaching `start`. */
  ghost predicate CompletionOf<T>(preds: map<T, seq<T>>, start: T, path: seq<T>, q: seq<T>)
  {
    1 <= |path| <= |q| && q[|q| - |path|..] == path && q[0] == start &&
    LinkedBack(preds, q, |q| - |path|)
  }

  // ---------------------------------------------------------------------------
  // Backtracking
  // ---------------------------------------------------------------------------

  /**
   * `Graph._backtrack(current_path, all_paths, start_node, predecessors)`:
   * the source appends to the caller's list `all_paths`; here the list is
   * passed in as `paths0` and returned extended as `paths`.
   */
  method Backtrack<T(==)>(path: seq<T>, paths0: seq<seq<T>>, start: T, preds: map<T, seq<T>>, ghost rank: map<T, nat>)
    returns (paths: seq<seq<T>>)
    requires |path| >= 1 && RankedBy(preds, rank)
    ensures paths == paths0 + Completions(preds, start, rank, path)
    decreases RankOf(rank, path[0]), 1
  {
    var last := path[0];
    if last == start {
      return paths0 + [path];
    }
    if last !in preds {
      return paths0;
    }
    var ps := preds[last];
    PredecessorsBelow(preds, rank, last);
    paths := paths0;
    var i := 0;
    while i < |ps|
      invariant 0 <= i <= |ps|
      invariant paths == paths0 + ExtendAll(preds, start, rank, ps[..i], path)
    {
      assert Below(rank, ps[i], last);
      paths := Backtrack([ps[i]] + path, paths, start, preds, rank);
      assert ps[..i + 1][..i] == ps[..i];
      i := i + 1;
    }
    assert ps[..i] == ps;
  }

  // ---------------------------------------------------------------------------
  // Soundness and completeness of the completions
  // ---------------------------------------------------------------------------

  /** Every completion extends `path` by recorded predecessor links back to `start`. */
  lemma {:induction false} CompletionsSound<T>(preds: map<T, seq<T>>, start: T, rank: map<T, nat>, path: seq<T>)
    requires |path| >= 1 && RankedBy(preds, rank)
    ensures forall q :: q in Completions(preds, start, rank, path) ==> CompletionOf(preds, start, path, q)
    decreases RankOf(rank, path[0]), 1, 0
  {
    if path[0] != start && path[0] in preds {
      var ps := preds[path[0]];
      PredecessorsBelow(preds, rank, path[0]);
      ExtendAllSound(preds, start, rank, ps, |ps|, path);
      assert ps[..|ps|] == ps;
    }
  }

  lemma {:induction false} ExtendAllSound<T>(preds: map<T, seq<T>>, start: T, rank: map<T, nat>,
                                             ps: seq<T>, k: nat, path: seq<T>)
    requires |path| >= 1 && RankedBy(preds, rank) && k <= |ps| && AllBelow(rank, ps, path[0])
    requires path[0] in preds && ps == preds[path[0]]
    ensures AllBelow(rank, ps[..k], path[0])
    ensures forall q :: q in ExtendAll(preds, start, rank, ps[..k], path) ==> CompletionOf(preds, start, path, q)
    decreases RankOf(rank, path[0]), 0, k
  {
    if k > 0 {
      ExtendAllSound(preds, start, rank, ps, k - 1, path);
      assert ps[..k][..k - 1] == ps[..k - 1];
      var p := ps[k - 1];
      assert Below(rank, p, path[0]);
      var path' := [p] + path;
      CompletionsSound(preds, start, rank, path');
      forall q | q in Completions(preds, start, rank, path') ensures CompletionOf(preds, start, path, q) {
        var j := |q| - |path'|;
        assert q[j..] == path';
        assert q[j + 1..] == path' [1..];
        assert Recorded(preds, q[j + 1], q[j]) by {
          assert q[j + 1] == path[0] && q[j] == p && p in ps;
        }
      }
    }
  }

  /**
   * Completeness: every extension of `path` by recorded predecessor links
   * back to `start` that does not pass through `start` earlier is a completion.
   */
  lemma {:induction false} CompletionsComplete<T>(preds: map<T, seq<T>>, start: T, rank: map<T, nat>,
                                                  path: seq<T>, q: seq<T>)
    requires |path| >= 1 && RankedBy(preds, rank) && CompletionOf(preds, start, path, q)
    requires forall i :: 0 < i <= |q| - |path| ==> q[i] != start
    ensures q in Completions(preds, start, rank, path)
    decreases |q| - |path|
  {
    var j := |q| - |path|;
    assert q[j] == path[0];
    if j > 0 {
      assert Recorded(preds, q[j], q[j - 1]);
      var ps := preds[path[0]];
      var k :| 0 <= k < |ps| && ps[k] == q[j - 1];
      var path' := [q[j - 1]] + path;
      assert q[j - 1..] == path';
      assert Below(rank, ps[k], path[0]);
      CompletionsComplete(preds, start, rank, path', q);
      PredecessorsBelow(preds, rank, path[0]);
      ExtendAllContains(preds, start, rank, ps, k, path);
    }
  }

  /** The completions of each `ps[k] + path` are among those of `ExtendAll(ps, path)`. */
  lemma {:induction false} ExtendAllContains<T>(preds: map<T, seq<T>>, start: T, rank: map<T, nat>,
                                                ps: seq<T>, k: nat, path: seq<T>)
    requires |path| >= 1 && RankedBy(preds, rank) && AllBelow(rank, ps, path[0]) && k < |ps|
    ensures forall q :: q in Completions(preds, start, rank, [ps[k]] + path) ==>
      q in ExtendAll(preds, start, rank, ps, path)
    decreases |ps|
  {
    var front := ps[..|ps| - 1];
    assert AllBelow(rank, front, path[0]) by {
      forall i | 0 <= i < |front| ensures Below(rank, front[i], path[0]) {
        assert front[i] == ps[i];
      }
    }
    if k < |ps| - 1 {
      ExtendAllContains(preds, start, rank, front, k, path);
      assert front[k] == ps[k];
    }
  }

  /** In single-path mode each node has at most one predecessor, so there is at most one completion. */
  lemma {:induction false} AtMostOneCompletion<T>(preds: map<T, seq<T>>, start: T, rank: map<T, nat>, path: seq<T>)
    requires |path| >= 1 && RankedBy(preds, rank) && PredecessorShape(start, false, preds)
    ensures |Completions(preds, start, rank, path)| <= 1
    decreases RankOf(rank, path[0])
  {
    if path[0] != start && path[0] in preds {
      var ps := preds[path[0]];
      assert ShapeAt(start, false, path[0], ps);
      PredecessorsBelow(preds, rank, path[0]);
      AtMostOneCompletion(preds, start, rank, [ps[0]] + path);
      assert ps[..0] == [] && ps[0] == ps[|ps| - 1];
      assert ExtendAll(preds, start, rank, ps, path) == [] + Completions(preds, start, rank, [ps[0]] + path);
    }
  }

  /**
   * When every node that has predecessors recorded (all but the start) has
   * at least one, and predecessors are recorded nodes too, backtracking from
   * a recorded node finds at least one path.
   */
  lemma {:induction false} SomeCompletion<T>(preds: map<T, seq<T>>, start: T, allPaths: bool, rank: map<T, nat>, path: seq<T>)
    requires |path| >= 1 && RankedBy(preds, rank) && PredecessorShape(start, allPaths, preds)
    requires forall n, p :: n in preds && p in preds[n] ==> p in preds
    requires path[0] in preds
    ensures |Completions(preds, start, rank, path)| >= 1
    decreases RankOf(rank, path[0])
  {
    if path[0] != start {
      var ps := preds[path[0]];
      assert ShapeAt(start, allPaths, path[0], ps);
      var p := ps[|ps| - 1];
      assert p in preds[path[0]];
      assert Below(rank, p, path[0]);
      SomeCompletion(preds, start, allPaths, rank, [p] + path);
      PredecessorsBelow(preds, rank, path[0]);
    }
  }

  // ---------------------------------------------------------------------------
  // From predecessor chains to cheapest paths
  // ---------------------------------------------------------------------------

  /** A chain of tight predecessor links from `start` is a path whose weight is its last node's cost. */
  lemma {:induction false} ChainIsCheapest<T>(g: Graph<T>, start: T, cost: map<T, int>, preds: map<T, seq<T>>, q: seq<T>)
    requires TightPredecessors(g, cost, preds) && start in cost && cost[start] == 0
    requires |q| >= 1 && q[0] == start && LinkedBack(preds, q, |q| - 1)
    ensures IsPath(g, q) && q[|q| - 1] in cost && Weight(g, q) == cost[q[|q| - 1]]
    decreases |q|
  {
    if |q| > 1 {
      var front := q[..|q| - 1];
      assert LinkedBack(preds, front, |front| - 1) by {
        forall i | 0 <= i < |front| - 1 ensures Recorded(preds, front[i + 1], front[i]) {
          assert Recorded(preds, q[i + 1], q[i]);
        }
      }
      ChainIsCheapest(g, start, cost, preds, front);
      var u, v := q[|q| - 2], q[|q| - 1];
      assert Recorded(preds, v, u);
      assert TightEdge(g, cost, u, v);
      ExtendPath(g, front, v);
      assert front + [v] == q;
    }
  }

  /** The prefix of `q` up to its `k`-th node is a path weighing exactly that node's cost. */
  ghost predicate CheapestPrefix<T>(g: Graph<T>, cost: map<T, int>, q: seq<T>, k: nat)
  {
    k < |q| && IsPath(g, q[..k + 1]) && q[k] in cost && Weight(g, q[..k + 1]) == cost[q[k]]
  }

  /** Every prefix of a path from `start` that weighs its end's cost weighs its own end's cost. */
  lemma CheapestPrefixes<T>(g: Graph<T>, start: T, cost: map<T, int>, q: seq<T>)
    requires Relaxed(g, cost) && start in cost && cost[start] == 0
    requires IsPath(g, q) && q[0] == start && q[|q| - 1] in cost && Weight(g, q) == cost[q[|q| - 1]]
    ensures forall k :: 0 <= k < |q| ==> CheapestPrefix(g, cost, q, k)
  {
    forall k | 0 <= k < |q| ensures CheapestPrefix(g, cost, q, k) {
      WeightSplit(g, q, k);
      LowerBound(g, cost, q[..k + 1]);
      LowerBound(g, cost, q[k..]);
    }
  }

  /** On a path from `start` that weighs its end's cost, every edge is tight. */
  lemma CheapestIsTight<T>(g: Graph<T>, start: T, cost: map<T, int>, q: seq<T>)
    requires Relaxed(g, cost) && start in cost && cost[start] == 0
    requires IsPath(g, q) && q[0] == start && q[|q| - 1] in cost && Weight(g, q) == cost[q[|q| - 1]]
    ensures forall i :: 0 <= i < |q| - 1 ==> TightEdge(g, cost, q[i], q[i + 1])
  {
    CheapestPrefixes(g, start, cost, q);
    forall i | 0 <= i < |q| - 1 ensures TightEdge(g, cost, q[i], q[i + 1]) {
      assert CheapestPrefix(g, cost, q, i) && CheapestPrefix(g, cost, q, i + 1);
      assert IsEdge(g, q[i], q[i + 1]);
      ExtendPath(g, q[..i + 1], q[i + 1]);
      assert q[..i + 1] + [q[i + 1]] == q[..i + 2];
    }
  }

  /** With positive weights, a path from `start` that weighs its end's cost never comes back to `start`. */
  lemma CheapestAvoidsStart<T>(g: Graph<T>, start: T, cost: map<T, int>, q: seq<T>)
    requires Positive(g) && Relaxed(g, cost) && start in cost && cost[start] == 0
    requires IsPath(g, q) && q[0] == start && q[|q| - 1] in cost && Weight(g, q) == cost[q[|q| - 1]]
    ensures forall i :: 0 < i < |q| ==> q[i] != start
  {
    CheapestPrefixes(g, start, cost, q);
    forall i | 0 < i < |q| ensures q[i] != start {
      assert CheapestPrefix(g, cost, q, i);
      PositiveWeight(g, q[..i + 1]);
    }
  }

  /** With positive weights, a cheaper node is a lower-ranked one: costs rank predecessors. */
  ghost function CostRank<T>(cost: map<T, int>): map<T, nat>
  {
    map n | n in cost :: if cost[n] >= 0 then cost[n] else 0
  }

  lemma RankedByCost<T>(g: Graph<T>, start: T, cost: map<T, int>, preds: map<T, seq<T>>, routes: map<T, seq<T>>)
    requires Positive(g) && TightPredecessors(g, cost, preds) && preds.Keys == cost.Keys
    requires Witnessed(g, start, cost, routes)
    ensures RankedBy(preds, CostRank(cost))
  {
    var rank := CostRank(cost);
    forall n, p | n in preds && p in preds[n] ensures Below(rank, p, n) {
      assert TightEdge(g, cost, p, n);
      assert WitnessFor(g, start, p, cost[p], routes[p]);
      NonNegativeWeight(g, routes[p]);
    }
  }

  // ---------------------------------------------------------------------------
  // The entry point
  // ---------------------------------------------------------------------------

  /**
   * `Graph.get_shortest_paths(graph, start_node, destination_node, return_all_paths)`:
   * the cheapest paths from `start` to `dest` and their cost, or no path and
   * `None` when `dest` is unreachable. In all-paths mode every edge weight
   * must be positive (see the README).
   */
  method GetShortestPaths<T(==)>(g: Graph<T>, start: T, dest: T, allPaths: bool)
    returns (paths: seq<seq<T>>, lowest: Option<int>)
    requires NonNegative(g) && (allPaths ==> Positive(g))
    ensures lowest.None? ==> paths == [] && forall q :: !IsPathFromTo(g, q, start, dest)
    ensures lowest.Some? ==> forall q :: IsPathFromTo(g, q, start, dest) ==> lowest.value <= Weight(g, q)
    ensures lowest.Some? ==> 1 <= |paths| && (!allPaths ==> |paths| == 1)
    ensures forall q :: q in paths ==> lowest.Some? && IsPathFromTo(g, q, start, dest) && Weight(g, q) == lowest.value
    ensures allPaths && lowest.Some? ==>
      forall q :: IsPathFromTo(g, q, start, dest) && Weight(g, q) == lowest.value ==> q in paths
  {
    var cost, preds, order, routes := Search(g, start, allPaths);
    CostIsShortest(g, start, cost, routes, dest);
    if dest !in cost {
      return [], None;
    }
    lowest := Some(cost[dest]);
    ghost var rank := if allPaths then CostRank(cost) else order;
    if allPaths {
      RankedByCost(g, start, cost, preds, routes);
    }
    paths := Backtrack([dest], [], start, preds, rank);
    Reconstructed(g, start, dest, allPaths, cost, preds, rank);
    CostIsShortest(g, start, cost, routes, dest);
  }

  /**
   * What backtracking from a reached `dest` over the search's predecessors
   * finds: cheapest paths to `dest`, exactly one in single-path mode and all
   * of them in all-paths mode.
   */
  lemma Reconstructed<T>(g: Graph<T>, start: T, dest: T, allPaths: bool, cost: map<T, int>,
                         preds: map<T, seq<T>>, rank: map<T, nat>)
    requires allPaths ==> Positive(g)
    requires start in cost && cost[start] == 0 && cost.Keys == preds.Keys && dest in cost
    requires Relaxed(g, cost) && TightPredecessors(g, cost, preds) && PredecessorShape(start, allPaths, preds)
    requires allPaths ==> AllTightPredecessors(g, cost, preds)
    requires RankedBy(preds, rank)
    ensures var found := Completions(preds, start, rank, [dest]);
      1 <= |found| && (!allPaths ==> |found| == 1)
    ensures forall q :: q in Completions(preds, start, rank, [dest]) ==>
      IsPathFromTo(g, q, start, dest) && Weight(g, q) == cost[dest]
    ensures allPaths ==> forall q :: IsPathFromTo(g, q, start, dest) && Weight(g, q) == cost[dest] ==>
      q in Completions(preds, start, rank, [dest])
  {
    FoundPathsCheapest(g, start, dest, cost, preds, rank);
    PredecessorsRecorded(g, cost, preds);
    SomeCompletion(preds, start, allPaths, rank, [dest]);
    if !allPaths {
      AtMostOneCompletion(preds, start, rank, [dest]);
    } else {
      CheapestPathsFound(g, start, dest, cost, preds, rank);
    }
  }

  /** Every path backtracking finds from `dest` is a path from `start` weighing `dest`'s cost. */
  lemma FoundPathsCheapest<T>(g: Graph<T>, start: T, dest: T, cost: map<T, int>, preds: map<T, seq<T>>,
                              rank: map<T, nat>)
    requires TightPredecessors(g, cost, preds) && start in cost && cost[start] == 0
    requires RankedBy(preds, rank) && dest in cost
    ensures forall q :: q in Completions(preds, start, rank, [dest]) ==>
      IsPathFromTo(g, q, start, dest) && Weight(g, q) == cost[dest]
  {
    CompletionsSound(preds, start, rank, [dest]);
    forall q | q in Completions(preds, start, rank, [dest])
      ensures IsPathFromTo(g, q, start, dest) && Weight(g, q) == cost[dest]
    {
      assert CompletionOf(preds, start, [dest], q);
      ChainIsCheapest(g, start, cost, preds, q);
    }
  }

  /** Recorded predecessors are recorded nodes themselves. */
  lemma PredecessorsRecorded<T>(g: Graph<T>, cost: map<T, int>, preds: map<T, seq<T>>)
    requires TightPredecessors(g, cost, preds) && cost.Keys == preds.Keys
    ensures forall n, p :: n in preds && p in preds[n] ==> p in preds
  {
    forall n, p | n in preds && p in preds[n] ensures p in preds {
      assert TightEdge(g, cost, p, n);
    }
  }

  /** With every tight edge recorded and positive weights, backtracking finds every cheapest path. */
  lemma CheapestPathsFound<T>(g: Graph<T>, start: T, dest: T, cost: map<T, int>, preds: map<T, seq<T>>,
                              rank: map<T, nat>)
    requires Positive(g) && Relaxed(g, cost) && AllTightPredecessors(g, cost, preds)
    requires start in cost && cost[start] == 0 && RankedBy(preds, rank) && dest in cost
    ensures forall q :: IsPathFromTo(g, q, start, dest) && Weight(g, q) == cost[dest] ==>
      q in Completions(preds, start, rank, [dest])
  {
    forall q | IsPathFromTo(g, q, start, dest) && Weight(g, q) == cost[dest]
      ensures q in Completions(preds, start, rank, [dest])
    {
      CheapestIsTight(g, start, cost, q);
      CheapestAvoidsStart(g, start, cost, q);
      assert LinkedBack(preds, q, |q| - 1) by {
        forall i | 0 <= i < |q| - 1 ensures Recorded(preds, q[i + 1], q[i]) {
          assert TightEdge(g, cost, q[i], q[i + 1]);
        }
      }
      assert q[|q| - 1..] == [dest];
      CompletionsComplete(preds, start, rank, [dest], q);
    }
  }
}
