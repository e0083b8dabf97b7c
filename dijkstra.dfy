/**
 * Single-source Dijkstra over an adjacency map (`Graph._do_dijkstra`).
 *
 * The heap is modelled as a multiset of (cost, node) entries from which some
 * entry of least cost is popped; the source's tie-break (comparing nodes) is
 * left open. "Infinite" cost is absence from the cost map.
 */
module Dijkstra {
  import opened Graphs

  type Entry<T> = (int, T)

  ghost predicate NoDuplicates<T>(s: seq<T>)
  {
    forall i, j :: 0 <= i < j < |s| ==> s[i] != s[j]
  }

  // ---------------------------------------------------------------------------
  // What a finished search guarantees
  // ---------------------------------------------------------------------------

  /** The edge `u -> v` leads to a reached node at no more than `u`'s cost plus its weight. */
  ghost predicate EdgeRelaxed<T>(g: Graph<T>, cost: map<T, int>, u: T, v: T)
  {
    IsEdge(g, u, v) && u in cost && v in cost && cost[v] <= cost[u] + g[u][v]
  }

  /** The edge `p -> n` is on a cheapest route: `n`'s cost is `p`'s cost plus its weight. */
  ghost predicate TightEdge<T>(g: Graph<T>, cost: map<T, int>, p: T, n: T)
  {
    IsEdge(g, p, n) && p in cost && n in cost && cost[p] + g[p][n] == cost[n]
  }

  /** `p` is recorded as a predecessor of `n`. */
  ghost predicate Recorded<T>(preds: map<T, seq<T>>, n: T, p: T)
  {
    n in preds && p in preds[n]
  }

  /** No edge out of a reached node leads to an unreached node or to a cheaper route. */
  ghost predicate Relaxed<T>(g: Graph<T>, cost: map<T, int>)
  {
    forall u, v :: u in cost && u in g && v in g[u] ==> EdgeRelaxed(g, cost, u, v)
  }

  /** Every recorded predecessor is a neighbour through which the node's cost is reached. */
  ghost predicate TightPredecessors<T>(g: Graph<T>, cost: map<T, int>, preds: map<T, seq<T>>)
  {
    forall n, p :: n in preds && p in preds[n] ==> TightEdge(g, cost, p, n)
  }

  /** Every neighbour through which a node's cost is reached is recorded as a predecessor. */
  ghost predicate AllTightPredecessors<T>(g: Graph<T>, cost: map<T, int>, preds: map<T, seq<T>>)
  {
    forall n, p :: n in cost && p in cost && TightEdge(g, cost, p, n) ==> Recorded(preds, n, p)
  }

  /** The predecessor list of `n`: non-empty unless `n` is the start, a single node in single-path mode, no repeats. */
  ghost predicate ShapeAt<T>(start: T, allPaths: bool, n: T, ps: seq<T>)
  {
    (n != start ==> |ps| >= 1) && (!allPaths && n != start ==> |ps| == 1) && NoDuplicates(ps)
  }

  /** Non-start nodes have a predecessor; in single-path mode exactly one, and the start none. */
  ghost predicate PredecessorShape<T>(start: T, allPaths: bool, preds: map<T, seq<T>>)
  {
    (!allPaths ==> start in preds && preds[start] == []) &&
    forall n :: n in preds ==> ShapeAt(start, allPaths, n, preds[n])
  }

  /** `route` is a path from `start` to `n` that weighs `c`. */
  ghost predicate WitnessFor<T>(g: Graph<T>, start: T, n: T, c: int, route: seq<T>)
  {
    IsPathFromTo(g, route, start, n) && Weight(g, route) == c
  }

  /** Each reached node has a path from `start` whose weight is exactly its cost. */
  ghost predicate Witnessed<T>(g: Graph<T>, start: T, cost: map<T, int>, routes: map<T, seq<T>>)
  {
    forall n :: n in cost ==> n in routes && WitnessFor(g, start, n, cost[n], routes[n])
  }

  /** `p` ranks strictly below `n`. */
  ghost predicate Below<T>(rank: map<T, nat>, p: T, n: T)
  {
    p in rank && n in rank && rank[p] < rank[n]
  }

  /** `rank` strictly grows along every predecessor link, so following predecessors ends. */
  ghost predicate RankedBy<T>(preds: map<T, seq<T>>, rank: map<T, nat>)
  {
    preds.Keys <= rank.Keys &&
    forall n, p :: n in preds && p in preds[n] ==> Below(rank, p, n)
  }

  // ---------------------------------------------------------------------------
  // The loop invariant, one piece at a time. The search keeps, besides its
  // real state, the set of settled nodes, the cost `last` of the entry popped
  // last, the node `cur` being expanded with the neighbours `todo` not yet
  // relaxed, the settling order and a witness route per reached node.
  // ---------------------------------------------------------------------------

  /** Which maps have which keys, and the start's entry. */
  ghost predicate Domains<T>(g: Graph<T>, start: T, cost: map<T, int>, preds: map<T, seq<T>>,
                             settled: set<T>, order: map<T, nat>)
  {
    cost.Keys == preds.Keys && cost.Keys <= Nodes(g, start) && settled <= cost.Keys &&
    order.Keys == settled && start in cost && cost[start] == 0
  }

  /** No cost, and not the last popped cost, is negative. */
  ghost predicate CostFloor<T>(cost: map<T, int>, last: int)
  {
    last >= 0 && forall n :: n in cost ==> cost[n] >= 0
  }

  /** Heap entries are never below a node's cost nor below `last`, never repeat, and are stale for settled nodes. */
  ghost predicate QueueInv<T>(queue: multiset<Entry<T>>, cost: map<T, int>, settled: set<T>, last: int)
  {
    forall e :: e in queue ==> EntryOK(queue, cost, settled, last, e)
  }

  ghost predicate EntryOK<T>(queue: multiset<Entry<T>>, cost: map<T, int>, settled: set<T>, last: int, e: Entry<T>)
  {
    e.1 in cost && e.0 >= cost[e.1] && e.0 >= last && queue[e] == 1 &&
    (e.1 in settled ==> e.0 > cost[e.1])
  }

  /** Every reached, unsettled node waits in the heap at its cost. */
  ghost predicate Pending<T>(queue: multiset<Entry<T>>, cost: map<T, int>, settled: set<T>)
  {
    forall v :: v in cost && v !in settled ==> (cost[v], v) in queue
  }

  /** Settled nodes cost no more than `last`. */
  ghost predicate SettledBelow<T>(cost: map<T, int>, settled: set<T>, last: int)
  {
    forall v :: v in settled ==> SettledAt(cost, last, v)
  }

  ghost predicate SettledAt<T>(cost: map<T, int>, last: int, v: T)
  {
    v in cost && cost[v] <= last
  }

  /** Every edge out of a settled node, except those of `cur` still in `todo`, is relaxed. */
  ghost predicate PartlyRelaxed<T>(g: Graph<T>, cost: map<T, int>, settled: set<T>, cur: T, todo: set<T>)
  {
    forall u, v :: u in settled && u in g && v in g[u] && (u != cur || v !in todo) ==> EdgeRelaxed(g, cost, u, v)
  }

  /** Recorded predecessors are settled, already relaxed and tight. */
  ghost predicate PartlyTight<T>(g: Graph<T>, cost: map<T, int>, preds: map<T, seq<T>>, settled: set<T>, cur: T, todo: set<T>)
  {
    forall n, p :: n in preds && p in preds[n] ==> TightLink(g, cost, settled, cur, todo, n, p)
  }

  /** `p`, a recorded predecessor of `n`, is settled, already relaxed towards `n`, and tight. */
  ghost predicate TightLink<T>(g: Graph<T>, cost: map<T, int>, settled: set<T>, cur: T, todo: set<T>, n: T, p: T)
  {
    p in settled && (p != cur || n !in todo) && TightEdge(g, cost, p, n)
  }

  /** Every tight edge already relaxed is recorded. */
  ghost predicate PartlyComplete<T>(g: Graph<T>, cost: map<T, int>, preds: map<T, seq<T>>, settled: set<T>, cur: T, todo: set<T>)
  {
    forall n, p :: n in cost && p in settled && (p != cur || n !in todo) && TightEdge(g, cost, p, n) ==>
      Recorded(preds, n, p)
  }

  /** Settling positions are below `count`; in single-path mode a predecessor settled before its node. */
  ghost predicate OrderInv<T>(allPaths: bool, preds: map<T, seq<T>>, settled: set<T>, order: map<T, nat>, count: nat)
  {
    (forall v :: v in order ==> order[v] < count) &&
    (!allPaths ==> forall n, p :: n in preds && p in preds[n] ==> SettledBefore(settled, order, p, n))
  }

  /** `p` is settled, and before `n` if `n` is settled too. */
  ghost predicate SettledBefore<T>(settled: set<T>, order: map<T, nat>, p: T, n: T)
  {
    p in order && (n in settled ==> Below(order, p, n))
  }

  // ---------------------------------------------------------------------------
  // The heap
  // ---------------------------------------------------------------------------

  /** A non-empty heap has an entry of least cost. */
  lemma {:induction false} LeastEntry<T>(queue: multiset<Entry<T>>) returns (e: Entry<T>)
    requires queue != multiset{}
    ensures e in queue && forall e' :: e' in queue ==> e.0 <= e'.0
    decreases |queue|
  {
    var x :| x in queue;
    var rest := queue - multiset{x};
    assert queue == rest + multiset{x};
    if rest == multiset{} {
      e := x;
    } else {
      var m := LeastEntry(rest);
      e := if x.0 <= m.0 then x else m;
      forall e' | e' in queue ensures e.0 <= e'.0 {
        if e' != x {
          assert e' in rest;
        }
      }
    }
  }

  // ---------------------------------------------------------------------------
  // Relaxing an edge `cur -> n` that strictly improves `n`'s cost
  // ---------------------------------------------------------------------------

  /** The improved node is neither settled, nor `cur`, nor the start. */
  lemma ImproveTarget<T>(g: Graph<T>, start: T, cost: map<T, int>, settled: set<T>, last: int, cur: T, n: T)
    requires NonNegative(g) && start in cost && cost[start] == 0
    requires CostFloor(cost, last) && SettledBelow(cost, settled, last)
    requires cur in settled && IsEdge(g, cur, n)
    requires n !in cost || last + g[cur][n] < cost[n]
    ensures last + g[cur][n] >= last && n !in settled && n != cur && n != start
    ensures CostFloor(cost[n := last + g[cur][n]], last)
  {
    assert g[cur][n] >= 0;
  }

  lemma ImproveDomains<T>(g: Graph<T>, start: T, cost: map<T, int>, preds: map<T, seq<T>>,
                          settled: set<T>, order: map<T, nat>, cur: T, n: T, t: int)
    requires Domains(g, start, cost, preds, settled, order) && IsEdge(g, cur, n) && n != start
    ensures Domains(g, start, cost[n := t], preds[n := [cur]], settled, order)
  {
    assert n in set u, v | u in g && v in g[u] :: v by {
      assert cur in g && n in g[cur];
    }
  }

  lemma ImproveQueue<T>(queue: multiset<Entry<T>>, cost: map<T, int>, settled: set<T>, last: int, n: T, t: int)
    requires QueueInv(queue, cost, settled, last)
    requires n !in settled && t >= last && (n !in cost || t < cost[n])
    ensures QueueInv(queue + multiset{(t, n)}, cost[n := t], settled, last)
    ensures Pending(queue, cost, settled) ==> Pending(queue + multiset{(t, n)}, cost[n := t], settled)
    ensures SettledBelow(cost, settled, last) ==> SettledBelow(cost[n := t], settled, last)
  {
    assert forall e :: e in queue && e.1 == n ==> e.0 > t;
  }

  lemma ImproveRelaxed<T>(g: Graph<T>, cost: map<T, int>, settled: set<T>, cur: T, todo: set<T>, n: T, last: int)
    requires PartlyRelaxed(g, cost, settled, cur, todo)
    requires cur in settled && cur in cost && cost[cur] == last && IsEdge(g, cur, n)
    requires n != cur && n !in settled
    requires n !in cost || last + g[cur][n] < cost[n]
    ensures PartlyRelaxed(g, cost[n := last + g[cur][n]], settled, cur, todo - {n})
  {
    var cost' := cost[n := last + g[cur][n]];
    forall u, v | u in settled && u in g && v in g[u] && (u != cur || v !in todo - {n})
      ensures EdgeRelaxed(g, cost', u, v)
    {
      assert u != n;
      if v != n || u != cur {
        assert EdgeRelaxed(g, cost, u, v);
      }
    }
  }

  lemma ImproveTight<T>(g: Graph<T>, cost: map<T, int>, preds: map<T, seq<T>>, settled: set<T>,
                        cur: T, todo: set<T>, n: T, last: int)
    requires PartlyTight(g, cost, preds, settled, cur, todo)
    requires cur in settled && cur in cost && cost[cur] == last && IsEdge(g, cur, n)
    requires n != cur && n !in settled
    ensures PartlyTight(g, cost[n := last + g[cur][n]], preds[n := [cur]], settled, cur, todo - {n})
  {
  }

  lemma ImproveComplete<T>(g: Graph<T>, cost: map<T, int>, preds: map<T, seq<T>>, settled: set<T>,
                           cur: T, todo: set<T>, n: T, last: int)
    requires PartlyComplete(g, cost, preds, settled, cur, todo) && PartlyRelaxed(g, cost, settled, cur, todo)
    requires cur in settled && cur in cost && cost[cur] == last && IsEdge(g, cur, n)
    requires n != cur && n !in settled
    requires n !in cost || last + g[cur][n] < cost[n]
    ensures PartlyComplete(g, cost[n := last + g[cur][n]], preds[n := [cur]], settled, cur, todo - {n})
  {
    var cost', preds' := cost[n := last + g[cur][n]], preds[n := [cur]];
    // no other settled node reaches `n` as cheaply as `cur` now does
    assert forall p :: p in settled && p != cur && IsEdge(g, p, n) ==> EdgeRelaxed(g, cost, p, n);
    forall m, p | m in cost' && p in settled && (p != cur || m !in todo - {n}) && TightEdge(g, cost', p, m)
      ensures Recorded(preds', m, p)
    {
      if m != n {
        assert p != n && TightEdge(g, cost, p, m);
      }
    }
  }

  lemma ImproveShape<T>(start: T, allPaths: bool, preds: map<T, seq<T>>, n: T, cur: T)
    requires PredecessorShape(start, allPaths, preds) && n != start
    ensures PredecessorShape(start, allPaths, preds[n := [cur]])
  {
  }

  lemma ImproveOrder<T>(allPaths: bool, preds: map<T, seq<T>>, settled: set<T>, order: map<T, nat>, count: nat,
                        n: T, cur: T)
    requires OrderInv(allPaths, preds, settled, order, count) && order.Keys == settled
    requires cur in settled && n !in settled
    ensures OrderInv(allPaths, preds[n := [cur]], settled, order, count)
  {
  }

  lemma ImproveRoutes<T>(g: Graph<T>, start: T, cost: map<T, int>, routes: map<T, seq<T>>, cur: T, n: T)
    requires Witnessed(g, start, cost, routes) && cur in cost && IsEdge(g, cur, n)
    ensures Witnessed(g, start, cost[n := cost[cur] + g[cur][n]], routes[n := routes[cur] + [n]])
  {
    assert IsPathFromTo(g, routes[cur], start, cur);
    ExtendPath(g, routes[cur], n);
  }

  // ---------------------------------------------------------------------------
  // Relaxing an edge that ties `n`'s cost (all-paths mode) or changes nothing
  // ---------------------------------------------------------------------------

  lemma TieTight<T>(g: Graph<T>, cost: map<T, int>, preds: map<T, seq<T>>, settled: set<T>,
                    cur: T, todo: set<T>, n: T)
    requires PartlyTight(g, cost, preds, settled, cur, todo)
    requires cur in settled && cur in cost && IsEdge(g, cur, n) && n in todo
    requires n in preds && n in cost && cost[cur] + g[cur][n] == cost[n]
    ensures cur !in preds[n]
    ensures PartlyTight(g, cost, preds[n := preds[n] + [cur]], settled, cur, todo - {n})
  {
  }

  lemma TieComplete<T>(g: Graph<T>, cost: map<T, int>, preds: map<T, seq<T>>, settled: set<T>,
                       cur: T, todo: set<T>, n: T)
    requires PartlyComplete(g, cost, preds, settled, cur, todo) && n in preds
    ensures PartlyComplete(g, cost, preds[n := preds[n] + [cur]], settled, cur, todo - {n})
  {
  }

  lemma TieShape<T>(start: T, preds: map<T, seq<T>>, n: T, cur: T)
    requires PredecessorShape(start, true, preds) && n in preds && cur !in preds[n]
    ensures PredecessorShape(start, true, preds[n := preds[n] + [cur]])
    ensures preds[n := preds[n] + [cur]].Keys == preds.Keys
  {
  }

  lemma TieOrder<T>(preds: map<T, seq<T>>, settled: set<T>, order: map<T, nat>, count: nat, n: T, cur: T)
    requires OrderInv(true, preds, settled, order, count) && n in preds
    ensures OrderInv(true, preds[n := preds[n] + [cur]], settled, order, count)
  {
  }

  /** Dropping `n` from `todo` keeps what was recorded, and relaxes `cur -> n` when `n` costs no more. */
  lemma Relaxing<T>(g: Graph<T>, cost: map<T, int>, preds: map<T, seq<T>>, settled: set<T>,
                    cur: T, todo: set<T>, n: T)
    requires PartlyRelaxed(g, cost, settled, cur, todo) && PartlyTight(g, cost, preds, settled, cur, todo)
    requires cur in settled && cur in cost && IsEdge(g, cur, n) && n in cost && cost[n] <= cost[cur] + g[cur][n]
    ensures PartlyRelaxed(g, cost, settled, cur, todo - {n})
    ensures PartlyTight(g, cost, preds, settled, cur, todo - {n})
  {
  }

  lemma NoChangeComplete<T>(g: Graph<T>, cost: map<T, int>, preds: map<T, seq<T>>, settled: set<T>,
                            cur: T, todo: set<T>, n: T)
    requires PartlyComplete(g, cost, preds, settled, cur, todo)
    requires IsEdge(g, cur, n) && cur in cost && n in cost && cost[cur] + g[cur][n] > cost[n]
    ensures PartlyComplete(g, cost, preds, settled, cur, todo - {n})
  {
  }

  // ---------------------------------------------------------------------------
  // Popping the heap
  // ---------------------------------------------------------------------------

  /** A popped least entry that is not stale is its node's cost and the node is not yet settled. */
  lemma PopFresh<T>(queue: multiset<Entry<T>>, cost: map<T, int>, settled: set<T>, last: int, e: Entry<T>)
    requires QueueInv(queue, cost, settled, last) && e in queue
    requires !(e.1 in cost && e.0 > cost[e.1])
    ensures e.1 in cost && e.0 == cost[e.1] && e.1 !in settled && e.0 >= last
  {
  }

  /** The heap after a pop, with `last` raised to the popped cost. */
  lemma PopQueue<T>(queue: multiset<Entry<T>>, cost: map<T, int>, settled: set<T>, last: int, e: Entry<T>,
                    settled': set<T>)
    requires QueueInv(queue, cost, settled, last) && Pending(queue, cost, settled)
    requires e in queue && (forall e' :: e' in queue ==> e.0 <= e'.0)
    requires settled' == settled || (settled' == settled + {e.1} && e.0 == cost[e.1])
    requires settled' == settled ==> e.0 > cost[e.1]
    ensures QueueInv(queue - multiset{e}, cost, settled', e.0)
    ensures Pending(queue - multiset{e}, cost, settled')
    ensures CostFloor(cost, last) ==> CostFloor(cost, e.0)
    ensures SettledBelow(cost, settled, last) ==> SettledBelow(cost, settled', e.0)
  {
    var queue' := queue - multiset{e};
    assert queue'[e] == 0;
    forall v | v in cost && v !in settled' ensures (cost[v], v) in queue' {
      assert (cost[v], v) in queue;
    }
  }

  /** Settling `node` starts the relaxation of its edges (there are none when it is not a key). */
  lemma SettleRelaxed<T>(g: Graph<T>, cost: map<T, int>, settled: set<T>, cur: T, node: T)
    requires PartlyRelaxed(g, cost, settled, cur, {})
    ensures node in g ==> PartlyRelaxed(g, cost, settled + {node}, node, g[node].Keys)
    ensures node !in g ==> PartlyRelaxed(g, cost, settled + {node}, node, {})
  {
    forall u, v | u in settled + {node} && u in g && v in g[u] && (u != node || v !in g[node].Keys)
      ensures EdgeRelaxed(g, cost, u, v)
    {
      assert u in settled;
    }
  }

  lemma SettleTight<T>(g: Graph<T>, cost: map<T, int>, preds: map<T, seq<T>>, settled: set<T>, cur: T, node: T)
    requires PartlyTight(g, cost, preds, settled, cur, {}) && node !in settled
    ensures node in g ==> PartlyTight(g, cost, preds, settled + {node}, node, g[node].Keys)
    ensures node !in g ==> PartlyTight(g, cost, preds, settled + {node}, node, {})
  {
  }

  lemma SettleComplete<T>(g: Graph<T>, cost: map<T, int>, preds: map<T, seq<T>>, settled: set<T>, cur: T, node: T)
    requires PartlyComplete(g, cost, preds, settled, cur, {})
    ensures node in g ==> PartlyComplete(g, cost, preds, settled + {node}, node, g[node].Keys)
    ensures node !in g ==> PartlyComplete(g, cost, preds, settled + {node}, node, {})
  {
  }

  lemma SettleDomains<T>(g: Graph<T>, start: T, cost: map<T, int>, preds: map<T, seq<T>>,
                         settled: set<T>, order: map<T, nat>, count: nat, node: T)
    requires Domains(g, start, cost, preds, settled, order) && node in cost
    ensures Domains(g, start, cost, preds, settled + {node}, order[node := count])
  {
  }

  /** Settling a node not settled before leaves fewer nodes to settle. */
  lemma Progress<T>(nodes: set<T>, settled: set<T>, node: T)
    requires node in nodes && node !in settled
    ensures |nodes - (settled + {node})| < |nodes - settled|
  {
    assert nodes - (settled + {node}) == (nodes - settled) - {node};
  }

  /** `node` takes the next settling position, after every node settled before. */
  lemma SettleOrder<T>(allPaths: bool, preds: map<T, seq<T>>, settled: set<T>, order: map<T, nat>, count: nat, node: T)
    requires OrderInv(allPaths, preds, settled, order, count) && order.Keys == settled && node !in settled
    ensures OrderInv(allPaths, preds, settled + {node}, order[node := count], count + 1)
  {
  }

  /** With the heap empty, every reached node is settled. */
  lemma AllSettled<T>(cost: map<T, int>, settled: set<T>)
    requires Pending(multiset{}, cost, settled) && settled <= cost.Keys
    ensures settled == cost.Keys
  {
    forall v | v in cost ensures v in settled {
      assert (cost[v], v) !in multiset{};
    }
  }

  /** Once everything is settled and expanded, the search's guarantees hold. */
  lemma Finished<T>(g: Graph<T>, allPaths: bool, cost: map<T, int>, preds: map<T, seq<T>>,
                    order: map<T, nat>, count: nat, cur: T)
    requires PartlyRelaxed(g, cost, cost.Keys, cur, {}) && PartlyTight(g, cost, preds, cost.Keys, cur, {})
    requires allPaths ==> PartlyComplete(g, cost, preds, cost.Keys, cur, {})
    requires OrderInv(allPaths, preds, cost.Keys, order, count) && order.Keys == cost.Keys && preds.Keys == cost.Keys
    ensures Relaxed(g, cost) && TightPredecessors(g, cost, preds)
    ensures allPaths ==> AllTightPredecessors(g, cost, preds)
    ensures !allPaths ==> RankedBy(preds, order)
  {
    FinishedRelaxed(g, cost, cur);
    if allPaths {
      FinishedComplete(g, cost, preds, cur);
    }
  }

  lemma FinishedRelaxed<T>(g: Graph<T>, cost: map<T, int>, cur: T)
    requires PartlyRelaxed(g, cost, cost.Keys, cur, {})
    ensures Relaxed(g, cost)
  {
    forall u, v | u in cost && u in g && v in g[u] ensures EdgeRelaxed(g, cost, u, v) {
      assert u in cost.Keys && (u != cur || v !in {});
    }
  }

  lemma FinishedComplete<T>(g: Graph<T>, cost: map<T, int>, preds: map<T, seq<T>>, cur: T)
    requires PartlyComplete(g, cost, preds, cost.Keys, cur, {})
    ensures AllTightPredecessors(g, cost, preds)
  {
    forall n, p | n in cost && p in cost && TightEdge(g, cost, p, n) ensures Recorded(preds, n, p) {
      assert p in cost.Keys && (p != cur || n !in {});
    }
  }

  // ---------------------------------------------------------------------------
  // The search
  // ---------------------------------------------------------------------------

  /**
   * The invariant of the main loop: `cur` is the node expanded last, popped at
   * cost `last`, with the neighbours `todo` not yet relaxed.
   */
  ghost predicate SearchInv<T>(g: Graph<T>, start: T, allPaths: bool, cur: T, last: int,
                               cost: map<T, int>, preds: map<T, seq<T>>, queue: multiset<Entry<T>>,
                               settled: set<T>, order: map<T, nat>, count: nat, routes: map<T, seq<T>>, todo: set<T>)
  {
    Domains(g, start, cost, preds, settled, order) && CostFloor(cost, last) &&
    QueueInv(queue, cost, settled, last) && Pending(queue, cost, settled) && SettledBelow(cost, settled, last) &&
    PartlyRelaxed(g, cost, settled, cur, todo) && PartlyTight(g, cost, preds, settled, cur, todo) &&
    (allPaths ==> PartlyComplete(g, cost, preds, settled, cur, todo)) &&
    PredecessorShape(start, allPaths, preds) && OrderInv(allPaths, preds, settled, order, count) &&
    Witnessed(g, start, cost, routes)
  }

  /** The invariant of the relaxation loop over the neighbours of `cur`, popped at cost `c`. */
  ghost predicate ExpandInv<T>(g: Graph<T>, start: T, allPaths: bool, cur: T, c: int,
                               cost: map<T, int>, preds: map<T, seq<T>>, queue: multiset<Entry<T>>,
                               settled: set<T>, order: map<T, nat>, count: nat, routes: map<T, seq<T>>, todo: set<T>)
  {
    cur in settled && cur in g && todo <= g[cur].Keys && cur in cost && cost[cur] == c &&
    SearchInv(g, start, allPaths, cur, c, cost, preds, queue, settled, order, count, routes, todo)
  }

  /** The invariant holds before the first iteration. */
  lemma Initially<T>(g: Graph<T>, start: T, allPaths: bool)
    ensures SearchInv(g, start, allPaths, start, 0, map[start := 0], map[start := []], multiset{(0, start)},
                      {}, map[], 0, map[start := [start]], {})
  {
    assert Weight(g, [start]) == 0;
  }

  /** Popping a stale entry only raises `last`. */
  lemma StaleStep<T>(g: Graph<T>, start: T, allPaths: bool, cur: T, last: int, e: Entry<T>,
                     cost: map<T, int>, preds: map<T, seq<T>>, queue: multiset<Entry<T>>,
                     settled: set<T>, order: map<T, nat>, count: nat, routes: map<T, seq<T>>)
    requires SearchInv(g, start, allPaths, cur, last, cost, preds, queue, settled, order, count, routes, {})
    requires e in queue && (forall e' :: e' in queue ==> e.0 <= e'.0)
    requires e.1 in cost && e.0 > cost[e.1]
    ensures SearchInv(g, start, allPaths, cur, e.0, cost, preds, queue - multiset{e}, settled, order, count, routes, {})
  {
    PopQueue(queue, cost, settled, last, e, settled);
  }

  /**
   * Popping a fresh entry settles its node, which comes next in the settling
   * order and has all its outgoing edges still to relax.
   */
  lemma SettleStep<T>(g: Graph<T>, start: T, allPaths: bool, cur: T, last: int, e: Entry<T>,
                      cost: map<T, int>, preds: map<T, seq<T>>, queue: multiset<Entry<T>>,
                      settled: set<T>, order: map<T, nat>, count: nat, routes: map<T, seq<T>>)
    requires SearchInv(g, start, allPaths, cur, last, cost, preds, queue, settled, order, count, routes, {})
    requires e in queue && (forall e' :: e' in queue ==> e.0 <= e'.0)
    requires !(e.1 in cost && e.0 > cost[e.1])
    ensures e.1 !in settled && e.1 in Nodes(g, start)
    ensures e.1 in g ==>
      ExpandInv(g, start, allPaths, e.1, e.0, cost, preds, queue - multiset{e}, settled + {e.1},
                order[e.1 := count], count + 1, routes, g[e.1].Keys)
    ensures e.1 !in g ==>
      SearchInv(g, start, allPaths, e.1, e.0, cost, preds, queue - multiset{e}, settled + {e.1},
                order[e.1 := count], count + 1, routes, {})
  {
    var node := e.1;
    PopFresh(queue, cost, settled, last, e);
    PopQueue(queue, cost, settled, last, e, settled + {node});
    SettleDomains(g, start, cost, preds, settled, order, count, node);
    SettleRelaxed(g, cost, settled, cur, node);
    SettleTight(g, cost, preds, settled, cur, node);
    if allPaths {
      SettleComplete(g, cost, preds, settled, cur, node);
    }
    SettleOrder(allPaths, preds, settled, order, count, node);
  }

  /** Relaxing an edge that strictly improves the neighbour's cost keeps the loop invariant. */
  lemma ImproveStep<T>(g: Graph<T>, start: T, allPaths: bool, cur: T, c: int, n: T, t: int,
                       cost: map<T, int>, preds: map<T, seq<T>>, queue: multiset<Entry<T>>,
                       settled: set<T>, order: map<T, nat>, count: nat, routes: map<T, seq<T>>, todo: set<T>)
    requires NonNegative(g) && n in todo
    requires ExpandInv(g, start, allPaths, cur, c, cost, preds, queue, settled, order, count, routes, todo)
    requires t == c + g[cur][n] && (n !in cost || t < cost[n])
    ensures ExpandInv(g, start, allPaths, cur, c, cost[n := t], preds[n := [cur]], queue + multiset{(t, n)},
                      settled, order, count, routes[n := routes[cur] + [n]], todo - {n})
  {
    ImproveTarget(g, start, cost, settled, c, cur, n);
    ImproveDomains(g, start, cost, preds, settled, order, cur, n, t);
    ImproveQueue(queue, cost, settled, c, n, t);
    ImproveRelaxed(g, cost, settled, cur, todo, n, c);
    ImproveTight(g, cost, preds, settled, cur, todo, n, c);
    if allPaths {
      ImproveComplete(g, cost, preds, settled, cur, todo, n, c);
    }
    ImproveShape(start, allPaths, preds, n, cur);
    ImproveOrder(allPaths, preds, settled, order, count, n, cur);
    ImproveRoutes(g, start, cost, routes, cur, n);
  }

  /** In all-paths mode, relaxing an edge that ties the neighbour's cost records one more predecessor. */
  lemma TieStep<T>(g: Graph<T>, start: T, cur: T, c: int, n: T,
                   cost: map<T, int>, preds: map<T, seq<T>>, queue: multiset<Entry<T>>,
                   settled: set<T>, order: map<T, nat>, count: nat, routes: map<T, seq<T>>, todo: set<T>)
    requires n in todo
    requires ExpandInv(g, start, true, cur, c, cost, preds, queue, settled, order, count, routes, todo)
    requires n in cost && c + g[cur][n] == cost[n]
    ensures n in preds
    ensures ExpandInv(g, start, true, cur, c, cost, preds[n := preds[n] + [cur]], queue,
                      settled, order, count, routes, todo - {n})
  {
    Relaxing(g, cost, preds, settled, cur, todo, n);
    TieTight(g, cost, preds, settled, cur, todo, n);
    TieComplete(g, cost, preds, settled, cur, todo, n);
    TieShape(start, preds, n, cur);
    TieOrder(preds, settled, order, count, n, cur);
  }

  /** Relaxing an edge that neither improves nor (in all-paths mode) ties the neighbour's cost. */
  lemma NoChangeStep<T>(g: Graph<T>, start: T, allPaths: bool, cur: T, c: int, n: T,
                        cost: map<T, int>, preds: map<T, seq<T>>, queue: multiset<Entry<T>>,
                        settled: set<T>, order: map<T, nat>, count: nat, routes: map<T, seq<T>>, todo: set<T>)
    requires n in todo
    requires ExpandInv(g, start, allPaths, cur, c, cost, preds, queue, settled, order, count, routes, todo)
    requires n in cost && c + g[cur][n] >= cost[n] && (allPaths ==> c + g[cur][n] != cost[n])
    ensures ExpandInv(g, start, allPaths, cur, c, cost, preds, queue, settled, order, count, routes, todo - {n})
  {
    Relaxing(g, cost, preds, settled, cur, todo, n);
    if allPaths {
      NoChangeComplete(g, cost, preds, settled, cur, todo, n);
    }
  }

  /**
   * What relaxing the edge `cur -> n` at tentative cost `t` does to the state:
   * on a strict improvement, `n` gets cost `t`, `cur` as its sole predecessor
   * and a new heap entry; on a tie in all-paths mode, `cur` is appended to
   * `n`'s predecessors (`setdefault(n, []).append(cur)`); otherwise nothing changes.
   */
  ghost predicate RelaxUpdate<T>(allPaths: bool, cur: T, n: T, t: int,
                                 cost0: map<T, int>, preds0: map<T, seq<T>>, queue0: multiset<Entry<T>>,
                                 cost: map<T, int>, preds: map<T, seq<T>>, queue: multiset<Entry<T>>)
  {
    if n !in cost0 || t < cost0[n] then
      cost == cost0[n := t] && preds == preds0[n := [cur]] && queue == queue0 + multiset{(t, n)}
    else if allPaths && t == cost0[n] then
      cost == cost0 && preds == preds0[n := (if n in preds0 then preds0[n] else []) + [cur]] && queue == queue0
    else
      cost == cost0 && preds == preds0 && queue == queue0
  }

  /** One iteration of the source's inner `for` loop: relaxes the edge `cur -> neighbor`. */
  method RelaxEdge<T(==)>(g: Graph<T>, allPaths: bool, cur: T, c: int, neighbor: T,
                          cost0: map<T, int>, preds0: map<T, seq<T>>, queue0: multiset<Entry<T>>)
    returns (cost: map<T, int>, preds: map<T, seq<T>>, queue: multiset<Entry<T>>)
    requires cur in g && neighbor in g[cur]
    ensures RelaxUpdate(allPaths, cur, neighbor, c + g[cur][neighbor], cost0, preds0, queue0, cost, preds, queue)
  {
    cost, preds, queue := cost0, preds0, queue0;
    var tentative := c + g[cur][neighbor];
    if neighbor !in cost || tentative < cost[neighbor] {
      cost := cost[neighbor := tentative];
      preds := preds[neighbor := [cur]];
      queue := queue + multiset{(tentative, neighbor)};
    } else if allPaths && tentative == cost[neighbor] {
      var known := if neighbor in preds then preds[neighbor] else [];
      preds := preds[neighbor := known + [cur]];
    }
  }

  /** Relaxing one more edge out of `cur` keeps the expansion invariant. */
  lemma RelaxStep<T>(g: Graph<T>, start: T, allPaths: bool, cur: T, c: int, n: T,
                     cost0: map<T, int>, preds0: map<T, seq<T>>, queue0: multiset<Entry<T>>,
                     settled: set<T>, order: map<T, nat>, count: nat, routes0: map<T, seq<T>>, todo: set<T>,
                     cost: map<T, int>, preds: map<T, seq<T>>, queue: multiset<Entry<T>>, routes: map<T, seq<T>>)
    requires NonNegative(g) && n in todo
    requires ExpandInv(g, start, allPaths, cur, c, cost0, preds0, queue0, settled, order, count, routes0, todo)
    requires RelaxUpdate(allPaths, cur, n, c + g[cur][n], cost0, preds0, queue0, cost, preds, queue)
    requires routes == if n !in cost0 || c + g[cur][n] < cost0[n] then routes0[n := routes0[cur] + [n]] else routes0
    ensures ExpandInv(g, start, allPaths, cur, c, cost, preds, queue, settled, order, count, routes, todo - {n})
  {
    var t := c + g[cur][n];
    if n !in cost0 || t < cost0[n] {
      assert cost == cost0[n := t] && preds == preds0[n := [cur]] && queue == queue0 + multiset{(t, n)};
      assert routes == routes0[n := routes0[cur] + [n]];
      ImproveStep(g, start, allPaths, cur, c, n, t, cost0, preds0, queue0, settled, order, count, routes0, todo);
    } else if allPaths && t == cost0[n] {
      TieStep(g, start, cur, c, n, cost0, preds0, queue0, settled, order, count, routes0, todo);
      assert cost == cost0 && preds == preds0[n := preds0[n] + [cur]] && queue == queue0 && routes == routes0;
    } else {
      assert cost == cost0 && preds == preds0 && queue == queue0 && routes == routes0;
      NoChangeStep(g, start, allPaths, cur, c, n, cost0, preds0, queue0, settled, order, count, routes0, todo);
    }
  }

  /** The cost `v` has after relaxing `cur -> v` from cost `c`: the lower of its old cost and `c` plus the weight. */
  ghost function Lowered<T>(g: Graph<T>, cur: T, c: int, cost0: map<T, int>, v: T): int
    requires cur in g && v in g[cur]
  {
    if v in cost0 && cost0[v] <= c + g[cur][v] then cost0[v] else c + g[cur][v]
  }

  /** The costs once the edges from `cur` to the nodes in `done` are relaxed, and no other. */
  ghost predicate CostsAfter<T>(g: Graph<T>, cur: T, c: int, cost0: map<T, int>, cost: map<T, int>, done: set<T>)
    requires cur in g && done <= g[cur].Keys
  {
    (forall v :: v in done ==> v in cost && cost[v] == Lowered(g, cur, c, cost0, v))
    && (forall v :: v in cost && v !in done ==> v in cost0 && cost[v] == cost0[v])
    && (forall v :: v in cost0 && v !in done ==> v in cost)
  }

  /** Relaxing the edge to one more node lowers that node's cost and no other. */
  lemma CostsAfterStep<T>(g: Graph<T>, allPaths: bool, cur: T, c: int, n: T, cost0: map<T, int>,
                          costA: map<T, int>, predsA: map<T, seq<T>>, queueA: multiset<Entry<T>>,
                          cost: map<T, int>, preds: map<T, seq<T>>, queue: multiset<Entry<T>>, done: set<T>)
    requires cur in g && done <= g[cur].Keys && n in g[cur] && n !in done
    requires CostsAfter(g, cur, c, cost0, costA, done)
    requires RelaxUpdate(allPaths, cur, n, c + g[cur][n], costA, predsA, queueA, cost, preds, queue)
    ensures CostsAfter(g, cur, c, cost0, cost, done + {n})
  {
    assert (n in costA <==> n in cost0) && (n in costA ==> costA[n] == cost0[n]);
    assert n in cost && cost[n] == Lowered(g, cur, c, cost0, n);
  }

  /** Taking `n` off the nodes still to do adds it to the nodes done. */
  lemma OneMoreDone<T>(keys: set<T>, todo: set<T>, n: T)
    requires n in todo && todo <= keys
    ensures keys - (todo - {n}) == (keys - todo) + {n}
    ensures |todo - {n}| < |todo|
  {
  }

  /**
   * Relaxes every outgoing edge of `cur`, popped at cost `c` (the source's
   * inner `for` loop): on a strict improvement the neighbour gets the new cost,
   * `cur` as its sole predecessor and a heap entry; on a tie in all-paths mode
   * `cur` is appended to its predecessors. Each neighbour's cost becomes the lower of its old cost
   * and `c` plus the edge's weight, and no other cost changes.
   */
  method Expand<T(==)>(g: Graph<T>, start: T, allPaths: bool, cur: T, c: int,
                       cost0: map<T, int>, preds0: map<T, seq<T>>, queue0: multiset<Entry<T>>,
                       ghost settled: set<T>, ghost order: map<T, nat>, ghost count: nat,
                       ghost routes0: map<T, seq<T>>)
    returns (cost: map<T, int>, preds: map<T, seq<T>>, queue: multiset<Entry<T>>, ghost routes: map<T, seq<T>>)
    requires NonNegative(g) && cur in g
    requires ExpandInv(g, start, allPaths, cur, c, cost0, preds0, queue0, settled, order, count, routes0, g[cur].Keys)
    ensures ExpandInv(g, start, allPaths, cur, c, cost, preds, queue, settled, order, count, routes, {})
    ensures CostsAfter(g, cur, c, cost0, cost, g[cur].Keys)
  {
    cost, preds, queue, routes := cost0, preds0, queue0, routes0;
    var todo := g[cur].Keys;
    while todo != {}
      invariant ExpandInv(g, start, allPaths, cur, c, cost, preds, queue, settled, order, count, routes, todo)
      invariant CostsAfter(g, cur, c, cost0, cost, g[cur].Keys - todo)
      decreases |todo|
    {
      var neighbor :| neighbor in todo;
      var cost1, preds1, queue1 := RelaxEdge(g, allPaths, cur, c, neighbor, cost, preds, queue);
      ghost var routes1 := if neighbor !in cost || c + g[cur][neighbor] < cost[neighbor]
                           then routes[neighbor := routes[cur] + [neighbor]] else routes;
      RelaxStep(g, start, allPaths, cur, c, neighbor, cost, preds, queue, settled, order, count, routes, todo,
                cost1, preds1, queue1, routes1);
      CostsAfterStep(g, allPaths, cur, c, neighbor, cost0, cost, preds, queue, cost1, preds1, queue1, g[cur].Keys - todo);
      OneMoreDone(g[cur].Keys, todo, neighbor);
      cost, preds, queue, routes := cost1, preds1, queue1, routes1;
      todo := todo - {neighbor};
    }
  }

  /**
   * `Graph._do_dijkstra(graph, start, return_all_paths)`: the cost of every
   * reachable node and its predecessors on cheapest routes.
   *
   * `order` (a ghost) gives the position at which each node was settled;
   * `routes` (a ghost) gives, for each reached node, a path achieving its cost.
   */
  method Search<T(==)>(g: Graph<T>, start: T, allPaths: bool)
    returns (cost: map<T, int>, preds: map<T, seq<T>>, ghost order: map<T, nat>, ghost routes: map<T, seq<T>>)
    requires NonNegative(g)
    ensures start in cost && cost[start] == 0
    ensures cost.Keys == preds.Keys && order.Keys == cost.Keys && cost.Keys <= Nodes(g, start)
    ensures Relaxed(g, cost)
    ensures Witnessed(g, start, cost, routes)
    ensures TightPredecessors(g, cost, preds)
    ensures allPaths ==> AllTightPredecessors(g, cost, preds)
    ensures PredecessorShape(start, allPaths, preds)
    ensures !allPaths ==> RankedBy(preds, order)
  {
    cost := map[start := 0];
    preds := map[start := []];
    var queue: multiset<Entry<T>> := multiset{(0, start)};
    ghost var settled: set<T> := {};
    ghost var last := 0;
    ghost var cur := start;
    ghost var count: nat := 0;
    order := map[];
    routes := map[start := [start]];
    Initially(g, start, allPaths);
    while queue != multiset{}
      invariant SearchInv(g, start, allPaths, cur, last, cost, preds, queue, settled, order, count, routes, {})
      decreases |Nodes(g, start) - settled|, |queue|
    {
      ghost var least := LeastEntry(queue);
      var entry :| entry in queue && forall e :: e in queue ==> entry.0 <= e.0;
      var weight, node := entry.0, entry.1;
      if node in cost && weight > cost[node] {
        StaleStep(g, start, allPaths, cur, last, entry, cost, preds, queue, settled, order, count, routes);
        queue := queue - multiset{entry};
        last := weight;
        continue;
      }
      SettleStep(g, start, allPaths, cur, last, entry, cost, preds, queue, settled, order, count, routes);
      Progress(Nodes(g, start), settled, node);
      queue := queue - multiset{entry};
      order := order[node := count];
      count := count + 1;
      settled := settled + {node};
      last := weight;
      cur := node;
      if node !in g {
        continue;
      }
      cost, preds, queue, routes := Expand(g, start, allPaths, node, weight, cost, preds, queue, settled, order, count, routes);
    }
    AllSettled(cost, settled);
    Finished(g, allPaths, cost, preds, order, count, cur);
  }

  // ---------------------------------------------------------------------------
  // What the guarantees mean for paths
  // ---------------------------------------------------------------------------

  /**
   * Once every edge out of a reached node is relaxed, a path from a reached
   * node ends at a reached node, at no more than the first node's cost plus
   * the path's weight.
   */
  lemma {:induction false} LowerBound<T>(g: Graph<T>, cost: map<T, int>, q: seq<T>)
    requires Relaxed(g, cost) && IsPath(g, q) && q[0] in cost
    ensures q[|q| - 1] in cost && cost[q[|q| - 1]] <= cost[q[0]] + Weight(g, q)
    decreases |q|
  {
    if |q| > 1 {
      var front := q[..|q| - 1];
      SubPath(g, q, 0, |q| - 1);
      assert q[0..|q| - 1] == front;
      LowerBound(g, cost, front);
      assert EdgeRelaxed(g, cost, q[|q| - 2], q[|q| - 1]);
    }
  }

  /** The cost of every reached node is the weight of a cheapest path to it, and unreached nodes have no path. */
  lemma CostIsShortest<T>(g: Graph<T>, start: T, cost: map<T, int>, routes: map<T, seq<T>>, n: T)
    requires start in cost && cost[start] == 0 && Relaxed(g, cost) && Witnessed(g, start, cost, routes)
    ensures n in cost ==> IsPathFromTo(g, routes[n], start, n) && Weight(g, routes[n]) == cost[n]
    ensures forall q :: IsPathFromTo(g, q, start, n) ==> n in cost && cost[n] <= Weight(g, q)
  {
    forall q | IsPathFromTo(g, q, start, n) ensures n in cost && cost[n] <= Weight(g, q) {
      LowerBound(g, cost, q);
    }
  }
}
