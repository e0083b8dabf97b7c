/**
 * Weighted directed graphs as adjacency maps (`node -> (neighbour -> weight)`),
 * paths through them and their weights, and the edge-insertion helper.
 */
module Graphs {

  /** An adjacency map: a node that is not a key has no outgoing edges. */
  type Graph<T> = map<T, map<T, int>>

  /** `v` is a neighbour of `u`. */
  predicate IsEdge<T>(g: Graph<T>, u: T, v: T)
  {
    u in g && v in g[u]
  }

  /** No edge has a negative weight (the shortest-path search assumes this). */
  ghost predicate NonNegative<T>(g: Graph<T>)
  {
    forall u, v :: u in g && v in g[u] ==> g[u][v] >= 0
  }

  /** Every edge has a strictly positive weight. */
  ghost predicate Positive<T>(g: Graph<T>)
  {
    forall u, v :: u in g && v in g[u] ==> g[u][v] > 0
  }

  /** Every node of the graph: `start`, every key, and every neighbour. */
  function Nodes<T>(g: Graph<T>, start: T): set<T>
  {
    {start} + g.Keys + set u, v | u in g && v in g[u] :: v
  }

  /** A non-empty node sequence in which each node is a neighbour of the one before. */
  ghost predicate IsPath<T>(g: Graph<T>, path: seq<T>)
  {
    |path| >= 1 && forall i :: 0 <= i < |path| - 1 ==> IsEdge(g, path[i], path[i + 1])
  }

  /** A path that begins at `s` and ends at `t`. */
  ghost predicate IsPathFromTo<T>(g: Graph<T>, path: seq<T>, s: T, t: T)
  {
    IsPath(g, path) && path[0] == s && path[|path| - 1] == t
  }

  /** The sum of the weights of the edges a path takes. */
  ghost function Weight<T>(g: Graph<T>, path: seq<T>): int
    requires IsPath(g, path)
    decreases |path|
  {
    if |path| == 1 then 0
    else
      var u, v := path[|path| - 2], path[|path| - 1];
      assert IsEdge(g, u, v);
      Weight(g, path[..|path| - 1]) + g[u][v]
  }

  /** Every stretch of a path is a path. */
  lemma SubPath<T>(g: Graph<T>, path: seq<T>, i: nat, j: nat)
    requires IsPath(g, path) && i < j <= |path|
    ensures IsPath(g, path[i..j])
  {
    var sub := path[i..j];
    forall k | 0 <= k < |sub| - 1 ensures IsEdge(g, sub[k], sub[k + 1]) {
      assert IsEdge(g, path[i + k], path[i + k + 1]);
    }
  }

  /** A path of two or more nodes weighs its path without the last node plus the last edge. */
  lemma DropLast<T>(g: Graph<T>, path: seq<T>)
    requires IsPath(g, path) && |path| >= 2
    ensures IsPath(g, path[..|path| - 1]) && IsEdge(g, path[|path| - 2], path[|path| - 1])
    ensures Weight(g, path) == Weight(g, path[..|path| - 1]) + g[path[|path| - 2]][path[|path| - 1]]
  {
    SubPath(g, path, 0, |path| - 1);
    assert path[0..|path| - 1] == path[..|path| - 1];
  }

  /** A path split at one of its nodes weighs as much as its two halves together. */
  lemma {:induction false} WeightSplit<T>(g: Graph<T>, path: seq<T>, k: nat)
    requires IsPath(g, path) && k < |path|
    ensures IsPath(g, path[..k + 1]) && IsPath(g, path[k..])
    ensures Weight(g, path) == Weight(g, path[..k + 1]) + Weight(g, path[k..])
    decreases |path|
  {
    SubPath(g, path, 0, k + 1);
    SubPath(g, path, k, |path|);
    assert path[0..k + 1] == path[..k + 1] && path[k..|path|] == path[k..];
    if k == |path| - 1 {
      assert path[..k + 1] == path;
    } else {
      var front := path[..|path| - 1];
      var back := path[k..];
      DropLast(g, path);
      DropLast(g, back);
      WeightSplit(g, front, k);
      assert front[..k + 1] == path[..k + 1];
      assert back[..|back| - 1] == front[k..];
      assert back[|back| - 2] == path[|path| - 2] && back[|back| - 1] == path[|path| - 1];
    }
  }

  /** A path with a positive-weight edge somewhere weighs more than nothing. */
  lemma {:induction false} PositiveWeight<T>(g: Graph<T>, path: seq<T>)
    requires Positive(g) && IsPath(g, path) && |path| >= 2
    ensures Weight(g, path) > 0
    decreases |path|
  {
    var front := path[..|path| - 1];
    SubPath(g, path, 0, |path| - 1);
    assert path[0..|path| - 1] == front;
    assert IsEdge(g, path[|path| - 2], path[|path| - 1]);
    if |front| >= 2 {
      PositiveWeight(g, front);
    }
  }

  /** Without negative edges, no path weighs less than nothing. */
  lemma {:induction false} NonNegativeWeight<T>(g: Graph<T>, path: seq<T>)
    requires NonNegative(g) && IsPath(g, path)
    ensures Weight(g, path) >= 0
    decreases |path|
  {
    if |path| >= 2 {
      var front := path[..|path| - 1];
      SubPath(g, path, 0, |path| - 1);
      assert path[0..|path| - 1] == front;
      assert IsEdge(g, path[|path| - 2], path[|path| - 1]);
      NonNegativeWeight(g, front);
    }
  }

  /** Extending a path by one edge adds that edge's weight. */
  lemma ExtendPath<T>(g: Graph<T>, path: seq<T>, v: T)
    requires IsPath(g, path) && IsEdge(g, path[|path| - 1], v)
    ensures IsPath(g, path + [v])
    ensures Weight(g, path + [v]) == Weight(g, path) + g[path[|path| - 1]][v]
  {
    var ext := path + [v];
    assert IsPath(g, ext) by {
      forall i | 0 <= i < |ext| - 1 ensures IsEdge(g, ext[i], ext[i + 1]) {
        if i < |path| - 1 {
          assert IsEdge(g, path[i], path[i + 1]);
        }
      }
    }
    assert ext[..|ext| - 1] == path;
  }

  /** The graph after `add_edge(g, from, to, w)`: `from`'s entry created if needed, then the edge overwritten. */
  function WithEdge<T>(g: Graph<T>, from: T, to: T, w: int): (g': Graph<T>)
    ensures IsEdge(g', from, to) && g'[from][to] == w
    ensures g'.Keys == g.Keys + {from}
    ensures forall u, v :: u in g && v in g[u] && (u != from || v != to) ==>
      IsEdge(g', u, v) && g'[u][v] == g[u][v]
    ensures forall u, v :: u in g' && v in g'[u] && (u != from || v != to) ==> IsEdge(g, u, v)
  {
    var adjacent := if from in g then g[from] else map[];
    g[from := adjacent[to := w]]
  }

  /** Adding the same edge twice keeps only the second weight. */
  lemma AddEdgeOverwrites<T>(g: Graph<T>, from: T, to: T, w1: int, w2: int)
    ensures WithEdge(WithEdge(g, from, to, w1), from, to, w2) == WithEdge(g, from, to, w2)
  {
    var once := WithEdge(g, from, to, w1);
    assert once[from][to := w2] == (if from in g then g[from] else map[])[to := w2];
  }

  /** Adding an edge that is already there with that weight changes nothing. */
  lemma AddEdgeIdempotent<T>(g: Graph<T>, from: T, to: T, w: int)
    requires IsEdge(g, from, to) && g[from][to] == w
    ensures WithEdge(g, from, to, w) == g
  {
    assert g[from][to := w] == g[from];
  }

  /** A caller's adjacency map, which `add_edge` updates in place. */
  class Adjacency<T(==)> {
    var edges: Graph<T>

    constructor ()
      ensures edges == map[]
    {
      edges := map[];
    }

    /** `Graph.add_edge(graph, from_node, to_node, weight)`. */
    method AddEdge(from: T, to: T, w: int)
      modifies this
      ensures edges == WithEdge(old(edges), from, to, w)
    {
      if from !in edges {
        edges := edges[from := map[]];
      }
      edges := edges[from := edges[from][to := w]];
    }
  }
}
