/**
 * Weighted undirected station graphs as adjacency lists, the tentative
 * distances Dijkstra's algorithm keeps, and paths with their costs.
 * Shared by both routers.
 */
module Graphs {
  import opened Wrappers
  import opened JsObjects

  /** One adjacency-list entry: the neighbouring station id and the edge weight. */
  datatype Neighbor = Neighbor(node: string, distance: nat)

  /** Station id to its adjacency list. */
  type Adjacency = map<string, seq<Neighbor>>

  /** A tentative distance: a finite weight or JavaScript's `Infinity`. */
  datatype Dist = Fin(n: nat) | Inf

  /** `a <= b` on distances, with `Infinity <= Infinity`. */
  predicate Le(a: Dist, b: Dist) {
    b.Inf? || (a.Fin? && a.n <= b.n)
  }

  /** `a < b` on distances: `Infinity < x` is false for every `x`. */
  predicate Lt(a: Dist, b: Dist) {
    a.Fin? && (b.Inf? || a.n < b.n)
  }

  /** `a + w`, where `Infinity + w` is `Infinity`. */
  function Plus(a: Dist, w: nat): Dist {
    if a.Fin? then Fin(a.n + w) else Inf
  }

  /** The adjacency list of `u`, empty when `u` is not a key (`graph[u] || []`). */
  function Nbrs(g: Adjacency, u: string): seq<Neighbor> {
    if u in g then g[u] else []
  }

  /** The least weight among the entries of `ns` that lead to `v`. */
  function MinWeight(ns: seq<Neighbor>, v: string): (r: Option<nat>)
    ensures r.None? <==> forall i :: 0 <= i < |ns| ==> ns[i].node != v
    ensures r.Some? ==> exists i :: 0 <= i < |ns| && ns[i] == Neighbor(v, r.value)
    ensures r.Some? ==> forall i :: 0 <= i < |ns| && ns[i].node == v ==> r.value <= ns[i].distance
    decreases |ns|
  {
    if ns == [] then None
    else
      var rest := MinWeight(ns[..|ns| - 1], v);
      var last := ns[|ns| - 1];
      if last.node != v then rest
      else if rest.Some? && rest.value <= last.distance then rest
      else Some(last.distance)
  }

  /** Some entry of `u`'s list leads to `v`. */
  predicate Adjacent(g: Adjacency, u: string, v: string) {
    u in g && MinWeight(g[u], v).Some?
  }

  /** The weight of the cheapest entry from `u` to `v`. */
  function Weight(g: Adjacency, u: string, v: string): nat
    requires Adjacent(g, u, v)
  {
    MinWeight(g[u], v).value
  }

  /** A non-empty node sequence in which consecutive nodes are adjacent. */
  ghost predicate IsPath(g: Adjacency, p: seq<string>) {
    |p| >= 1 && forall i :: 0 <= i < |p| - 1 ==> Adjacent(g, p[i], p[i + 1])
  }

  /** The sum of the cheapest edge weights along `p`. */
  ghost function PathCost(g: Adjacency, p: seq<string>): nat
    requires IsPath(g, p)
    decreases |p|
  {
    if |p| == 1 then 0
    else
      assert IsPath(g, p[1..]) by {
        forall i | 0 <= i < |p| - 2 ensures Adjacent(g, p[1..][i], p[1..][i + 1]) {
          assert Adjacent(g, p[i + 1], p[i + 2]);
        }
      }
      Weight(g, p[0], p[1]) + PathCost(g, p[1..])
  }

  /** Some path leads from `s` to `t`. */
  ghost predicate Reachable(g: Adjacency, s: string, t: string) {
    exists p :: IsPath(g, p) && p[0] == s && p[|p| - 1] == t
  }

  /** Every node a key of `g` lists as a neighbour lies in `nodes`, and so do the keys. */
  ghost predicate Closed(g: Adjacency, nodes: set<string>) {
    && g.Keys <= nodes
    && forall u, i :: u in g && 0 <= i < |g[u]| ==> g[u][i].node in nodes
  }

  lemma AdjacentClosed(g: Adjacency, nodes: set<string>, u: string, v: string)
    requires Closed(g, nodes) && Adjacent(g, u, v)
    ensures u in nodes && v in nodes
  {
    var i :| 0 <= i < |g[u]| && g[u][i] == Neighbor(v, MinWeight(g[u], v).value);
  }

  /** Prepending an adjacent node adds the weight of the first edge. */
  lemma PathCostPrepend(g: Adjacency, x: string, p: seq<string>)
    requires IsPath(g, p) && Adjacent(g, x, p[0])
    ensures IsPath(g, [x] + p)
    ensures PathCost(g, [x] + p) == Weight(g, x, p[0]) + PathCost(g, p)
  {
    var q := [x] + p;
    forall i | 0 <= i < |q| - 1 ensures Adjacent(g, q[i], q[i + 1]) {
      if i > 0 { assert q[i] == p[i - 1] && q[i + 1] == p[i]; }
    }
    assert q[1..] == p;
  }

  /** A prefix of a path is a path and costs no more. */
  lemma {:induction false} PathCostPrefix(g: Adjacency, p: seq<string>, k: nat)
    requires IsPath(g, p) && 1 <= k <= |p|
    ensures IsPath(g, p[..k]) && PathCost(g, p[..k]) <= PathCost(g, p)
    decreases k
  {
    var q := p[..k];
    forall i | 0 <= i < k - 1 ensures Adjacent(g, q[i], q[i + 1]) {
      assert q[i] == p[i] && q[i + 1] == p[i + 1];
    }
    if k > 1 {
      var t := p[1..];
      forall i | 0 <= i < |t| - 1 ensures Adjacent(g, t[i], t[i + 1]) {
        assert t[i] == p[i + 1] && t[i + 1] == p[i + 2];
      }
      PathCostPrefix(g, t, k - 1);
      assert q[1..] == t[..k - 1];
    }
  }

  /** Appending an adjacent node adds the weight of the last edge. */
  lemma {:induction false} PathCostAppend(g: Adjacency, p: seq<string>, y: string)
    requires IsPath(g, p) && Adjacent(g, p[|p| - 1], y)
    ensures IsPath(g, p + [y])
    ensures PathCost(g, p + [y]) == PathCost(g, p) + Weight(g, p[|p| - 1], y)
    decreases |p|
  {
    var q := p + [y];
    forall i | 0 <= i < |q| - 1 ensures Adjacent(g, q[i], q[i + 1]) {
      if i < |p| - 1 { assert q[i] == p[i] && q[i + 1] == p[i + 1]; }
    }
    if |p| > 1 {
      var t := p[1..];
      forall i | 0 <= i < |t| - 1 ensures Adjacent(g, t[i], t[i + 1]) {
        assert t[i] == p[i + 1] && t[i + 1] == p[i + 2];
      }
      PathCostAppend(g, t, y);
      assert q[1..] == t + [y];
    }
  }

  /** A subset as large as its superset is all of it. */
  lemma SubsetFull(a: set<string>, b: set<string>)
    requires a <= b && |a| >= |b|
    ensures a == b
  {
    if a != b {
      assert !(b <= a);
      var x :| x in b && x !in a;
      SubsetCard(a, b - {x});
    }
  }

  /** A subset has no more elements than its superset. */
  lemma SubsetCard(a: set<string>, b: set<string>)
    requires a <= b
    ensures |a| <= |b|
  {
    assert b == a + (b - a);
  }

  /** A record of the edge dataset: two station ids and the edge's `distance`. */
  datatype Edge = Edge(from: string, to: string, distance: nat)

  /** The next prefix of the edge list. */
  lemma PrefixSnoc(edges: seq<Edge>, i: nat)
    requires i < |edges|
    ensures edges[..i + 1] == edges[..i] + [edges[i]]
  {
  }

  /** A built graph: `keys` lists the ids in the order `Object.keys` yields them. */
  datatype Graph = Graph(keys: seq<string>, adj: Adjacency)

  /** The ids that occur as an endpoint of some edge. */
  function Endpoints(edges: seq<Edge>): set<string>
    decreases |edges|
  {
    if edges == [] then {}
    else
      var e := edges[|edges| - 1];
      Endpoints(edges[..|edges| - 1]) + {e.from, e.to}
  }

  /** A key is an endpoint exactly when some edge starts or ends there. */
  lemma {:induction false} EndpointsMembers(edges: seq<Edge>)
    ensures forall k :: k in Endpoints(edges) <==> exists i :: 0 <= i < |edges| && (edges[i].from == k || edges[i].to == k)
    decreases |edges|
  {
    if edges != [] {
      EndpointsMembers(edges[..|edges| - 1]);
      assert forall i :: 0 <= i < |edges| - 1 ==> edges[..|edges| - 1][i] == edges[i];
    }
  }

  /** The key order of a graph built edge by edge, `from` before `to`. */
  function KeyOrder(edges: seq<Edge>): seq<string>
    decreases |edges|
  {
    if edges == [] then []
    else
      var e := edges[|edges| - 1];
      AddKey(AddKey(KeyOrder(edges[..|edges| - 1]), e.from), e.to)
  }

  /** The key order lists every endpoint exactly once and nothing else. */
  lemma {:induction false} KeyOrderEndpoints(edges: seq<Edge>)
    ensures Distinct(KeyOrder(edges))
    ensures forall k :: k in KeyOrder(edges) <==> k in Endpoints(edges)
    decreases |edges|
  {
    if edges != [] {
      KeyOrderEndpoints(edges[..|edges| - 1]);
    }
  }

  /** A well-formed graph: distinct keys that are exactly the adjacency keys, neighbours among them. */
  ghost predicate WellFormed(g: Graph) {
    && Distinct(g.keys)
    && (forall k :: k in g.keys <==> k in g.adj)
    && Closed(g.adj, g.adj.Keys)
  }

}
