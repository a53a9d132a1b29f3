/**
 * The stand-alone router `findShortestPath(edges, start, end)`: the graph is
 * an object of objects (`graph[from][to] = distance`, so a later edge between
 * the same two stations overwrites the weight of an earlier one), the node
 * selected at each step is the head of the unvisited keys sorted by
 * distance, the search stops as soon as `end` would be selected, and the
 * path is rebuilt from `previous` without a cap.
 *
 * A station id that is the empty string is falsy in JavaScript and stops
 * both the search and the reconstruction early; the properties below are
 * stated for graphs without such an id.
 */
module DijkstraUtil {
  import opened Wrappers
  import opened JsObjects
  import opened Graphs
  import opened Search

  // ---------------------------------------------------------------------
  // Inner objects: `graph[u]` as an association list in key order
  // ---------------------------------------------------------------------

  /** The keys of an inner object, in insertion order. */
  function NodesOf(ns: seq<Neighbor>): (r: seq<string>)
    ensures |r| == |ns| && forall i :: 0 <= i < |ns| ==> r[i] == ns[i].node
  {
    if ns == [] then [] else [ns[0].node] + NodesOf(ns[1..])
  }

  /** `graph[u][v]`: the value stored under `v`, if any. */
  function Get(ns: seq<Neighbor>, v: string): (r: Option<nat>)
    ensures r.Some? ==> Neighbor(v, r.value) in ns
    ensures r.None? <==> v !in NodesOf(ns)
  {
    if ns == [] then None
    else if ns[0].node == v then Some(ns[0].distance)
    else Get(ns[1..], v)
  }

  /** `graph[u][v] = d` on the inner object `ns`. */
  function Put(ns: seq<Neighbor>, v: string, d: nat): seq<Neighbor>
  {
    if ns == [] then [Neighbor(v, d)]
    else if ns[0].node == v then [Neighbor(v, d)] + ns[1..]
    else [ns[0]] + Put(ns[1..], v, d)
  }

  /** An existing key keeps its place, a new key goes last. */
  lemma {:induction false} PutKeys(ns: seq<Neighbor>, v: string, d: nat)
    ensures NodesOf(Put(ns, v, d)) == AddKey(NodesOf(ns), v)
  {
    if ns != [] && ns[0].node != v {
      PutKeys(ns[1..], v, d);
      assert ([ns[0]] + Put(ns[1..], v, d))[1..] == Put(ns[1..], v, d);
    } else if ns != [] {
      assert ([Neighbor(v, d)] + ns[1..])[1..] == ns[1..];
    }
  }

  /** The key `v` now holds `d`; every other key keeps its value. */
  lemma {:induction false} PutGet(ns: seq<Neighbor>, v: string, d: nat, x: string)
    ensures Get(Put(ns, v, d), x) == if x == v then Some(d) else Get(ns, x)
  {
    if ns != [] && ns[0].node != v {
      PutGet(ns[1..], v, d, x);
      assert ([ns[0]] + Put(ns[1..], v, d))[1..] == Put(ns[1..], v, d);
    } else if ns != [] {
      assert ([Neighbor(v, d)] + ns[1..])[1..] == ns[1..];
    }
  }

  /** On distinct keys the stored value is the only entry, so it is also the least. */
  lemma GetIsMin(ns: seq<Neighbor>, v: string)
    requires Distinct(NodesOf(ns))
    ensures MinWeight(ns, v) == Get(ns, v)
  {
    if MinWeight(ns, v).Some? {
      var i :| 0 <= i < |ns| && ns[i] == Neighbor(v, MinWeight(ns, v).value);
      var j :| 0 <= j < |ns| && ns[j] == Neighbor(v, Get(ns, v).value);
      assert NodesOf(ns)[i] == NodesOf(ns)[j];
    }
  }

  // ---------------------------------------------------------------------
  // The graph the edge loop builds
  // ---------------------------------------------------------------------

  /** Edge `e` joins `u` and `v`, in either direction. */
  predicate Joins(e: Edge, u: string, v: string) {
    (e.from == u && e.to == v) || (e.from == v && e.to == u)
  }

  /** The weight of the last edge joining `u` and `v`: the value every later assignment overwrote the others with. */
  function LastWeight(edges: seq<Edge>, u: string, v: string): Option<nat>
    decreases |edges|
  {
    if edges == [] then None
    else if Joins(edges[|edges| - 1], u, v) then Some(edges[|edges| - 1].distance)
    else LastWeight(edges[..|edges| - 1], u, v)
  }

  /** The inner object of `u` after the edge loop: both assignments of every edge that touches `u`. */
  function Inner(edges: seq<Edge>, u: string): seq<Neighbor>
    decreases |edges|
  {
    if edges == [] then []
    else
      var e := edges[|edges| - 1];
      var a := Inner(edges[..|edges| - 1], u);
      var b := if e.from == u then Put(a, e.to, e.distance) else a;
      if e.to == u then Put(b, e.from, e.distance) else b
  }

  /** The graph object the edge loop builds. */
  function NestedOf(edges: seq<Edge>): Graph {
    Graph(KeyOrder(edges), map u | u in Endpoints(edges) :: Inner(edges, u))
  }

  /** `adj` holds, for every endpoint of `edges` and nothing else, the inner object `edges` build. */
  ghost predicate HoldsInner(adj: Adjacency, edges: seq<Edge>) {
    adj.Keys == Endpoints(edges) && forall u :: u in adj ==> adj[u] == Inner(edges, u)
  }

  /** Builds the graph: both endpoints become keys, and each stores the edge's distance under the other. */
  method BuildNested(edges: seq<Edge>) returns (g: Graph)
    ensures g == NestedOf(edges)
  {
    var keys: seq<string> := [];
    var adj: Adjacency := map[];
    var i := 0;
    ghost var done: seq<Edge> := [];
    while i < |edges|
      invariant 0 <= i <= |edges| && done == edges[..i]
      invariant keys == KeyOrder(done)
      invariant HoldsInner(adj, done)
    {
      var e := edges[i];
      ghost var adj0, keys0 := adj, keys;
      if e.from !in adj {
        adj := adj[e.from := []];
        keys := keys + [e.from];
      }
      ghost var adj1, keys1 := adj, keys;
      if e.to !in adj {
        adj := adj[e.to := []];
        keys := keys + [e.to];
      }
      ghost var adj2 := adj;
      adj := adj[e.from := Put(adj[e.from], e.to, e.distance)];
      ghost var adj3 := adj;
      adj := adj[e.to := Put(adj[e.to], e.from, e.distance)];
      NestedStep(done, e, adj0, adj1, adj2, adj3, adj, keys0, keys1, keys);
      PrefixSnoc(edges, i);
      done := done + [e];
      i := i + 1;
    }
    assert edges[..|edges|] == edges;
    HoldsInnerGraph(adj, edges);
    g := Graph(keys, adj);
  }

  lemma HoldsInnerGraph(adj: Adjacency, edges: seq<Edge>)
    requires HoldsInner(adj, edges)
    ensures adj == NestedOf(edges).adj
  {
  }

  /** Adding edge `e` as the loop body does extends both loop invariants to `edges + [e]`. */
  lemma NestedStep(edges: seq<Edge>, e: Edge, adj0: Adjacency, adj1: Adjacency, adj2: Adjacency, adj3: Adjacency, adj: Adjacency,
                   keys0: seq<string>, keys1: seq<string>, keys: seq<string>)
    requires HoldsInner(adj0, edges) && keys0 == KeyOrder(edges)
    requires adj1 == if e.from in adj0 then adj0 else adj0[e.from := []]
    requires keys1 == if e.from in adj0 then keys0 else keys0 + [e.from]
    requires adj2 == if e.to in adj1 then adj1 else adj1[e.to := []]
    requires keys == if e.to in adj1 then keys1 else keys1 + [e.to]
    requires adj3 == adj2[e.from := Put(adj2[e.from], e.to, e.distance)]
    requires adj == adj3[e.to := Put(adj3[e.to], e.from, e.distance)]
    ensures HoldsInner(adj, edges + [e])
    ensures keys == KeyOrder(edges + [e])
  {
    KeyOrderEndpoints(edges);
    assert e.from in adj0 <==> e.from in keys0;
    assert e.to in adj1 <==> e.to in keys1;
    var es := edges + [e];
    assert es[..|es| - 1] == edges;
    InnerAdjStep(edges, e, adj0, adj1, adj2, adj3, adj);
  }

  /** The adjacency half of `NestedStep`. */
  lemma InnerAdjStep(edges: seq<Edge>, e: Edge, adj0: Adjacency, adj1: Adjacency, adj2: Adjacency, adj3: Adjacency, adj: Adjacency)
    requires HoldsInner(adj0, edges)
    requires adj1 == if e.from in adj0 then adj0 else adj0[e.from := []]
    requires adj2 == if e.to in adj1 then adj1 else adj1[e.to := []]
    requires adj3 == adj2[e.from := Put(adj2[e.from], e.to, e.distance)]
    requires adj == adj3[e.to := Put(adj3[e.to], e.from, e.distance)]
    ensures HoldsInner(adj, edges + [e])
  {
    var es := edges + [e];
    assert es[..|es| - 1] == edges;
    assert Endpoints(es) == Endpoints(edges) + {e.from, e.to};
    forall u | u in adj ensures adj[u] == Inner(es, u) {
      InnerAtStep(edges, e, adj0, adj1, adj2, adj3, adj, u);
    }
  }

  /** `InnerAdjStep` at one id. */
  lemma InnerAtStep(edges: seq<Edge>, e: Edge, adj0: Adjacency, adj1: Adjacency, adj2: Adjacency, adj3: Adjacency, adj: Adjacency,
                    u: string)
    requires HoldsInner(adj0, edges)
    requires adj1 == if e.from in adj0 then adj0 else adj0[e.from := []]
    requires adj2 == if e.to in adj1 then adj1 else adj1[e.to := []]
    requires adj3 == adj2[e.from := Put(adj2[e.from], e.to, e.distance)]
    requires adj == adj3[e.to := Put(adj3[e.to], e.from, e.distance)]
    requires u in adj
    ensures adj[u] == Inner(edges + [e], u)
  {
    var es := edges + [e];
    assert es[..|es| - 1] == edges;
    var base := Inner(edges, u);
    if u !in Endpoints(edges) {
      InnerOfNonEndpoint(edges, u);
    }
    assert u in adj2 ==> adj2[u] == base;
    var b := if e.from == u then Put(base, e.to, e.distance) else base;
    assert Inner(es, u) == if e.to == u then Put(b, e.from, e.distance) else b;
    if u == e.from && u == e.to {
      assert adj[u] == Put(Put(base, e.to, e.distance), e.from, e.distance);
    } else if u == e.from {
      assert adj[u] == Put(base, e.to, e.distance);
    } else if u == e.to {
      assert adj[u] == Put(base, e.from, e.distance);
    } else {
      assert adj[u] == base;
    }
  }

  /** An id that is no endpoint has an empty inner object. */
  lemma {:induction false} InnerOfNonEndpoint(edges: seq<Edge>, u: string)
    requires u !in Endpoints(edges)
    ensures Inner(edges, u) == []
    decreases |edges|
  {
    if edges != [] {
      InnerOfNonEndpoint(edges[..|edges| - 1], u);
    }
  }

  /**
   * The inner object of `u` has distinct keys, and the value under `v` is the
   * weight of the last edge joining `u` and `v`: a later edge overwrites.
   */
  lemma {:induction false} InnerValues(edges: seq<Edge>, u: string)
    ensures Distinct(NodesOf(Inner(edges, u)))
    ensures forall v :: Get(Inner(edges, u), v) == LastWeight(edges, u, v)
    decreases |edges|
  {
    if edges != [] {
      var e := edges[|edges| - 1];
      var a := Inner(edges[..|edges| - 1], u);
      InnerValues(edges[..|edges| - 1], u);
      var b := if e.from == u then Put(a, e.to, e.distance) else a;
      PutKeys(a, e.to, e.distance);
      PutKeys(b, e.from, e.distance);
      AddKeyDistinct(NodesOf(a), e.to);
      AddKeyDistinct(NodesOf(b), e.from);
      forall v ensures Get(Inner(edges, u), v) == LastWeight(edges, u, v) {
        PutGet(a, e.to, e.distance, v);
        PutGet(b, e.from, e.distance, v);
      }
    }
  }

  /** Every key of an inner object is an endpoint. */
  lemma {:induction false} InnerClosed(edges: seq<Edge>, u: string)
    ensures forall x :: x in NodesOf(Inner(edges, u)) ==> x in Endpoints(edges)
    decreases |edges|
  {
    if edges != [] {
      var e := edges[|edges| - 1];
      var a := Inner(edges[..|edges| - 1], u);
      InnerClosed(edges[..|edges| - 1], u);
      var b := if e.from == u then Put(a, e.to, e.distance) else a;
      PutKeys(a, e.to, e.distance);
      PutKeys(b, e.from, e.distance);
    }
  }

  /** The graph object is well formed and its keys are exactly the endpoints. */
  lemma NestedWellFormed(edges: seq<Edge>)
    ensures WellFormed(NestedOf(edges))
    ensures NestedOf(edges).adj.Keys == Endpoints(edges)
  {
    KeyOrderEndpoints(edges);
    forall u, i | u in Endpoints(edges) && 0 <= i < |Inner(edges, u)|
      ensures Inner(edges, u)[i].node in Endpoints(edges)
    {
      InnerClosed(edges, u);
      assert NodesOf(Inner(edges, u))[i] == Inner(edges, u)[i].node;
    }
  }

  /**
   * In the graph object, `u` and `v` are adjacent exactly when some edge
   * joins them, in both directions alike, and the weight is that of the
   * last such edge.
   */
  lemma NestedWeight(edges: seq<Edge>, u: string, v: string)
    requires u in Endpoints(edges)
    ensures Adjacent(NestedOf(edges).adj, u, v) <==> LastWeight(edges, u, v).Some?
    ensures Adjacent(NestedOf(edges).adj, u, v) ==> Weight(NestedOf(edges).adj, u, v) == LastWeight(edges, u, v).value
  {
    InnerValues(edges, u);
    GetIsMin(Inner(edges, u), v);
  }

  /** Whether and how heavily two stations are joined does not depend on the direction. */
  lemma {:induction false} LastWeightSymmetric(edges: seq<Edge>, u: string, v: string)
    ensures LastWeight(edges, u, v) == LastWeight(edges, v, u)
    decreases |edges|
  {
    if edges != [] {
      LastWeightSymmetric(edges[..|edges| - 1], u, v);
    }
  }

  /** A station that some edge joins to another is an endpoint. */
  lemma {:induction false} LastWeightEndpoint(edges: seq<Edge>, u: string, v: string)
    requires LastWeight(edges, u, v).Some?
    ensures u in Endpoints(edges) && v in Endpoints(edges)
    decreases |edges|
  {
    if !Joins(edges[|edges| - 1], u, v) {
      LastWeightEndpoint(edges[..|edges| - 1], u, v);
    }
  }

  // ---------------------------------------------------------------------
  // Selecting the next node
  // ---------------------------------------------------------------------

  /** `Object.keys(distances).filter(node => !visited[node])`. */
  function Unvisited(keys: seq<string>, visited: set<string>): (r: seq<string>)
    ensures forall x :: x in r <==> x in keys && x !in visited
  {
    if keys == [] then []
    else (if keys[0] in visited then [] else [keys[0]]) + Unvisited(keys[1..], visited)
  }

  /** `distances[y]`, read for keys only; other ids count as `Infinity`. */
  function DistOf(dist: map<string, Dist>, y: string): Dist {
    if y in dist then dist[y] else Inf
  }

  /** Places `x` before the first element it is no farther than, as a stable sort does with an element that came first. */
  function Insert(x: string, t: seq<string>, dist: map<string, Dist>): seq<string> {
    if t == [] then [x]
    else if Le(DistOf(dist, x), DistOf(dist, t[0])) then [x] + t
    else [t[0]] + Insert(x, t[1..], dist)
  }

  /**
   * `.sort((a, b) => distances[a] - distances[b])`: a stable sort by distance,
   * `Infinity - Infinity` being `NaN`, which the sort treats as a tie.
   */
  function SortByDist(s: seq<string>, dist: map<string, Dist>): seq<string> {
    if s == [] then [] else Insert(s[0], SortByDist(s[1..], dist), dist)
  }

  /** Ascending by distance. */
  ghost predicate SortedByDist(s: seq<string>, dist: map<string, Dist>) {
    forall i, j :: 0 <= i < j < |s| ==> Le(DistOf(dist, s[i]), DistOf(dist, s[j]))
  }

  lemma {:induction false} InsertPerm(x: string, t: seq<string>, dist: map<string, Dist>)
    ensures multiset(Insert(x, t, dist)) == multiset(t) + multiset{x}
  {
    if t != [] && !Le(DistOf(dist, x), DistOf(dist, t[0])) {
      InsertPerm(x, t[1..], dist);
      assert t == [t[0]] + t[1..];
      assert Insert(x, t, dist) == [t[0]] + Insert(x, t[1..], dist);
      assert multiset(Insert(x, t, dist)) == multiset{t[0]} + multiset(Insert(x, t[1..], dist));
    }
  }

  /** The sort reorders and neither drops nor duplicates. */
  lemma {:induction false} SortByDistPerm(s: seq<string>, dist: map<string, Dist>)
    ensures multiset(SortByDist(s, dist)) == multiset(s)
  {
    if s != [] {
      SortByDistPerm(s[1..], dist);
      InsertPerm(s[0], SortByDist(s[1..], dist), dist);
      assert s == [s[0]] + s[1..];
    }
  }

  lemma {:induction false} InsertSorted(x: string, t: seq<string>, dist: map<string, Dist>)
    requires SortedByDist(t, dist)
    ensures SortedByDist(Insert(x, t, dist), dist)
  {
    if t != [] && !Le(DistOf(dist, x), DistOf(dist, t[0])) {
      InsertSorted(x, t[1..], dist);
      var r := Insert(x, t[1..], dist);
      InsertPerm(x, t[1..], dist);
      forall k | 0 <= k < |r| ensures Le(DistOf(dist, t[0]), DistOf(dist, r[k])) {
        assert r[k] in multiset(r);
        if r[k] != x {
          assert r[k] in multiset(t[1..]);
          var m :| 0 <= m < |t[1..]| && t[1..][m] == r[k];
          assert t[m + 1] == r[k];
        }
      }
      assert forall k :: 0 < k < |[t[0]] + r| ==> ([t[0]] + r)[k] == r[k - 1];
    }
  }

  /** The sort orders by distance. */
  lemma {:induction false} SortByDistSorted(s: seq<string>, dist: map<string, Dist>)
    ensures SortedByDist(SortByDist(s, dist), dist)
  {
    if s != [] {
      SortByDistSorted(s[1..], dist);
      InsertSorted(s[0], SortByDist(s[1..], dist), dist);
    }
  }

  /**
   * The head of the sorted list, `unvisited[0]`, is an element of least
   * distance that no earlier element ties with: the first one of least
   * distance.
   */
  lemma {:induction false} SortHead(s: seq<string>, dist: map<string, Dist>)
    requires s != []
    ensures SortByDist(s, dist) != []
    ensures SortByDist(s, dist)[0] in s
    ensures forall y :: y in s ==> Le(DistOf(dist, SortByDist(s, dist)[0]), DistOf(dist, y))
    ensures exists k :: 0 <= k < |s| && s[k] == SortByDist(s, dist)[0]
                        && forall j :: 0 <= j < k ==> !Le(DistOf(dist, s[j]), DistOf(dist, s[k]))
  {
    var rest := s[1..];
    assert s == [s[0]] + rest;
    if rest == [] {
      assert SortByDist(s, dist) == [s[0]];
    } else {
      SortHead(rest, dist);
      var t := SortByDist(rest, dist);
      var h := t[0];
      if Le(DistOf(dist, s[0]), DistOf(dist, h)) {
        assert SortByDist(s, dist)[0] == s[0];
      } else {
        assert SortByDist(s, dist)[0] == h;
        var k :| 0 <= k < |rest| && rest[k] == h && forall j :: 0 <= j < k ==> !Le(DistOf(dist, rest[j]), DistOf(dist, rest[k]));
        assert s[k + 1] == h;
        forall j | 0 <= j < k + 1 ensures !Le(DistOf(dist, s[j]), DistOf(dist, s[k + 1])) {
          if j > 0 { assert s[j] == rest[j - 1]; }
        }
      }
    }
  }

  // ---------------------------------------------------------------------
  // The search
  // ---------------------------------------------------------------------

  /** The keys of `distances`: the graph's keys and `start`. */
  function Nodes(g: Graph, start: string): set<string> {
    g.adj.Keys + {start}
  }

  /** Every key of the graph at `Infinity`, then `start` at 0, added last when it is no key. */
  method InitDistances(g: Graph, start: string) returns (keys: seq<string>, dist: map<string, Dist>)
    requires WellFormed(g)
    ensures keys == AddKey(g.keys, start)
    ensures dist.Keys == Nodes(g, start)
    ensures forall k :: k in dist ==> dist[k] == if k == start then Fin(0) else Inf
  {
    keys, dist := [], map[];
    var i := 0;
    while i < |g.keys|
      invariant 0 <= i <= |g.keys|
      invariant keys == g.keys[..i]
      invariant dist.Keys == set k | k in g.keys[..i]
      invariant forall k :: k in dist ==> dist[k] == Inf
    {
      var node := g.keys[i];
      if node !in dist {
        keys := keys + [node];
      }
      dist := dist[node := Inf];
      assert g.keys[..i + 1] == g.keys[..i] + [node];
      i := i + 1;
    }
    assert g.keys[..|g.keys|] == g.keys;
    if start !in dist {
      keys := keys + [start];
    }
    dist := dist[start := Fin(0)];
  }

  /** The exit test `!closest || closest === end` on the head of the sorted unvisited keys. */
  predicate Stops(sorted: seq<string>, end: string) {
    sorted == [] || sorted[0] == "" || sorted[0] == end
  }

  /**
   * The head of the unvisited keys sorted by distance, or `None` where the
   * loop stops: no unvisited key, a falsy head, or `end`. The head is no
   * farther than any unvisited key, and among the nearest it is the first in
   * key order. When no key is the empty string and `end` is an unvisited
   * key, the loop stops only with `end` no farther than any unvisited key.
   */
  method Closest(keys: seq<string>, visited: set<string>, dist: map<string, Dist>, end: string) returns (c: Option<string>)
    ensures c.None? <==> Stops(SortByDist(Unvisited(keys, visited), dist), end)
    ensures c.Some? ==> c.value in keys && c.value !in visited && c.value != "" && c.value != end
    ensures c.Some? ==> forall y :: y in keys && y !in visited ==> Le(DistOf(dist, c.value), DistOf(dist, y))
    ensures c.Some? ==> var u := Unvisited(keys, visited);
      exists k :: 0 <= k < |u| && u[k] == c.value && forall j :: 0 <= j < k ==> !Le(DistOf(dist, u[j]), DistOf(dist, u[k]))
    ensures c.None? && "" !in keys && end in keys && end !in visited ==>
      forall y :: y in keys && y !in visited ==> Le(DistOf(dist, end), DistOf(dist, y))
  {
    var unvisited := Unvisited(keys, visited);
    var sorted := SortByDist(unvisited, dist);
    if unvisited != [] {
      SortHead(unvisited, dist);
    }
    if Stops(sorted, end) {
      c := None;
    } else {
      c := Some(sorted[0]);
    }
  }

  /**
   * The main loop: take the closest unvisited key, stop where it says so,
   * otherwise visit it and relax its entries. The search invariant holds on
   * exit, `end` is never visited, and when no key is the empty string and
   * `end` is a key, the loop stops with `end` no farther than any unvisited
   * key.
   */
  method Settle(g: Graph, start: string, end: string)
    returns (keys: seq<string>, dist: map<string, Dist>, prev: map<string, string>, visited: set<string>, ghost rank: map<string, nat>)
    requires WellFormed(g)
    ensures keys == AddKey(g.keys, start)
    ensures Inv(g.adj, Nodes(g, start), start, dist, prev, visited, rank)
    ensures end !in visited
    ensures "" !in Nodes(g, start) && end in Nodes(g, start) ==>
      forall u :: u in Nodes(g, start) && u !in visited ==> Le(dist[end], dist[u])
  {
    var nodes := Nodes(g, start);
    keys, dist := InitDistances(g, start);
    assert forall k :: k in keys <==> k in nodes;
    prev, visited, rank := map[], {}, map[];
    InitialInv(g.adj, nodes, start, dist);
    while true
      invariant Inv(g.adj, nodes, start, dist, prev, visited, rank)
      invariant end !in visited
      decreases |nodes| - |visited|
    {
      var next := Closest(keys, visited, dist, end);
      if next.None? {
        StopFacts(nodes, dist, visited, end, keys);
        break;
      }
      var c := next.value;
      LeastIsLeast(nodes, dist, visited, c, keys);
      var dist2, prev2 := Visit(g, nodes, start, dist, prev, visited, rank, c);
      SubsetCard(visited + {c}, nodes);
      dist, prev, visited, rank := dist2, prev2, visited + {c}, rank[c := |visited|];
    }
  }

  /** Lines 23–31: marks `c` visited and relaxes its entries; the search invariant carries over. */
  method Visit(g: Graph, ghost nodes: set<string>, start: string, dist: map<string, Dist>, prev: map<string, string>,
               ghost visited: set<string>, ghost rank: map<string, nat>, c: string)
    returns (dist2: map<string, Dist>, prev2: map<string, string>)
    requires Inv(g.adj, nodes, start, dist, prev, visited, rank)
    requires c in nodes && c !in visited
    requires forall u :: u in nodes && u !in visited ==> Le(dist[c], dist[u])
    ensures RelaxedFrom(Nbrs(g.adj, c), c, dist, prev, dist2, prev2)
    ensures Inv(g.adj, nodes, start, dist2, prev2, visited + {c}, rank[c := |visited|])
  {
    assert Closed(g.adj, nodes);
    dist2, prev2 := Relax(Nbrs(g.adj, c), c, dist, prev);
    VisitStep(g.adj, nodes, start, dist, prev, visited, rank, c, dist2, prev2);
  }

  /** The stopping fact of `Closest`, read on the distance map. */
  lemma StopFacts(nodes: set<string>, dist: map<string, Dist>, visited: set<string>, end: string, keys: seq<string>)
    requires dist.Keys == nodes && (forall k :: k in keys <==> k in nodes)
    requires "" !in keys && end in keys && end !in visited ==>
      forall y :: y in keys && y !in visited ==> Le(DistOf(dist, end), DistOf(dist, y))
    requires end !in visited
    ensures "" !in nodes && end in nodes ==> forall u :: u in nodes && u !in visited ==> Le(dist[end], dist[u])
  {
    if "" !in nodes && end in nodes {
      forall u | u in nodes && u !in visited ensures Le(dist[end], dist[u]) {
        assert u in keys;
      }
    }
  }

  /** The choice of `Closest`, read on the distance map. */
  lemma LeastIsLeast(nodes: set<string>, dist: map<string, Dist>, visited: set<string>, c: string, keys: seq<string>)
    requires dist.Keys == nodes && (forall k :: k in keys <==> k in nodes)
    requires c in keys && c !in visited
    requires forall y :: y in keys && y !in visited ==> Le(DistOf(dist, c), DistOf(dist, y))
    ensures c in nodes && forall u :: u in nodes && u !in visited ==> Le(dist[c], dist[u])
  {
    forall u | u in nodes && u !in visited ensures Le(dist[c], dist[u]) {
      assert u in keys;
    }
  }

  // ---------------------------------------------------------------------
  // Path reconstruction and the result
  // ---------------------------------------------------------------------

  /**
   * The node `x` still to be put in front of `path`: together they form a
   * path to `end`, `x` has a finite distance and the whole stays within the
   * distance of `end`.
   */
  ghost predicate TrailAt(g: Adjacency, dist: map<string, Dist>, x: string, path: seq<string>, end: string)
    requires end in dist && dist[end].Fin?
  {
    && IsPath(g, [x] + path) && ([x] + path)[|path|] == end
    && x in dist && dist[x].Fin?
    && dist[x].n + PathCost(g, [x] + path) <= dist[end].n
  }

  /** One step of the walk back: the predecessor of `x` continues the trail; without one `x` is `start`. */
  lemma TrailStep(g: Adjacency, nodes: set<string>, start: string, dist: map<string, Dist>,
                  prev: map<string, string>, visited: set<string>, rank: map<string, nat>,
                  x: string, path: seq<string>, end: string)
    requires Chains(g, nodes, start, dist, prev, visited, rank)
    requires end in nodes && dist[end].Fin?
    requires TrailAt(g, dist, x, path, end)
    ensures x in prev ==> prev[x] in nodes && TrailAt(g, dist, prev[x], [x] + path, end)
    ensures x !in prev ==> x == start
    ensures var p := [x] + path;
      (IsPath(g, p) && p[|p| - 1] == end && p[0] in dist && dist[p[0]].Fin? && dist[p[0]].n + PathCost(g, p) <= dist[end].n)
  {
    if x in prev {
      ChainStep(g, nodes, start, dist, prev, visited, rank, [x] + path, end);
      assert ([prev[x]] + ([x] + path))[|[x] + path|] == end;
    }
  }

  /**
   * `while (current)`: put `current` in front and move to its predecessor.
   * For an `end` with a finite distance, and no key the empty string, the
   * result is a path from `start` to `end` no dearer than that distance;
   * otherwise `end` has no predecessor and the result is `end` alone, or
   * nothing for the empty id.
   */
  method Reconstruct(ghost g: Adjacency, ghost nodes: set<string>, start: string, dist: map<string, Dist>,
                     prev: map<string, string>, ghost visited: set<string>, ghost rank: map<string, nat>, end: string)
    returns (path: seq<string>)
    requires Chains(g, nodes, start, dist, prev, visited, rank)
    ensures !(end in nodes && dist[end].Fin?) ==> path == if end == "" then [] else [end]
    ensures "" !in nodes && end in nodes && dist[end].Fin? ==>
      IsPath(g, path) && path[0] == start && path[|path| - 1] == end && PathCost(g, path) <= dist[end].n
  {
    path := [];
    var current: Option<string> := Some(end);
    while current.Some? && current.value != ""
      invariant WalkInv(g, nodes, start, dist, path, current, end)
      decreases WalkMeasure(nodes, visited, rank, current)
    {
      var x := current.value;
      var path', current' := [x] + path, if x in prev then Some(prev[x]) else None;
      WalkAdvance(g, nodes, start, dist, prev, visited, rank, path, current, end, path', current');
      path, current := path', current';
    }
    WalkExit(g, nodes, start, dist, prev, visited, rank, path, current, end);
  }

  /** The invariant of the walk back from `end`. */
  ghost predicate WalkInv(g: Adjacency, nodes: set<string>, start: string, dist: map<string, Dist>,
                          path: seq<string>, current: Option<string>, end: string)
    requires dist.Keys == nodes
  {
    && (!(end in nodes && dist[end].Fin?) ==>
          (path == [] && current == Some(end)) || (path == [end] && end != "" && current.None?))
    && ("" !in nodes && end in nodes && dist[end].Fin? ==>
          && (current.Some? ==> current.value in nodes && TrailAt(g, dist, current.value, path, end))
          && (path != [] ==> IsPath(g, path) && path[|path| - 1] == end)
          && (path != [] ==> path[0] in dist && dist[path[0]].Fin? && dist[path[0]].n + PathCost(g, path) <= dist[end].n)
          && (current.None? ==> path != [] && path[0] == start))
  }

  /** Falls with every step back along a predecessor. */
  ghost function WalkMeasure(nodes: set<string>, visited: set<string>, rank: map<string, nat>, current: Option<string>): nat
    requires rank.Keys == visited
  {
    if current.None? then 0 else 1 + if current.value in nodes then ChainMeasure(visited, rank, current.value) else 0
  }

  /** One turn of the walk keeps its invariant and lowers its measure. */
  lemma WalkAdvance(g: Adjacency, nodes: set<string>, start: string, dist: map<string, Dist>,
                    prev: map<string, string>, visited: set<string>, rank: map<string, nat>,
                    path: seq<string>, current: Option<string>, end: string, path': seq<string>, current': Option<string>)
    requires Chains(g, nodes, start, dist, prev, visited, rank)
    requires WalkInv(g, nodes, start, dist, path, current, end)
    requires current.Some? && current.value != ""
    requires path' == [current.value] + path
    requires current' == if current.value in prev then Some(prev[current.value]) else None
    ensures WalkInv(g, nodes, start, dist, path', current', end)
    ensures WalkMeasure(nodes, visited, rank, current') < WalkMeasure(nodes, visited, rank, current)
  {
    var x := current.value;
    if x in prev {
      PrevMeasure(g, nodes, start, dist, prev, visited, rank, x);
    }
    if "" !in nodes && end in nodes && dist[end].Fin? {
      TrailStep(g, nodes, start, dist, prev, visited, rank, x, path, end);
    }
  }

  /** What the walk's invariant gives once it stops. */
  lemma WalkExit(g: Adjacency, nodes: set<string>, start: string, dist: map<string, Dist>,
                 prev: map<string, string>, visited: set<string>, rank: map<string, nat>,
                 path: seq<string>, current: Option<string>, end: string)
    requires Chains(g, nodes, start, dist, prev, visited, rank)
    requires WalkInv(g, nodes, start, dist, path, current, end)
    requires !(current.Some? && current.value != "")
    ensures !(end in nodes && dist[end].Fin?) ==> path == if end == "" then [] else [end]
    ensures "" !in nodes && end in nodes && dist[end].Fin? ==>
      IsPath(g, path) && path[0] == start && path[|path| - 1] == end && PathCost(g, path) <= dist[end].n
  {
    if "" !in nodes && end in nodes && dist[end].Fin? {
      assert current.None?;
      assert dist[start] == Fin(0);
    }
  }

  /** `{ route, distance }`: `distance` is `None` for `undefined`, `Some(Inf)` for `Infinity`. */
  datatype ShortestPath = ShortestPath(route: seq<string>, distance: Option<Dist>)

  /** The promised answer for an `end` among the nodes, when no node is the empty id. */
  ghost predicate Answers(adj: Adjacency, start: string, end: string, r: ShortestPath) {
    && r.distance.Some?
    && (r.distance == Some(Inf) <==> !Reachable(adj, start, end))
    && (r.distance == Some(Inf) ==> r.route == [end])
    && (r.distance.value.Fin? ==>
          && IsPath(adj, r.route) && r.route[0] == start && r.route[|r.route| - 1] == end
          && PathCost(adj, r.route) == r.distance.value.n
          && forall q :: IsPath(adj, q) && q[0] == start && q[|q| - 1] == end ==> r.distance.value.n <= PathCost(adj, q))
  }

  /** When every unvisited node is at least as far as `end`, no path from `start` to `end` costs less than its distance. */
  lemma EndLeast(g: Adjacency, nodes: set<string>, start: string, dist: map<string, Dist>, visited: set<string>, end: string)
    requires Closed(g, nodes) && dist.Keys == nodes && visited <= nodes
    requires start in nodes ==> dist[start] == Fin(0)
    requires Relaxed(g, nodes, dist, visited)
    requires end in nodes && end !in visited
    requires forall u :: u in nodes && u !in visited ==> Le(dist[end], dist[u])
    ensures forall q :: IsPath(g, q) && q[0] == start && q[|q| - 1] == end ==> Le(dist[end], Fin(PathCost(g, q)))
  {
    forall q | IsPath(g, q) && q[0] == start && q[|q| - 1] == end ensures Le(dist[end], Fin(PathCost(g, q))) {
      SelectedIsSettled(g, nodes, start, dist, visited, end, q);
    }
  }

  /** When the loop stopped at `end`, the distance of `end` and the reconstructed route give the promised answer. */
  lemma EndSettled(g: Adjacency, nodes: set<string>, start: string, dist: map<string, Dist>,
                   prev: map<string, string>, visited: set<string>, rank: map<string, nat>, end: string, route: seq<string>)
    requires Inv(g, nodes, start, dist, prev, visited, rank)
    requires end in nodes && end !in visited
    requires forall u :: u in nodes && u !in visited ==> Le(dist[end], dist[u])
    requires dist[end].Inf? ==> route == [end]
    requires dist[end].Fin? ==>
      IsPath(g, route) && route[0] == start && route[|route| - 1] == end && PathCost(g, route) <= dist[end].n
    ensures Answers(g, start, end, ShortestPath(route, Some(dist[end])))
  {
    if dist[end].Inf? {
      forall u | u in nodes && u !in visited ensures dist[u].Inf? {
        assert Le(dist[end], dist[u]);
      }
      UnvisitedUnreachable(g, nodes, start, dist, prev, visited, rank, end);
    } else {
      EndLeast(g, nodes, start, dist, visited, end);
    }
    AnswerOf(g, start, end, dist[end], route);
  }

  /** A route and a distance with these properties are the promised answer. */
  lemma AnswerOf(g: Adjacency, start: string, end: string, d: Dist, route: seq<string>)
    requires d.Inf? ==> route == [end] && !Reachable(g, start, end)
    requires d.Fin? ==>
      && IsPath(g, route) && route[0] == start && route[|route| - 1] == end && PathCost(g, route) <= d.n
      && forall q :: IsPath(g, q) && q[0] == start && q[|q| - 1] == end ==> Le(d, Fin(PathCost(g, q)))
    ensures Answers(g, start, end, ShortestPath(route, Some(d)))
  {
    if d.Fin? {
      assert Le(d, Fin(PathCost(g, route)));
    }
  }

  /** The search on a built graph, with the answer stated on its keys and `start`. */
  method SearchGraph(g: Graph, start: string, end: string) returns (r: ShortestPath)
    requires WellFormed(g)
    ensures end !in Nodes(g, start) ==> r == ShortestPath(if end == "" then [] else [end], None)
    ensures end in Nodes(g, start) ==> r.distance.Some?
    ensures "" !in Nodes(g, start) && end in Nodes(g, start) ==> Answers(g.adj, start, end, r)
  {
    ghost var nodes := Nodes(g, start);
    var keys, dist, prev, visited, rank := Settle(g, start, end);
    var route := Reconstruct(g.adj, nodes, start, dist, prev, visited, rank, end);
    r := ShortestPath(route, if end in dist then Some(dist[end]) else None);
    if "" !in nodes && end in nodes {
      EndSettled(g.adj, nodes, start, dist, prev, visited, rank, end, route);
    }
  }

  /**
   * `findShortestPath(edges, start, end)`. The nodes are the endpoints of
   * the edges and `start`. An `end` that is none of them comes back alone
   * (nothing for the empty id) with an undefined distance. Otherwise, when no
   * node is the empty id: the distance is `Infinity` exactly when `end` cannot
   * be reached, with `end` alone as the route; a finite distance is the least
   * cost of any path, and the route is a path from `start` to `end` of that
   * cost.
   */
  method FindShortestPath(edges: seq<Edge>, start: string, end: string) returns (r: ShortestPath)
    ensures end !in Endpoints(edges) + {start} ==> r == ShortestPath(if end == "" then [] else [end], None)
    ensures end in Endpoints(edges) + {start} ==> r.distance.Some?
    ensures "" !in Endpoints(edges) + {start} && end in Endpoints(edges) + {start} ==>
      Answers(NestedOf(edges).adj, start, end, r)
  {
    var g := BuildNested(edges);
    NestedWellFormed(edges);
    assert Nodes(g, start) == Endpoints(edges) + {start};
    r := SearchGraph(g, start, end);
  }
}
