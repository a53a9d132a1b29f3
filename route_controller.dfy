/**
 * The route controller: station-name resolution, the adjacency-list graph
 * built from the edge dataset, an O(V^2) Dijkstra over it with a capped path
 * reconstruction, and the mapping of the resulting ids back to names.
 * The station and edge datasets, read from JSON files by the controller,
 * are parameters here.
 */
module RouteController {
  import opened Wrappers
  import opened JsObjects
  import opened Graphs
  import opened Search

  /** A record of the station dataset. */
  datatype Station = Station(stationId: string, name: string)

  // ---------------------------------------------------------------------
  // Name resolution
  // ---------------------------------------------------------------------

  /** `toLowerCase` on one character (ASCII letters only). */
  function LowerChar(c: char): char {
    if 'A' <= c <= 'Z' then (c as int + 32) as char else c
  }

  function Lower(s: string): (r: string)
    ensures |r| == |s| && forall i :: 0 <= i < |s| ==> r[i] == LowerChar(s[i])
  {
    if s == [] then [] else [LowerChar(s[0])] + Lower(s[1..])
  }

  /** Lowering twice is lowering once, so a lowered query matches the same names. */
  lemma LowerIdempotent(s: string)
    ensures Lower(Lower(s)) == Lower(s)
  {
    assert forall i :: 0 <= i < |s| ==> LowerChar(LowerChar(s[i])) == LowerChar(s[i]);
  }

  /** A station whose name equals `query` ignoring case. */
  predicate NameMatches(s: Station, query: string) {
    Lower(s.name) == Lower(query)
  }

  /** `stations.find(...)`: the first station whose name matches `query` ignoring case. */
  function FindByName(stations: seq<Station>, query: string): (r: Option<Station>)
    ensures r.Some? ==> r.value in stations && NameMatches(r.value, query)
  {
    if stations == [] then None
    else if NameMatches(stations[0], query) then Some(stations[0])
    else FindByName(stations[1..], query)
  }

  /** Nothing is found exactly when no station's name matches. */
  lemma {:induction false} FindByNameNone(stations: seq<Station>, query: string)
    ensures FindByName(stations, query).None? <==> forall i :: 0 <= i < |stations| ==> !NameMatches(stations[i], query)
  {
    if stations != [] {
      FindByNameNone(stations[1..], query);
      assert forall i :: 0 < i < |stations| ==> stations[i] == stations[1..][i - 1];
    }
  }

  /** The station found is the first match: every earlier station has another name. */
  lemma {:induction false} FindByNameFirst(stations: seq<Station>, query: string)
    ensures FindByName(stations, query).Some? ==>
      exists i :: 0 <= i < |stations| && stations[i] == FindByName(stations, query).value
                  && forall j :: 0 <= j < i ==> !NameMatches(stations[j], query)
  {
    if stations != [] && !NameMatches(stations[0], query) {
      FindByNameFirst(stations[1..], query);
      if FindByName(stations, query).Some? {
        var i :| 0 <= i < |stations[1..]| && stations[1..][i] == FindByName(stations[1..], query).value
                 && forall j :: 0 <= j < i ==> !NameMatches(stations[1..][j], query);
        assert stations[i + 1] == FindByName(stations, query).value;
        assert forall j :: 0 <= j < i + 1 ==> !NameMatches(stations[j], query) by {
          forall j | 0 < j < i + 1 ensures !NameMatches(stations[j], query) {
            assert stations[j] == stations[1..][j - 1];
          }
        }
      }
    } else if stations != [] {
      assert stations[0] == FindByName(stations, query).value;
    }
  }

  /** The display name of `id`: the first station with that id, or the id itself. */
  function NameOf(stations: seq<Station>, id: string): (r: string)
    ensures (forall i :: 0 <= i < |stations| ==> stations[i].stationId != id) ==> r == id
  {
    if stations == [] then id
    else if stations[0].stationId == id then stations[0].name
    else
      var r := NameOf(stations[1..], id);
      assert forall i :: 0 < i < |stations| ==> stations[i] == stations[1..][i - 1];
      r
  }

  /** When some station has the id, the display name is that of the first such station. */
  lemma {:induction false} NameOfFirst(stations: seq<Station>, id: string, i: nat)
    requires i < |stations| && stations[i].stationId == id
    ensures exists k :: 0 <= k <= i && stations[k].stationId == id && NameOf(stations, id) == stations[k].name
                        && forall j :: 0 <= j < k ==> stations[j].stationId != id
  {
    if stations[0].stationId != id {
      NameOfFirst(stations[1..], id, i - 1);
      var k :| 0 <= k <= i - 1 && stations[1..][k].stationId == id && NameOf(stations[1..], id) == stations[1..][k].name
               && forall j :: 0 <= j < k ==> stations[1..][j].stationId != id;
      assert stations[k + 1] == stations[1..][k];
      forall j | 0 < j < k + 1 ensures stations[j].stationId != id {
        assert stations[j] == stations[1..][j - 1];
      }
    }
  }

  /** `result.path.map(...)`: every id replaced by its display name. */
  function PathNames(stations: seq<Station>, path: seq<string>): (r: seq<string>)
    ensures |r| == |path|
    ensures forall i :: 0 <= i < |path| ==> r[i] == NameOf(stations, path[i])
  {
    seq(|path|, i requires 0 <= i < |path| => NameOf(stations, path[i]))
  }

  // ---------------------------------------------------------------------
  // Graph construction
  // ---------------------------------------------------------------------

  /** The entries the edges contribute to `u`'s list, in edge order: `to` for a `from` end, `from` for a `to` end. */
  function Incident(edges: seq<Edge>, u: string): seq<Neighbor>
    decreases |edges|
  {
    if edges == [] then []
    else
      var e := edges[|edges| - 1];
      Incident(edges[..|edges| - 1], u)
        + (if e.from == u then [Neighbor(e.to, e.distance)] else [])
        + (if e.to == u then [Neighbor(e.from, e.distance)] else [])
  }

  /** The graph that the edge loop builds. */
  function GraphOf(edges: seq<Edge>): Graph {
    Graph(KeyOrder(edges), map u | u in Endpoints(edges) :: Incident(edges, u))
  }

  /** `adj` holds, for every endpoint of `edges` and nothing else, the entries `edges` contribute. */
  ghost predicate HoldsIncident(adj: Adjacency, edges: seq<Edge>) {
    adj.Keys == Endpoints(edges) && forall u :: u in adj ==> adj[u] == Incident(edges, u)
  }

  /** Builds the graph: for each edge both endpoints become keys and each gets an entry for the other. */
  method BuildGraph(edges: seq<Edge>) returns (g: Graph)
    ensures g == GraphOf(edges)
  {
    var keys: seq<string> := [];
    var adj: Adjacency := map[];
    var i := 0;
    ghost var done: seq<Edge> := [];
    while i < |edges|
      invariant 0 <= i <= |edges| && done == edges[..i]
      invariant keys == KeyOrder(done)
      invariant HoldsIncident(adj, done)
    {
      var e := edges[i];
      ghost var adj0, keys0 := adj, keys;
      if e.from !in adj {
        adj := adj[e.from := []];
        keys := keys + [e.from];
      }
      ghost var adj1, keys1 := adj, keys;
      if e.to !in adj {
        adj := adj[e.to := []];
        keys := keys + [e.to];
      }
      ghost var adj2 := adj;
      adj := adj[e.from := adj[e.from] + [Neighbor(e.to, e.distance)]];
      ghost var adj3 := adj;
      adj := adj[e.to := adj[e.to] + [Neighbor(e.from, e.distance)]];
      AddEdgeStep(done, e, adj0, adj1, adj2, adj3, adj, keys0, keys1, keys);
      PrefixSnoc(edges, i);
      done := done + [e];
      i := i + 1;
    }
    assert edges[..|edges|] == edges;
    HoldsIncidentGraph(adj, edges);
    g := Graph(keys, adj);
  }

  lemma HoldsIncidentGraph(adj: Adjacency, edges: seq<Edge>)
    requires HoldsIncident(adj, edges)
    ensures adj == GraphOf(edges).adj
  {
  }

  /** Adding edge `e` as the loop body does extends both loop invariants to `edges + [e]`. */
  lemma AddEdgeStep(edges: seq<Edge>, e: Edge, adj0: Adjacency, adj1: Adjacency, adj2: Adjacency, adj3: Adjacency, adj: Adjacency,
                    keys0: seq<string>, keys1: seq<string>, keys: seq<string>)
    requires HoldsIncident(adj0, edges) && keys0 == KeyOrder(edges)
    requires adj1 == if e.from in adj0 then adj0 else adj0[e.from := []]
    requires keys1 == if e.from in adj0 then keys0 else keys0 + [e.from]
    requires adj2 == if e.to in adj1 then adj1 else adj1[e.to := []]
    requires keys == if e.to in adj1 then keys1 else keys1 + [e.to]
    requires adj3 == adj2[e.from := adj2[e.from] + [Neighbor(e.to, e.distance)]]
    requires adj == adj3[e.to := adj3[e.to] + [Neighbor(e.from, e.distance)]]
    ensures HoldsIncident(adj, edges + [e])
    ensures keys == KeyOrder(edges + [e])
  {
    KeyOrderEndpoints(edges);
    assert e.from in adj0 <==> e.from in keys0;
    assert e.to in adj1 <==> e.to in keys1;
    KeyOrderSnoc(edges, e);
    AdjStep(edges, e, adj0, adj1, adj2, adj3, adj);
  }

  lemma KeyOrderSnoc(edges: seq<Edge>, e: Edge)
    ensures KeyOrder(edges + [e]) == AddKey(AddKey(KeyOrder(edges), e.from), e.to)
  {
    var es := edges + [e];
    assert es[..|es| - 1] == edges;
  }

  /** The adjacency half of `AddEdgeStep`, for the edge list extended by `e`. */
  lemma AdjStep(edges: seq<Edge>, e: Edge, adj0: Adjacency, adj1: Adjacency, adj2: Adjacency, adj3: Adjacency, adj: Adjacency)
    requires HoldsIncident(adj0, edges)
    requires adj1 == if e.from in adj0 then adj0 else adj0[e.from := []]
    requires adj2 == if e.to in adj1 then adj1 else adj1[e.to := []]
    requires adj3 == adj2[e.from := adj2[e.from] + [Neighbor(e.to, e.distance)]]
    requires adj == adj3[e.to := adj3[e.to] + [Neighbor(e.from, e.distance)]]
    ensures HoldsIncident(adj, edges + [e])
  {
    var es := edges + [e];
    assert es[..|es| - 1] == edges;
    assert Endpoints(es) == Endpoints(edges) + {e.from, e.to};
    forall u | u in adj ensures adj[u] == Incident(es, u) {
      IncidentSnoc(edges, e, u);
      var base := if u in adj0 then adj0[u] else [];
      if u !in Endpoints(edges) {
        IncidentOfNonEndpoint(edges, u);
      }
      assert base == Incident(edges, u);
      assert u in adj2 ==> adj2[u] == base;
      if u == e.from && u == e.to {
        assert adj[u] == base + [Neighbor(e.to, e.distance)] + [Neighbor(e.from, e.distance)];
      } else if u == e.from {
        assert adj[u] == base + [Neighbor(e.to, e.distance)];
      } else if u == e.to {
        assert adj[u] == base + [Neighbor(e.from, e.distance)];
      } else {
        assert adj[u] == base;
      }
    }
  }

  lemma IncidentSnoc(edges: seq<Edge>, e: Edge, u: string)
    ensures Incident(edges + [e], u) == Incident(edges, u)
        + (if e.from == u then [Neighbor(e.to, e.distance)] else [])
        + (if e.to == u then [Neighbor(e.from, e.distance)] else [])
  {
    var es := edges + [e];
    assert es[..|es| - 1] == edges;
  }

  /** An id that is no endpoint gets no entries. */
  lemma {:induction false} IncidentOfNonEndpoint(edges: seq<Edge>, u: string)
    requires u !in Endpoints(edges)
    ensures Incident(edges, u) == []
    decreases |edges|
  {
    if edges != [] {
      IncidentOfNonEndpoint(edges[..|edges| - 1], u);
    }
  }

  /**
   * The list of `u` holds `Neighbor(v, w)` once for every edge from `u` to `v`
   * and once for every edge from `v` to `u` of weight `w`: parallel edges are
   * all kept, and a self-loop gives two entries.
   */
  lemma {:induction false} IncidentCount(edges: seq<Edge>, u: string, v: string, w: nat)
    ensures multiset(Incident(edges, u))[Neighbor(v, w)] == multiset(edges)[Edge(u, v, w)] + multiset(edges)[Edge(v, u, w)]
    decreases |edges|
  {
    if edges != [] {
      var es, e := edges[..|edges| - 1], edges[|edges| - 1];
      assert edges == es + [e];
      IncidentCount(es, u, v, w);
      IncidentCountStep(es, e, u, v, w);
    }
  }

  lemma IncidentCountStep(es: seq<Edge>, e: Edge, u: string, v: string, w: nat)
    ensures multiset(Incident(es + [e], u))[Neighbor(v, w)] ==
              multiset(Incident(es, u))[Neighbor(v, w)] + (if e == Edge(u, v, w) then 1 else 0) + (if e == Edge(v, u, w) then 1 else 0)
    ensures multiset(es + [e])[Edge(u, v, w)] == multiset(es)[Edge(u, v, w)] + (if e == Edge(u, v, w) then 1 else 0)
    ensures multiset(es + [e])[Edge(v, u, w)] == multiset(es)[Edge(v, u, w)] + (if e == Edge(v, u, w) then 1 else 0)
  {
    IncidentSnoc(es, e, u);
    var a := if e.from == u then [Neighbor(e.to, e.distance)] else [];
    var b := if e.to == u then [Neighbor(e.from, e.distance)] else [];
    assert multiset(Incident(es + [e], u)) == multiset(Incident(es, u)) + multiset(a) + multiset(b);
    assert multiset(es + [e]) == multiset(es) + multiset{e};
    assert multiset(a)[Neighbor(v, w)] == if e == Edge(u, v, w) then 1 else 0;
    assert multiset(b)[Neighbor(v, w)] == if e == Edge(v, u, w) then 1 else 0;
  }

  /** The graph is symmetric: `u` lists `v` with weight `w` exactly as often as `v` lists `u` with weight `w`. */
  lemma GraphSymmetric(edges: seq<Edge>, u: string, v: string, w: nat)
    requires u in GraphOf(edges).adj && v in GraphOf(edges).adj
    ensures multiset(GraphOf(edges).adj[u])[Neighbor(v, w)] == multiset(GraphOf(edges).adj[v])[Neighbor(u, w)]
  {
    IncidentCount(edges, u, v, w);
    IncidentCount(edges, v, u, w);
  }

  /** Every entry of a list names an endpoint. */
  lemma {:induction false} IncidentClosed(edges: seq<Edge>, u: string)
    ensures forall i :: 0 <= i < |Incident(edges, u)| ==> Incident(edges, u)[i].node in Endpoints(edges)
    decreases |edges|
  {
    if edges != [] {
      IncidentClosed(edges[..|edges| - 1], u);
    }
  }

  /** The keys are exactly the endpoints, each once, and the graph is well formed. */
  lemma GraphOfWellFormed(edges: seq<Edge>)
    ensures WellFormed(GraphOf(edges))
    ensures forall k :: k in GraphOf(edges).keys <==> k in Endpoints(edges)
    ensures GraphOf(edges).adj.Keys == Endpoints(edges)
  {
    KeyOrderEndpoints(edges);
    forall u | u in Endpoints(edges)
      ensures forall i :: 0 <= i < |Incident(edges, u)| ==> Incident(edges, u)[i].node in Endpoints(edges)
    {
      IncidentClosed(edges, u);
    }
  }

  // ---------------------------------------------------------------------
  // Dijkstra
  // ---------------------------------------------------------------------

  /** `dijkstra`'s result: `null`, or a path with `distances[end]` (`undefined` when `end` is no key). */
  datatype SearchResult = NoRoute | Route(path: seq<string>, distance: Option<nat>)

  /**
   * The inner scan: over the keys in order, keep the unvisited node whose
   * distance is strictly below the best so far. The result is the first
   * key of least finite distance, or nothing when every unvisited key is at
   * `Infinity`.
   */
  method ScanMin(keys: seq<string>, dist: map<string, Dist>, visited: set<string>) returns (current: Option<string>)
    requires forall k :: k in keys ==> k in dist
    ensures current.None? <==> forall k :: k in keys && k !in visited ==> dist[k].Inf?
    ensures current.Some? ==> current.value in keys && current.value !in visited && dist[current.value].Fin?
    ensures current.Some? ==> forall k :: k in keys && k !in visited ==> Le(dist[current.value], dist[k])
    ensures current.Some? ==> forall j :: 0 <= j < |keys| && keys[j] !in visited && Le(dist[keys[j]], dist[current.value])
                                ==> current.value in keys[..j + 1]
  {
    current := None;
    var minDist := Inf;
    var i := 0;
    while i < |keys|
      invariant 0 <= i <= |keys|
      invariant current.None? ==> minDist.Inf?
      invariant current.Some? ==> current.value in keys[..i] && current.value !in visited && dist[current.value] == minDist && minDist.Fin?
      invariant forall j :: 0 <= j < i && keys[j] !in visited ==> Le(minDist, dist[keys[j]])
      invariant current.Some? ==> forall j :: 0 <= j < i && keys[j] !in visited && Le(dist[keys[j]], minDist) ==> current.value in keys[..j + 1]
    {
      var node := keys[i];
      if node !in visited && Lt(dist[node], minDist) {
        current := Some(node);
        minDist := dist[node];
      }
      assert keys[..i + 1][..i] == keys[..i];
      i := i + 1;
    }
    assert keys[..|keys|] == keys;
  }

  /** `distances[node] = node === start ? 0 : Infinity` for every key. */
  method InitDistances(keys: seq<string>, start: string) returns (dist: map<string, Dist>)
    ensures dist.Keys == set k | k in keys
    ensures forall k :: k in dist ==> dist[k] == if k == start then Fin(0) else Inf
  {
    dist := map[];
    var i := 0;
    while i < |keys|
      invariant 0 <= i <= |keys|
      invariant dist.Keys == set k | k in keys[..i]
      invariant forall k :: k in dist ==> dist[k] == if k == start then Fin(0) else Inf
    {
      dist := dist[keys[i] := if keys[i] == start then Fin(0) else Inf];
      assert keys[..i + 1] == keys[..i] + [keys[i]];
      i := i + 1;
    }
    assert keys[..|keys|] == keys;
  }

  /**
   * What path reconstruction knows about the node `x` it is about to put in
   * front of `path`: `x` then `path` is a path to `end`, `x` has a finite
   * distance that together with the path's cost stays within `end`'s, and
   * `x`'s visit rank leaves room for the steps already taken.
   */
  ghost predicate ReconAt(g: Adjacency, dist: map<string, Dist>, visited: set<string>, rank: map<string, nat>,
                          x: string, path: seq<string>, end: string, steps: nat)
    requires rank.Keys == visited && end in dist && dist[end].Fin?
  {
    && IsPath(g, [x] + path) && ([x] + path)[|path|] == end
    && x in visited && x in dist && dist[x].Fin?
    && dist[x].n + PathCost(g, [x] + path) <= dist[end].n
    && rank[x] + steps < |visited|
  }

  /** One step of reconstruction: the predecessor of `x`, if any, satisfies `ReconAt` for the longer path; otherwise `x` is `start`. */
  lemma ReconStep(g: Adjacency, nodes: set<string>, start: string, dist: map<string, Dist>,
                  prev: map<string, string>, visited: set<string>, rank: map<string, nat>,
                  x: string, path: seq<string>, end: string, steps: nat)
    requires Chains(g, nodes, start, dist, prev, visited, rank)
    requires end in visited && dist[end].Fin?
    requires ReconAt(g, dist, visited, rank, x, path, end, steps)
    ensures x in prev ==> ReconAt(g, dist, visited, rank, prev[x], [x] + path, end, steps + 1)
    ensures x !in prev ==> x == start
    ensures var p := [x] + path;
      (IsPath(g, p) && p[|p| - 1] == end && p[0] in dist && dist[p[0]].Fin? && dist[p[0]].n + PathCost(g, p) <= dist[end].n)
  {
    if x in prev {
      ChainStep(g, nodes, start, dist, prev, visited, rank, [x] + path, end);
      PrevMeasure(g, nodes, start, dist, prev, visited, rank, x);
      assert ([prev[x]] + ([x] + path))[|[x] + path|] == end;
    }
  }

  /**
   * Path reconstruction: from `end`, put each node in front and move to its
   * predecessor, until there is none or 100 nodes have been collected. The
   * result is a path ending at `end`; it starts at `start` unless the cap cut
   * it, its cost is then within `end`'s distance, and the cap never cuts when
   * there are at most 100 nodes.
   */
  method ReconstructCapped(ghost g: Adjacency, ghost nodes: set<string>, start: string, dist: map<string, Dist>,
                           prev: map<string, string>, ghost visited: set<string>, ghost rank: map<string, nat>, end: string)
    returns (path: seq<string>)
    requires Chains(g, nodes, start, dist, prev, visited, rank)
    requires end in visited && dist[end].Fin?
    ensures 1 <= |path| <= MaxSteps && path[|path| - 1] == end && IsPath(g, path)
    ensures path[0] == start || |path| == MaxSteps
    ensures path[0] == start ==> PathCost(g, path) <= dist[end].n
    ensures |nodes| <= MaxSteps ==> path[0] == start
  {
    path := [];
    var node: Option<string> := Some(end);
    var steps := 0;
    assert [end] + path == [end];
    while node.Some? && steps < MaxSteps
      invariant ReconInv(g, start, dist, visited, rank, path, node, end, steps)
      decreases MaxSteps - steps
    {
      var x := node.value;
      var path', node' := [x] + path, if x in prev then Some(prev[x]) else None;
      ReconAdvance(g, nodes, start, dist, prev, visited, rank, path, node, end, steps, path', node');
      path, node, steps := path', node', steps + 1;
    }
    ReconExit(g, nodes, start, dist, prev, visited, rank, path, node, end, steps);
  }

  /** The invariant of the reconstruction loop. */
  ghost predicate ReconInv(g: Adjacency, start: string, dist: map<string, Dist>, visited: set<string>, rank: map<string, nat>,
                           path: seq<string>, node: Option<string>, end: string, steps: nat)
    requires rank.Keys == visited && end in dist && dist[end].Fin?
  {
    && 0 <= steps == |path| <= MaxSteps
    && (node.Some? ==> ReconAt(g, dist, visited, rank, node.value, path, end, steps))
    && (path != [] ==> IsPath(g, path) && path[|path| - 1] == end)
    && (path != [] ==> path[0] in dist && dist[path[0]].Fin? && dist[path[0]].n + PathCost(g, path) <= dist[end].n)
    && (node.None? ==> path != [] && path[0] == start)
  }

  /** One turn of the reconstruction loop keeps its invariant. */
  lemma ReconAdvance(g: Adjacency, nodes: set<string>, start: string, dist: map<string, Dist>,
                     prev: map<string, string>, visited: set<string>, rank: map<string, nat>,
                     path: seq<string>, node: Option<string>, end: string, steps: nat,
                     path': seq<string>, node': Option<string>)
    requires Chains(g, nodes, start, dist, prev, visited, rank)
    requires end in visited && dist[end].Fin?
    requires ReconInv(g, start, dist, visited, rank, path, node, end, steps)
    requires node.Some? && steps < MaxSteps
    requires path' == [node.value] + path
    requires node' == if node.value in prev then Some(prev[node.value]) else None
    ensures ReconInv(g, start, dist, visited, rank, path', node', end, steps + 1)
  {
    ReconStep(g, nodes, start, dist, prev, visited, rank, node.value, path, end, steps);
  }

  /** What the reconstruction loop's invariant gives once the loop stops. */
  lemma ReconExit(g: Adjacency, nodes: set<string>, start: string, dist: map<string, Dist>,
                  prev: map<string, string>, visited: set<string>, rank: map<string, nat>,
                  path: seq<string>, node: Option<string>, end: string, steps: nat)
    requires Chains(g, nodes, start, dist, prev, visited, rank)
    requires end in visited && dist[end].Fin?
    requires !(node.Some? && steps < MaxSteps)
    requires ReconInv(g, start, dist, visited, rank, path, node, end, steps)
    ensures 1 <= |path| <= MaxSteps && path[|path| - 1] == end && IsPath(g, path)
    ensures path[0] == start || |path| == MaxSteps
    ensures path[0] == start ==> PathCost(g, path) <= dist[end].n
    ensures |nodes| <= MaxSteps ==> path[0] == start
  {
    if path[0] == start {
      assert dist[start] == Fin(0);
    }
    if node.Some? && |nodes| <= MaxSteps {
      SubsetCard(visited, nodes);
    }
  }

  /** The reconstruction cap (`steps < 100`). */
  const MaxSteps := 100

  /**
   * The main loop of `dijkstra`: distances start at 0 for `start` and
   * `Infinity` elsewhere, and the nearest unvisited key is visited and
   * relaxed until every key is visited or only `Infinity` is left. On exit
   * the search invariant holds, the visited keys are exactly those at a
   * finite distance, and so each visited key carries its least path cost.
   */
  method Explore(g: Graph, start: string)
    returns (dist: map<string, Dist>, prev: map<string, string>, visited: set<string>, ghost rank: map<string, nat>)
    requires WellFormed(g)
    ensures Inv(g.adj, g.adj.Keys, start, dist, prev, visited, rank)
    ensures forall u :: u in g.adj ==> (u in visited <==> dist[u].Fin?)
  {
    var nodes := g.adj.Keys;
    assert nodes == set k | k in g.keys;
    dist := InitDistances(g.keys, start);
    prev := map[];
    visited := {};
    rank := map[];
    InitialInv(g.adj, nodes, start, dist);
    DistinctCard(g.keys);
    while |visited| < |g.keys|
      invariant Inv(g.adj, nodes, start, dist, prev, visited, rank)
      invariant forall v :: v in visited ==> dist[v].Fin?
      decreases |g.keys| - |visited|
    {
      var current := ScanMin(g.keys, dist, visited);
      if current.None? {
        break;
      }
      var c := current.value;
      var dist2, prev2 := Relax(Nbrs(g.adj, c), c, dist, prev);
      VisitStep(g.adj, nodes, start, dist, prev, visited, rank, c, dist2, prev2);
      dist, prev, visited, rank := dist2, prev2, visited + {c}, rank[c := |visited|];
    }
    if |visited| >= |g.keys| {
      SubsetFull(visited, nodes);
    }
  }

  /**
   * `dijkstra(graph, start, end)`: the result is `null` exactly when `end` is
   * a key that `start` cannot reach; when `end` is reachable the returned
   * distance is the least cost of any path and the path is a cheapest one
   * (cut to its last 100 nodes when longer); when `end` is no key the path is
   * `[end]` and the distance `undefined`.
   */
  method Dijkstra(g: Graph, start: string, end: string) returns (r: SearchResult)
    requires WellFormed(g)
    ensures r.NoRoute? <==> end in g.adj && !Reachable(g.adj, start, end)
    ensures end !in g.adj ==> r == Route([end], None)
    ensures r.Route? ==> 1 <= |r.path| && r.path[|r.path| - 1] == end
    ensures r.Route? && end in g.adj ==>
      && r.distance.Some?
      && 1 <= |r.path| <= MaxSteps && r.path[|r.path| - 1] == end && IsPath(g.adj, r.path)
      && (r.path[0] == start ==> PathCost(g.adj, r.path) == r.distance.value)
      && (r.path[0] == start || |r.path| == MaxSteps)
      && (|g.keys| <= MaxSteps ==> r.path[0] == start)
      && (exists q :: IsPath(g.adj, q) && q[0] == start && q[|q| - 1] == end && PathCost(g.adj, q) == r.distance.value)
      && forall q :: IsPath(g.adj, q) && q[0] == start && q[|q| - 1] == end ==> r.distance.value <= PathCost(g.adj, q)
  {
    var dist, prev, visited, rank := Explore(g, start);
    ghost var nodes := g.adj.Keys;
    if end in dist && dist[end].Inf? {
      UnvisitedUnreachable(g.adj, nodes, start, dist, prev, visited, rank, end);
      return NoRoute;
    }
    if end !in dist {
      return Route([end], None);
    }
    VisitedOptimal(g.adj, nodes, start, dist, prev, visited, rank, end);
    var path := ReconstructCapped(g.adj, nodes, start, dist, prev, visited, rank, end);
    assert |nodes| == |g.keys| by { DistinctCard(g.keys); assert nodes == set k | k in g.keys; }
    return Route(path, Some(dist[end].n));
  }

  // ---------------------------------------------------------------------
  // The request handler
  // ---------------------------------------------------------------------

  /** What `getShortestRoute` sends. */
  datatype RouteResponse =
    | MissingStations                  // 400: `from` or `to` missing
    | StationsNotFound                 // 404: a name matches no station
    | ServerError                      // 500: `result.path` read on a `null` result
    | Found(from: string, to: string, path: seq<string>, distance: Option<nat>)

  /**
   * The response owed once both stations are found, with `s` and `t` their
   * ids: 500 exactly when `t` is a node that `s` cannot reach; otherwise
   * both names, and
   *  - when `t` is no node, the path `[name of t]` and no distance;
   *  - when `t` is a node, the least cost of any path from `s` to `t`, which
   *    some path attains, and the names along the path the search rebuilt:
   *    a path of the graph ending at `t`, of at most 100 nodes, that starts
   *    at `s` and costs the distance unless the cap cut it, and that is
   *    never cut when the graph has at most 100 nodes.
   */
  ghost predicate Routed(fromStation: Station, toStation: Station, stations: seq<Station>, edges: seq<Edge>,
                         resp: RouteResponse)
  {
    var adj, s, t := GraphOf(edges).adj, fromStation.stationId, toStation.stationId;
    && (resp.ServerError? || resp.Found?)
    && (resp.ServerError? <==> t in Endpoints(edges) && !Reachable(adj, s, t))
    && (resp.Found? ==> resp.from == fromStation.name && resp.to == toStation.name)
    && (resp.Found? && t !in Endpoints(edges) ==> resp.path == [NameOf(stations, t)] && resp.distance.None?)
    && (resp.Found? && t in Endpoints(edges) ==>
          && resp.distance.Some?
          && (exists q :: IsPath(adj, q) && q[0] == s && q[|q| - 1] == t && PathCost(adj, q) == resp.distance.value)
          && (forall q :: IsPath(adj, q) && q[0] == s && q[|q| - 1] == t ==> resp.distance.value <= PathCost(adj, q))
          && exists p :: RebuiltPath(adj, s, t, p, resp.distance.value, |Endpoints(edges)|) && resp.path == PathNames(stations, p))
  }

  /** What the capped reconstruction promises of the ids it returns. */
  ghost predicate RebuiltPath(adj: Adjacency, s: string, t: string, p: seq<string>, d: nat, n: nat) {
    && 1 <= |p| <= MaxSteps && IsPath(adj, p) && p[|p| - 1] == t
    && (p[0] == s || |p| == MaxSteps)
    && (p[0] == s ==> PathCost(adj, p) == d)
    && (n <= MaxSteps ==> p[0] == s)
  }

  /**
   * `getShortestRoute` on the request fields `from`/`to` and the two
   * datasets. `from.toLowerCase()` on a truthy field that is no string
   * throws inside the first call of the `find` callback, so the handler
   * answers 500 unless there is no station to call it on. An unreachable
   * destination makes the handler dereference `null` before its "No route
   * found" check, so it answers 500 too, and the 404 "no route" response is
   * never sent.
   */
  method GetShortestRoute(from: Field, to: Field, stations: seq<Station>, edges: seq<Edge>)
    returns (resp: RouteResponse)
    ensures resp.MissingStations? <==> !Truthy(from) || !Truthy(to)
    ensures Truthy(from) && Truthy(to) && !(from.Text? && to.Text?) ==>
      resp == if stations == [] then StationsNotFound else ServerError
    ensures Truthy(from) && Truthy(to) && from.Text? && to.Text? ==>
      var fs, ts := FindByName(stations, from.s), FindByName(stations, to.s);
      && (resp.StationsNotFound? <==> fs.None? || ts.None?)
      && (fs.Some? && ts.Some? ==> Routed(fs.value, ts.value, stations, edges, resp))
  {
    if !Truthy(from) || !Truthy(to) {
      return MissingStations;
    }
    if !from.Text? || !to.Text? {
      if stations == [] {
        return StationsNotFound;
      }
      return ServerError;
    }
    var fromStation := FindByName(stations, from.s);
    var toStation := FindByName(stations, to.s);
    if fromStation.None? || toStation.None? {
      return StationsNotFound;
    }
    resp := RouteBetween(fromStation.value, toStation.value, stations, edges);
  }

  /** The handler once both stations are resolved: build the graph, search it and rename the path. */
  method RouteBetween(fromStation: Station, toStation: Station, stations: seq<Station>, edges: seq<Edge>)
    returns (resp: RouteResponse)
    ensures Routed(fromStation, toStation, stations, edges, resp)
  {
    var graph := BuildGraph(edges);
    GraphOfWellFormed(edges);
    ghost var s, t := fromStation.stationId, toStation.stationId;
    assert t in graph.adj <==> t in Endpoints(edges);
    var result := Dijkstra(graph, fromStation.stationId, toStation.stationId);
    if result.NoRoute? {
      return ServerError;
    }
    var names := PathNames(stations, result.path);
    resp := Found(fromStation.name, toStation.name, names, result.distance);
    if t in Endpoints(edges) {
      KeyCount(graph, edges);
      assert RebuiltPath(graph.adj, s, t, result.path, resp.distance.value, |Endpoints(edges)|);
    }
  }

  /** The built graph lists as many keys as the edges have endpoints. */
  lemma KeyCount(graph: Graph, edges: seq<Edge>)
    requires graph == GraphOf(edges)
    ensures |graph.keys| == |Endpoints(edges)|
  {
    GraphOfWellFormed(edges);
    DistinctCard(graph.keys);
    assert (set k | k in graph.keys) == Endpoints(edges);
  }
}
