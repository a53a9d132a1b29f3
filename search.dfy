/**
 * The part of Dijkstra's algorithm both routers share: relaxing the edges out
 * of the node just selected, and the invariant that the main loop keeps.
 *
 * The state is the router's `distances` (dist), `previous` (prev) and the
 * visited set; `rank` is a ghost record of the order in which nodes were
 * visited, and `nodes` is the set of keys of `distances`.
 */
module Search {
  import opened Wrappers
  import opened Graphs

  /** The key sets of the tables fit together. */
  ghost predicate Frame(nodes: set<string>, dist: map<string, Dist>, prev: map<string, string>,
                        visited: set<string>, rank: map<string, nat>)
  {
    dist.Keys == nodes && prev.Keys <= nodes && visited <= nodes && rank.Keys == visited
  }

  /** When `start` has a distance it is 0 and it has no predecessor. */
  ghost predicate StartFacts(nodes: set<string>, start: string, dist: map<string, Dist>, prev: map<string, string>)
    requires dist.Keys == nodes
  {
    start in nodes ==> dist[start] == Fin(0) && start !in prev
  }

  /** Every visited node is at least as close as every unvisited one. */
  ghost predicate VisitedFirst(nodes: set<string>, dist: map<string, Dist>, visited: set<string>)
    requires dist.Keys == nodes && visited <= nodes
  {
    forall v, u :: v in visited && u in nodes && u !in visited ==> Le(dist[v], dist[u])
  }

  /** Every edge out of a visited node has been relaxed. */
  ghost predicate Relaxed(g: Adjacency, nodes: set<string>, dist: map<string, Dist>, visited: set<string>)
    requires dist.Keys == nodes && visited <= nodes
  {
    forall v, n :: v in visited && n in nodes && Adjacent(g, v, n) ==> Le(dist[n], Plus(dist[v], Weight(g, v, n)))
  }

  /** The distance of a visited node is a lower bound on every path to it from `start`. */
  ghost predicate Settled(g: Adjacency, nodes: set<string>, start: string, dist: map<string, Dist>, visited: set<string>)
    requires dist.Keys == nodes && visited <= nodes
  {
    forall v, p :: v in visited && IsPath(g, p) && p[0] == start && p[|p| - 1] == v ==> Le(dist[v], Fin(PathCost(g, p)))
  }

  /** Each predecessor is visited, adjacent, and accounts for the distance of its node. */
  ghost predicate Predecessors(g: Adjacency, nodes: set<string>, dist: map<string, Dist>, prev: map<string, string>,
                               visited: set<string>)
    requires dist.Keys == nodes && prev.Keys <= nodes && visited <= nodes
  {
    forall n :: n in prev ==>
      && prev[n] in visited
      && Adjacent(g, prev[n], n)
      && dist[n].Fin? && dist[prev[n]].Fin?
      && dist[prev[n]].n + Weight(g, prev[n], n) <= dist[n].n
  }

  /** Every finite distance other than the start's comes with a predecessor. */
  ghost predicate Witnessed(nodes: set<string>, start: string, dist: map<string, Dist>, prev: map<string, string>)
    requires dist.Keys == nodes
  {
    forall n :: n in nodes && dist[n].Fin? ==> n == start || n in prev
  }

  /** Visit ranks are below the number of visited nodes and fall along predecessor links. */
  ghost predicate Ranked(prev: map<string, string>, visited: set<string>, rank: map<string, nat>)
    requires rank.Keys == visited
  {
    && (forall v :: v in visited ==> rank[v] < |visited|)
    && (forall n :: n in prev && n in visited && prev[n] in visited ==> rank[prev[n]] < rank[n])
  }

  /** The part of the invariant that predecessor chains rely on. */
  ghost predicate Chains(g: Adjacency, nodes: set<string>, start: string, dist: map<string, Dist>,
                         prev: map<string, string>, visited: set<string>, rank: map<string, nat>)
  {
    && Frame(nodes, dist, prev, visited, rank)
    && StartFacts(nodes, start, dist, prev)
    && Predecessors(g, nodes, dist, prev, visited)
    && Witnessed(nodes, start, dist, prev)
    && Ranked(prev, visited, rank)
  }

  /** The main-loop invariant of Dijkstra's algorithm. */
  ghost predicate Inv(g: Adjacency, nodes: set<string>, start: string, dist: map<string, Dist>,
                      prev: map<string, string>, visited: set<string>, rank: map<string, nat>)
  {
    && Closed(g, nodes)
    && Frame(nodes, dist, prev, visited, rank)
    && VisitedFirst(nodes, dist, visited)
    && Relaxed(g, nodes, dist, visited)
    && Settled(g, nodes, start, dist, visited)
    && Chains(g, nodes, start, dist, prev, visited, rank)
  }

  /**
   * `dist2`/`prev2` are what relaxing the entries `ns` of node `c` makes of
   * `dist`/`prev`: a node's distance drops to `dist[c]` plus its cheapest
   * entry exactly when that is strictly smaller, and exactly then its
   * predecessor becomes `c`; nothing else changes.
   */
  ghost predicate RelaxedFrom(ns: seq<Neighbor>, c: string, dist: map<string, Dist>, prev: map<string, string>,
                              dist2: map<string, Dist>, prev2: map<string, string>)
  {
    && c in dist
    && dist2.Keys == dist.Keys
    && (forall n :: n in prev2 ==> n in prev || n in dist)
    && forall n :: n in dist ==> RelaxedAt(ns, c, dist, prev, dist2, prev2, n)
  }

  /** `RelaxedFrom` at the single node `n`. */
  ghost predicate RelaxedAt(ns: seq<Neighbor>, c: string, dist: map<string, Dist>, prev: map<string, string>,
                            dist2: map<string, Dist>, prev2: map<string, string>, n: string)
    requires c in dist && n in dist && dist2.Keys == dist.Keys
  {
    if MinWeight(ns, n).Some? && Lt(Plus(dist[c], MinWeight(ns, n).value), dist[n]) then
      dist2[n] == Plus(dist[c], MinWeight(ns, n).value) && n in prev2 && prev2[n] == c
    else
      dist2[n] == dist[n] && (n in prev2 <==> n in prev) && (n in prev ==> prev2[n] == prev[n])
  }

  /**
   * Relaxes, in list order, every entry of `c`'s adjacency list: an entry
   * lowers its node's distance, and records `c` as its predecessor, when
   * `dist[c]` plus its weight is strictly smaller.
   */
  method Relax(ns: seq<Neighbor>, c: string, dist: map<string, Dist>, prev: map<string, string>)
    returns (dist2: map<string, Dist>, prev2: map<string, string>)
    requires c in dist
    requires forall i :: 0 <= i < |ns| ==> ns[i].node in dist
    ensures RelaxedFrom(ns, c, dist, prev, dist2, prev2)
  {
    dist2, prev2 := dist, prev;
    var k := 0;
    ghost var done: seq<Neighbor> := [];
    while k < |ns|
      invariant 0 <= k <= |ns| && done == ns[..k]
      invariant RelaxedFrom(done, c, dist, prev, dist2, prev2)
    {
      var nb := ns[k];
      RelaxedFromKeepsStart(done, c, dist, prev, dist2, prev2);
      var alt := Plus(dist2[c], nb.distance);
      var d3, p3 := dist2, prev2;
      if Lt(alt, dist2[nb.node]) {
        d3 := dist2[nb.node := alt];
        p3 := prev2[nb.node := c];
      }
      RelaxStep(done, nb, c, dist, prev, dist2, prev2, d3, p3);
      assert ns[..k] + [nb] == ns[..k + 1];
      dist2, prev2, done := d3, p3, done + [nb];
      k := k + 1;
    }
    assert ns[..|ns|] == ns;
  }

  /** Relaxation never changes the distance of the node relaxed from. */
  lemma RelaxedFromKeepsStart(ns: seq<Neighbor>, c: string, dist: map<string, Dist>, prev: map<string, string>,
                              dist2: map<string, Dist>, prev2: map<string, string>)
    requires RelaxedFrom(ns, c, dist, prev, dist2, prev2)
    ensures c in dist2 && dist2[c] == dist[c]
  {
    assert RelaxedAt(ns, c, dist, prev, dist2, prev2, c);
  }

  /** Unfolding `MinWeight` at one more entry. */
  lemma MinWeightSnoc(ns: seq<Neighbor>, nb: Neighbor, v: string)
    ensures MinWeight(ns + [nb], v) ==
      if nb.node != v then MinWeight(ns, v)
      else if MinWeight(ns, v).Some? && MinWeight(ns, v).value <= nb.distance then MinWeight(ns, v)
      else Some(nb.distance)
  {
    assert (ns + [nb])[..|ns|] == ns;
  }

  /** Relaxing one more entry extends `RelaxedFrom` by that entry. */
  lemma RelaxStep(ns: seq<Neighbor>, nb: Neighbor, c: string, dist: map<string, Dist>, prev: map<string, string>,
                  dist2: map<string, Dist>, prev2: map<string, string>,
                  dist3: map<string, Dist>, prev3: map<string, string>)
    requires RelaxedFrom(ns, c, dist, prev, dist2, prev2)
    requires nb.node in dist
    requires var alt := Plus(dist[c], nb.distance);
      if Lt(alt, dist2[nb.node]) then dist3 == dist2[nb.node := alt] && prev3 == prev2[nb.node := c]
      else dist3 == dist2 && prev3 == prev2
    ensures RelaxedFrom(ns + [nb], c, dist, prev, dist3, prev3)
  {
    forall n | n in dist ensures RelaxedAt(ns + [nb], c, dist, prev, dist3, prev3, n) {
      assert RelaxedAt(ns, c, dist, prev, dist2, prev2, n);
      MinWeightSnoc(ns, nb, n);
    }
  }

  /** The state before the first iteration: only `start` has a finite distance. */
  lemma InitialInv(g: Adjacency, nodes: set<string>, start: string, dist: map<string, Dist>)
    requires Closed(g, nodes)
    requires dist.Keys == nodes
    requires forall n :: n in nodes ==> dist[n] == if n == start then Fin(0) else Inf
    ensures Inv(g, nodes, start, dist, map[], {}, map[])
  {
  }

  /** Along a path from `start` whose first `i` nodes are visited, `dist` bounds the cost to node `i`. */
  lemma {:induction false} VisitedPrefixBound(g: Adjacency, nodes: set<string>, start: string,
                                               dist: map<string, Dist>, visited: set<string>, p: seq<string>, i: nat)
    requires Closed(g, nodes) && dist.Keys == nodes && visited <= nodes
    requires start in nodes && dist[start] == Fin(0)
    requires Relaxed(g, nodes, dist, visited)
    requires IsPath(g, p) && p[0] == start && i < |p|
    requires forall k :: 0 <= k < i ==> p[k] in visited
    ensures p[i] in nodes && IsPath(g, p[..i + 1]) && Le(dist[p[i]], Fin(PathCost(g, p[..i + 1])))
    decreases i
  {
    PathCostPrefix(g, p, i + 1);
    if i > 0 {
      VisitedPrefixBound(g, nodes, start, dist, visited, p, i - 1);
      assert Adjacent(g, p[i - 1], p[i]);
      AdjacentClosed(g, nodes, p[i - 1], p[i]);
      var q := p[..i];
      assert q[|q| - 1] == p[i - 1];
      PathCostAppend(g, q, p[i]);
      assert q + [p[i]] == p[..i + 1];
    }
  }

  /** A path from `start` to an unvisited node costs at least the distance of some unvisited node on it. */
  lemma FrontierBound(g: Adjacency, nodes: set<string>, start: string, dist: map<string, Dist>,
                      visited: set<string>, p: seq<string>) returns (j: nat)
    requires Closed(g, nodes) && dist.Keys == nodes && visited <= nodes
    requires start in nodes && dist[start] == Fin(0)
    requires Relaxed(g, nodes, dist, visited)
    requires IsPath(g, p) && p[0] == start && p[|p| - 1] !in visited
    ensures j < |p| && p[j] in nodes && p[j] !in visited && Le(dist[p[j]], Fin(PathCost(g, p)))
  {
    j := 0;
    while p[j] in visited
      invariant j < |p|
      invariant forall k :: 0 <= k < j ==> p[k] in visited
      decreases |p| - j
    {
      j := j + 1;
    }
    VisitedPrefixBound(g, nodes, start, dist, visited, p, j);
    PathCostPrefix(g, p, j + 1);
  }

  /** If every unvisited node is at least as far as `c`, every path from `start` to `c` costs at least `dist[c]`. */
  lemma SelectedIsSettled(g: Adjacency, nodes: set<string>, start: string, dist: map<string, Dist>,
                          visited: set<string>, c: string, p: seq<string>)
    requires Closed(g, nodes) && dist.Keys == nodes && visited <= nodes
    requires start in nodes ==> dist[start] == Fin(0)
    requires Relaxed(g, nodes, dist, visited)
    requires c in nodes && c !in visited
    requires forall u :: u in nodes && u !in visited ==> Le(dist[c], dist[u])
    requires IsPath(g, p) && p[0] == start && p[|p| - 1] == c
    ensures Le(dist[c], Fin(PathCost(g, p)))
  {
    if start in nodes {
      var j := FrontierBound(g, nodes, start, dist, visited, p);
    } else if |p| > 1 {
      AdjacentClosed(g, nodes, p[0], p[1]);
    }
  }

  /** The situation of one main-loop iteration: `c` is an unvisited node no farther than any other, and its edges are relaxed. */
  ghost predicate VisitPre(g: Adjacency, nodes: set<string>, start: string, dist: map<string, Dist>,
                           prev: map<string, string>, visited: set<string>, rank: map<string, nat>,
                           c: string, dist2: map<string, Dist>, prev2: map<string, string>)
  {
    && Inv(g, nodes, start, dist, prev, visited, rank)
    && c in nodes && c !in visited
    && (forall u :: u in nodes && u !in visited ==> Le(dist[c], dist[u]))
    && RelaxedFrom(Nbrs(g, c), c, dist, prev, dist2, prev2)
  }

  /** Relaxing from `c` lowers neither a visited node nor `c` itself. */
  lemma RelaxKeepsVisited(ns: seq<Neighbor>, nodes: set<string>, dist: map<string, Dist>, prev: map<string, string>,
                          visited: set<string>, c: string, dist2: map<string, Dist>, prev2: map<string, string>, v: string)
    requires dist.Keys == nodes && visited <= nodes
    requires c in nodes && c !in visited
    requires v == c || (v in visited && Le(dist[v], dist[c]))
    requires RelaxedFrom(ns, c, dist, prev, dist2, prev2)
    ensures dist2[v] == dist[v] && (v in prev2 <==> v in prev) && (v in prev ==> prev2[v] == prev[v])
  {
    assert RelaxedAt(ns, c, dist, prev, dist2, prev2, v);
  }

  /** The visited nodes, `c` included, keep their distances and predecessors. */
  ghost predicate Unlowered(visited: set<string>, c: string, dist: map<string, Dist>, prev: map<string, string>,
                            dist2: map<string, Dist>, prev2: map<string, string>)
  {
    forall v :: v in visited + {c} ==>
      v in dist && v in dist2 && dist2[v] == dist[v] && (v in prev2 <==> v in prev) && (v in prev ==> prev2[v] == prev[v])
  }

  lemma VisitUnlowered(g: Adjacency, nodes: set<string>, start: string, dist: map<string, Dist>,
                       prev: map<string, string>, visited: set<string>, rank: map<string, nat>,
                       c: string, dist2: map<string, Dist>, prev2: map<string, string>)
    requires VisitPre(g, nodes, start, dist, prev, visited, rank, c, dist2, prev2)
    ensures Unlowered(visited, c, dist, prev, dist2, prev2)
  {
    forall v | v in visited + {c}
      ensures v in dist && v in dist2 && dist2[v] == dist[v] && (v in prev2 <==> v in prev) && (v in prev ==> prev2[v] == prev[v])
    {
      if v != c {
        assert Le(dist[v], dist[c]);
      }
      RelaxKeepsVisited(Nbrs(g, c), nodes, dist, prev, visited, c, dist2, prev2, v);
    }
  }

  /** Visiting `c` keeps the key sets in place. */
  lemma VisitFrame(nodes: set<string>, dist: map<string, Dist>, prev: map<string, string>,
                   visited: set<string>, rank: map<string, nat>,
                   ns: seq<Neighbor>, c: string, dist2: map<string, Dist>, prev2: map<string, string>)
    requires Frame(nodes, dist, prev, visited, rank)
    requires c in nodes && RelaxedFrom(ns, c, dist, prev, dist2, prev2)
    ensures Frame(nodes, dist2, prev2, visited + {c}, rank[c := |visited|])
  {
  }

  /** Visiting `c` keeps `start` at 0 without a predecessor, and every finite distance witnessed. */
  lemma VisitWitnessed(nodes: set<string>, start: string, dist: map<string, Dist>, prev: map<string, string>,
                       ns: seq<Neighbor>, c: string, dist2: map<string, Dist>, prev2: map<string, string>)
    requires dist.Keys == nodes
    requires StartFacts(nodes, start, dist, prev) && Witnessed(nodes, start, dist, prev)
    requires RelaxedFrom(ns, c, dist, prev, dist2, prev2)
    ensures StartFacts(nodes, start, dist2, prev2)
    ensures Witnessed(nodes, start, dist2, prev2)
  {
    if start in nodes {
      assert RelaxedAt(ns, c, dist, prev, dist2, prev2, start);
    }
    forall n | n in nodes && dist2[n].Fin? ensures n == start || n in prev2 {
      WitnessedAt(nodes, start, dist, prev, ns, c, dist2, prev2, n);
    }
  }

  /** `VisitWitnessed` at one node: a finite distance after relaxing is `start`'s or has a predecessor. */
  lemma WitnessedAt(nodes: set<string>, start: string, dist: map<string, Dist>, prev: map<string, string>,
                    ns: seq<Neighbor>, c: string, dist2: map<string, Dist>, prev2: map<string, string>, n: string)
    requires dist.Keys == nodes && Witnessed(nodes, start, dist, prev)
    requires RelaxedFrom(ns, c, dist, prev, dist2, prev2)
    requires n in nodes && dist2[n].Fin?
    ensures n == start || n in prev2
  {
    assert RelaxedAt(ns, c, dist, prev, dist2, prev2, n);
  }

  lemma VisitVisitedFirst(g: Adjacency, nodes: set<string>, start: string, dist: map<string, Dist>,
                          prev: map<string, string>, visited: set<string>, rank: map<string, nat>,
                          c: string, dist2: map<string, Dist>, prev2: map<string, string>)
    requires VisitPre(g, nodes, start, dist, prev, visited, rank, c, dist2, prev2)
    requires Unlowered(visited, c, dist, prev, dist2, prev2)
    ensures VisitedFirst(nodes, dist2, visited + {c})
  {
    forall v, u | v in visited + {c} && u in nodes && u !in visited + {c} ensures Le(dist2[v], dist2[u]) {
      assert Le(dist[v], dist[c]);
      assert RelaxedAt(Nbrs(g, c), c, dist, prev, dist2, prev2, u);
    }
  }

  lemma VisitRelaxed(g: Adjacency, nodes: set<string>, dist: map<string, Dist>, prev: map<string, string>,
                     visited: set<string>, c: string, dist2: map<string, Dist>, prev2: map<string, string>)
    requires dist.Keys == nodes && visited <= nodes && c in nodes
    requires Relaxed(g, nodes, dist, visited)
    requires RelaxedFrom(Nbrs(g, c), c, dist, prev, dist2, prev2)
    requires Unlowered(visited, c, dist, prev, dist2, prev2)
    ensures Relaxed(g, nodes, dist2, visited + {c})
  {
    forall v, n | v in visited + {c} && n in nodes && Adjacent(g, v, n)
      ensures Le(dist2[n], Plus(dist2[v], Weight(g, v, n)))
    {
      RelaxedPair(g, nodes, dist, prev, visited, c, dist2, prev2, v, n);
    }
  }

  /** `VisitRelaxed` at the single edge from `v` to `n`. */
  lemma RelaxedPair(g: Adjacency, nodes: set<string>, dist: map<string, Dist>, prev: map<string, string>,
                    visited: set<string>, c: string, dist2: map<string, Dist>, prev2: map<string, string>, v: string, n: string)
    requires dist.Keys == nodes && visited <= nodes && c in nodes
    requires Relaxed(g, nodes, dist, visited)
    requires RelaxedFrom(Nbrs(g, c), c, dist, prev, dist2, prev2)
    requires v in visited + {c} && n in nodes && Adjacent(g, v, n)
    requires v in dist2 && dist2[v] == dist[v]
    ensures Le(dist2[n], Plus(dist2[v], Weight(g, v, n)))
  {
    assert RelaxedAt(Nbrs(g, c), c, dist, prev, dist2, prev2, n);
    if v == c {
      assert Nbrs(g, c) == g[c];
    } else {
      assert Le(dist[n], Plus(dist[v], Weight(g, v, n)));
    }
  }

  lemma VisitSettled(g: Adjacency, nodes: set<string>, start: string, dist: map<string, Dist>,
                     prev: map<string, string>, visited: set<string>, rank: map<string, nat>,
                     c: string, dist2: map<string, Dist>, prev2: map<string, string>)
    requires VisitPre(g, nodes, start, dist, prev, visited, rank, c, dist2, prev2)
    requires Unlowered(visited, c, dist, prev, dist2, prev2)
    ensures Settled(g, nodes, start, dist2, visited + {c})
  {
    forall v, p | v in visited + {c} && IsPath(g, p) && p[0] == start && p[|p| - 1] == v
      ensures Le(dist2[v], Fin(PathCost(g, p)))
    {
      if v == c {
        SelectedIsSettled(g, nodes, start, dist, visited, c, p);
      } else {
        assert Le(dist[v], Fin(PathCost(g, p)));
      }
    }
  }

  lemma VisitPredecessors(g: Adjacency, nodes: set<string>, start: string, dist: map<string, Dist>,
                          prev: map<string, string>, visited: set<string>, rank: map<string, nat>,
                          c: string, dist2: map<string, Dist>, prev2: map<string, string>)
    requires Frame(nodes, dist, prev, visited, rank)
    requires Predecessors(g, nodes, dist, prev, visited) && Ranked(prev, visited, rank)
    requires c in nodes && c !in visited
    requires RelaxedFrom(Nbrs(g, c), c, dist, prev, dist2, prev2)
    requires Unlowered(visited, c, dist, prev, dist2, prev2)
    ensures Predecessors(g, nodes, dist2, prev2, visited + {c})
    ensures Ranked(prev2, visited + {c}, rank[c := |visited|])
  {
    var visited2, rank2 := visited + {c}, rank[c := |visited|];
    forall n | n in prev2
      ensures prev2[n] in visited2 && Adjacent(g, prev2[n], n) && dist2[n].Fin? && dist2[prev2[n]].Fin?
      ensures dist2[prev2[n]].n + Weight(g, prev2[n], n) <= dist2[n].n
      ensures n in visited2 && prev2[n] in visited2 ==> rank2[prev2[n]] < rank2[n]
    {
      assert n in dist;
      assert RelaxedAt(Nbrs(g, c), c, dist, prev, dist2, prev2, n);
      PredecessorAt(g, nodes, dist, prev, visited, rank, c, dist2, prev2, n);
    }
  }

  /** `VisitPredecessors` at the single node `n`. */
  lemma PredecessorAt(g: Adjacency, nodes: set<string>, dist: map<string, Dist>,
                      prev: map<string, string>, visited: set<string>, rank: map<string, nat>,
                      c: string, dist2: map<string, Dist>, prev2: map<string, string>, n: string)
    requires Frame(nodes, dist, prev, visited, rank)
    requires Predecessors(g, nodes, dist, prev, visited) && Ranked(prev, visited, rank)
    requires c in nodes && c !in visited
    requires dist2.Keys == dist.Keys && n in dist && n in prev2
    requires RelaxedAt(Nbrs(g, c), c, dist, prev, dist2, prev2, n)
    requires Unlowered(visited, c, dist, prev, dist2, prev2)
    ensures prev2[n] in visited + {c} && Adjacent(g, prev2[n], n) && dist2[n].Fin? && dist2[prev2[n]].Fin?
    ensures dist2[prev2[n]].n + Weight(g, prev2[n], n) <= dist2[n].n
    ensures n in visited + {c} && prev2[n] in visited + {c} ==> rank[c := |visited|][prev2[n]] < rank[c := |visited|][n]
  {
    if MinWeight(Nbrs(g, c), n).Some? && Lt(Plus(dist[c], MinWeight(Nbrs(g, c), n).value), dist[n]) {
      assert c in g;
      assert n !in visited + {c};
    } else {
      assert prev[n] in visited;
    }
  }

  /** One iteration of the main loop: visiting `c` and relaxing its edges keeps the invariant. */
  lemma VisitStep(g: Adjacency, nodes: set<string>, start: string, dist: map<string, Dist>,
                  prev: map<string, string>, visited: set<string>, rank: map<string, nat>,
                  c: string, dist2: map<string, Dist>, prev2: map<string, string>)
    requires Inv(g, nodes, start, dist, prev, visited, rank)
    requires c in nodes && c !in visited
    requires forall u :: u in nodes && u !in visited ==> Le(dist[c], dist[u])
    requires RelaxedFrom(Nbrs(g, c), c, dist, prev, dist2, prev2)
    ensures Inv(g, nodes, start, dist2, prev2, visited + {c}, rank[c := |visited|])
    ensures forall v :: v in visited + {c} ==> dist2[v] == dist[v]
  {
    VisitUnlowered(g, nodes, start, dist, prev, visited, rank, c, dist2, prev2);
    VisitFrame(nodes, dist, prev, visited, rank, Nbrs(g, c), c, dist2, prev2);
    VisitWitnessed(nodes, start, dist, prev, Nbrs(g, c), c, dist2, prev2);
    VisitVisitedFirst(g, nodes, start, dist, prev, visited, rank, c, dist2, prev2);
    VisitRelaxed(g, nodes, dist, prev, visited, c, dist2, prev2);
    VisitSettled(g, nodes, start, dist, prev, visited, rank, c, dist2, prev2);
    VisitPredecessors(g, nodes, start, dist, prev, visited, rank, c, dist2, prev2);
  }

  /** A measure that strictly falls from a node to its predecessor. */
  ghost function ChainMeasure(visited: set<string>, rank: map<string, nat>, n: string): nat
    requires rank.Keys == visited
  {
    if n in visited then rank[n] + 1 else |visited| + 1
  }

  lemma PrevMeasure(g: Adjacency, nodes: set<string>, start: string, dist: map<string, Dist>,
                    prev: map<string, string>, visited: set<string>, rank: map<string, nat>, n: string)
    requires Chains(g, nodes, start, dist, prev, visited, rank)
    requires n in prev
    ensures prev[n] in visited && prev[n] in nodes && dist[prev[n]].Fin?
    ensures ChainMeasure(visited, rank, prev[n]) < ChainMeasure(visited, rank, n)
  {
  }

  /** Following predecessors from a node with a finite distance reaches `start` along a path no dearer than that distance. */
  lemma {:induction false} ChainPath(g: Adjacency, nodes: set<string>, start: string, dist: map<string, Dist>,
                                     prev: map<string, string>, visited: set<string>, rank: map<string, nat>, n: string)
    returns (p: seq<string>)
    requires Chains(g, nodes, start, dist, prev, visited, rank)
    requires n in nodes && dist[n].Fin?
    ensures IsPath(g, p) && p[0] == start && p[|p| - 1] == n && PathCost(g, p) <= dist[n].n
    decreases ChainMeasure(visited, rank, n)
  {
    if n in prev {
      var m := prev[n];
      PrevMeasure(g, nodes, start, dist, prev, visited, rank, n);
      var q := ChainPath(g, nodes, start, dist, prev, visited, rank, m);
      PathCostAppend(g, q, n);
      p := q + [n];
    } else {
      p := [n];
    }
  }

  /** One step of path reconstruction: prepending the predecessor keeps the cost within the distance of `end`. */
  lemma ChainStep(g: Adjacency, nodes: set<string>, start: string, dist: map<string, Dist>,
                  prev: map<string, string>, visited: set<string>, rank: map<string, nat>,
                  path: seq<string>, end: string)
    requires Chains(g, nodes, start, dist, prev, visited, rank)
    requires end in nodes && dist[end].Fin?
    requires IsPath(g, path) && path[0] in prev && dist[path[0]].Fin?
    requires dist[path[0]].n + PathCost(g, path) <= dist[end].n
    ensures IsPath(g, [prev[path[0]]] + path)
    ensures prev[path[0]] in nodes && dist[prev[path[0]]].Fin?
    ensures dist[prev[path[0]]].n + PathCost(g, [prev[path[0]]] + path) <= dist[end].n
  {
    PathCostPrepend(g, prev[path[0]], path);
  }

  /** A visited node's distance is no more than the cost of any path from `start` to it. */
  lemma SettledAt(g: Adjacency, nodes: set<string>, start: string, dist: map<string, Dist>, visited: set<string>,
                  v: string, q: seq<string>)
    requires dist.Keys == nodes && visited <= nodes
    requires Settled(g, nodes, start, dist, visited)
    requires v in visited && IsPath(g, q) && q[0] == start && q[|q| - 1] == v
    ensures Le(dist[v], Fin(PathCost(g, q)))
  {
  }

  /**
   * A visited node is reachable, its distance is the cost of some path to
   * it, and no path to it costs less.
   */
  lemma VisitedOptimal(g: Adjacency, nodes: set<string>, start: string, dist: map<string, Dist>,
                       prev: map<string, string>, visited: set<string>, rank: map<string, nat>, end: string)
    requires Chains(g, nodes, start, dist, prev, visited, rank)
    requires Settled(g, nodes, start, dist, visited)
    requires end in visited && dist[end].Fin?
    ensures Reachable(g, start, end)
    ensures exists q :: IsPath(g, q) && q[0] == start && q[|q| - 1] == end && PathCost(g, q) == dist[end].n
    ensures forall q :: IsPath(g, q) && q[0] == start && q[|q| - 1] == end ==> dist[end].n <= PathCost(g, q)
  {
    var p := ChainPath(g, nodes, start, dist, prev, visited, rank, end);
    forall q | IsPath(g, q) && q[0] == start && q[|q| - 1] == end ensures dist[end].n <= PathCost(g, q) {
      SettledAt(g, nodes, start, dist, visited, end, q);
    }
    assert dist[end].n <= PathCost(g, p);
  }

  /** When the loop has stopped with every unvisited node at `Infinity`, no unvisited node is reachable. */
  lemma UnvisitedUnreachable(g: Adjacency, nodes: set<string>, start: string, dist: map<string, Dist>,
                             prev: map<string, string>, visited: set<string>, rank: map<string, nat>, end: string)
    requires Inv(g, nodes, start, dist, prev, visited, rank)
    requires forall u :: u in nodes && u !in visited ==> dist[u].Inf?
    requires end in nodes && end !in visited
    ensures !Reachable(g, start, end)
  {
    forall p | IsPath(g, p) && p[0] == start && p[|p| - 1] == end ensures false {
      if start in nodes {
        var j := FrontierBound(g, nodes, start, dist, visited, p);
      } else if |p| > 1 {
        AdjacentClosed(g, nodes, p[0], p[1]);
      }
    }
  }
}
