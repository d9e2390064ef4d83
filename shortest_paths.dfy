/** The shortest-path search networkx runs for `nx.dijkstra_path` and
    `nx.dijkstra_path_length`: a uniform-cost search whose frontier is keyed by
    the accumulated distance, proved to return a path of minimal cost. */
module ShortestPaths {
  import opened Graphs
  import opened Frontier
  import opened Reporting

  /** `p` is a simple path from `s` to `t` that costs no more than any other path between them. */
  ghost predicate Shortest(g: Graph, s: string, t: string, p: seq<string>) {
    && IsPathBetween(g, s, t, p) && Distinct(p)
    && forall q :: IsPathBetween(g, s, t, q) ==> PathCost(g, p) <= PathCost(g, q)
  }

  /** The tuples of the frontier: valid simple paths whose priority is their cost. */
  ghost predicate UcsEntries(g: Graph, origen: string, frontera: seq<Entry>, visitados: set<string>) {
    forall e :: e in frontera ==>
      ValidEntry(g, origen, e) && Distinct(e.path) && PrefixVisited(e.path, visitados) && e.priority == e.cost
  }

  /** Every visited node is settled: its recorded distance is at most the cost of any path to it. */
  ghost predicate Settled(g: Graph, origen: string, dist: map<string, nat>) {
    forall v, q :: v in dist && IsPathBetween(g, origen, v, q) ==> dist[v] <= PathCost(g, q)
  }

  /** An unvisited node next to `v` waits with a cost through `v` or better. */
  ghost predicate RelaxedFrom(g: Graph, frontera: seq<Entry>, dist: map<string, nat>, v: string, n: string)
    requires v in dist && Adjacent(g, v, n)
  {
    exists e :: e in frontera && e.node == n && e.cost <= dist[v] + Weight(g, v, n)
  }

  /** The invariant of the search loop; `dist` holds the distances of the visited nodes. */
  ghost predicate UcsInv(g: Graph, origen: string, destino: string, frontera: seq<Entry>,
                         visitados: set<string>, dist: map<string, nat>)
  {
    && visitados <= g.adj.Keys && destino !in visitados && dist.Keys == visitados
    && UcsEntries(g, origen, frontera, visitados)
    && (visitados == {} ==> frontera == [Entry(0, origen, [origen], 0)])
    && (visitados != {} ==> origen in visitados)
    && Settled(g, origen, dist)
    && (forall v, n :: v in visitados && Adjacent(g, v, n) && n !in visitados ==> RelaxedFrom(g, frontera, dist, v, n))
  }

  /** The invariant of the neighbour loop while `actual` is expanded. */
  ghost predicate UcsExpanding(g: Graph, origen: string, destino: string, frontera: seq<Entry>,
                               visitados: set<string>, dist: map<string, nat>, actual: Entry, vecinos: set<string>)
  {
    && visitados <= g.adj.Keys && destino !in visitados && dist.Keys == visitados
    && actual.node in visitados && dist[actual.node] == actual.cost
    && ValidEntry(g, origen, actual) && Distinct(actual.path) && PrefixVisited(actual.path, visitados)
    && vecinos <= g.adj[actual.node].Keys
    && UcsEntries(g, origen, frontera, visitados)
    && origen in visitados
    && Settled(g, origen, dist)
    && (forall v, n :: v in visitados && v != actual.node && Adjacent(g, v, n) && n !in visitados ==>
          RelaxedFrom(g, frontera, dist, v, n))
    && (forall n :: n in g.adj[actual.node] && n !in vecinos && n !in visitados ==>
          RelaxedFrom(g, frontera, dist, actual.node, n))
  }

  /** The smallest tuple of the frontier, for a node not yet visited, costs no
      more than any path to its node: every such path leaves the visited set
      through an edge whose far end already waits with a cost no larger. */
  lemma FrontierBound(g: Graph, origen: string, destino: string, frontera: seq<Entry>,
                      visitados: set<string>, dist: map<string, nat>, e: Entry, q: seq<string>)
    requires WellFormed(g)
    requires UcsInv(g, origen, destino, frontera, visitados, dist)
    requires e in frontera && forall x :: x in frontera ==> !EntryLess(x, e)
    requires e.node !in visitados
    requires IsPathBetween(g, origen, e.node, q)
    ensures e.cost <= PathCost(g, q)
  {
    if visitados != {} {
      var i := LeavesSet(q, visitados);
      var u, n := q[i - 1], q[i];
      assert Adjacent(g, u, n);
      assert RelaxedFrom(g, frontera, dist, u, n);
      var w :| w in frontera && w.node == n && w.cost <= dist[u] + Weight(g, u, n);
      assert e.cost <= w.cost by {
        assert !EntryLess(w, e);
        assert w.priority == w.cost && e.priority == e.cost;
      }
      var p := q[..i];
      LinkedPrefix(g, q, i);
      assert IsPathBetween(g, origen, u, p);
      assert dist[u] <= PathCost(g, p);
      PathCostAppend(g, p, n);
      assert p + [n] == q[..i + 1];
      PathCostPrefix(g, q, i + 1);
      assert PathCost(g, p) + Weight(g, u, n) <= PathCost(g, q);
    }
  }

  lemma UcsSkip(g: Graph, origen: string, destino: string, frontera: seq<Entry>, rest: seq<Entry>,
                actual: Entry, visitados: set<string>, dist: map<string, nat>)
    requires UcsInv(g, origen, destino, frontera, visitados, dist)
    requires actual in frontera && actual.node in visitados
    requires forall x :: x in rest ==> x in frontera
    requires forall x :: x in frontera && x != actual ==> x in rest
    ensures UcsInv(g, origen, destino, rest, visitados, dist)
  {
    forall v, n | v in visitados && Adjacent(g, v, n) && n !in visitados
      ensures RelaxedFrom(g, rest, dist, v, n)
    {
      assert RelaxedFrom(g, frontera, dist, v, n);
      var w :| w in frontera && w.node == n && w.cost <= dist[v] + Weight(g, v, n);
      assert w in rest;
    }
  }

  lemma UcsStartExpand(g: Graph, origen: string, destino: string, frontera: seq<Entry>, rest: seq<Entry>,
                       actual: Entry, visitados: set<string>, dist: map<string, nat>)
    requires WellFormed(g)
    requires UcsInv(g, origen, destino, frontera, visitados, dist)
    requires actual in frontera && forall x :: x in frontera ==> !EntryLess(x, actual)
    requires actual.node !in visitados && actual.node != destino
    requires forall x :: x in rest ==> x in frontera
    requires forall x :: x in frontera && x != actual ==> x in rest
    ensures actual.node in g.adj
    ensures UcsExpanding(g, origen, destino, rest, visitados + {actual.node}, dist[actual.node := actual.cost],
                         actual, g.adj[actual.node].Keys)
  {
    var visitados', dist' := visitados + {actual.node}, dist[actual.node := actual.cost];
    forall v, q | v in dist' && IsPathBetween(g, origen, v, q) ensures dist'[v] <= PathCost(g, q) {
      if v == actual.node {
        FrontierBound(g, origen, destino, frontera, visitados, dist, actual, q);
      }
    }
    forall v, n | v in visitados' && v != actual.node && Adjacent(g, v, n) && n !in visitados'
      ensures RelaxedFrom(g, rest, dist', v, n)
    {
      assert RelaxedFrom(g, frontera, dist, v, n);
      var w :| w in frontera && w.node == n && w.cost <= dist[v] + Weight(g, v, n);
      assert w in rest;
    }
  }

  /** Pushing `camino + [vecino]` for an unvisited neighbour, with priority its cost. */
  lemma UcsPush(g: Graph, origen: string, destino: string, frontera: seq<Entry>, visitados: set<string>,
                dist: map<string, nat>, actual: Entry, vecinos: set<string>, vecino: string, e: Entry)
    requires WellFormed(g)
    requires UcsExpanding(g, origen, destino, frontera, visitados, dist, actual, vecinos)
    requires vecino in vecinos && vecino !in visitados
    requires e.node == vecino && e.path == actual.path + [vecino]
    requires e.cost == actual.cost + g.adj[actual.node][vecino] && e.priority == e.cost
    ensures Adjacent(g, actual.node, vecino)
    ensures UcsExpanding(g, origen, destino, frontera + [e], visitados, dist, actual, vecinos - {vecino})
  {
    var frontera' := frontera + [e];
    ExtendEntry(g, origen, actual, vecino, e.priority);
    assert Distinct(e.path) by {
      assert forall k :: 0 <= k < |actual.path| ==> actual.path[k] in visitados;
    }
    assert PrefixVisited(e.path, visitados) by {
      assert forall k :: 0 <= k < |actual.path| ==> actual.path[k] in visitados;
    }
    forall v, n | v in visitados && Adjacent(g, v, n) && n !in visitados && RelaxedFrom(g, frontera, dist, v, n)
      ensures RelaxedFrom(g, frontera', dist, v, n)
    {
      var w :| w in frontera && w.node == n && w.cost <= dist[v] + Weight(g, v, n);
      assert w in frontera';
    }
    assert RelaxedFrom(g, frontera', dist, actual.node, vecino) by {
      assert e in frontera';
    }
  }

  /** A visited neighbour is passed over. */
  lemma UcsPassOver(g: Graph, origen: string, destino: string, frontera: seq<Entry>, visitados: set<string>,
                    dist: map<string, nat>, actual: Entry, vecinos: set<string>, vecino: string)
    requires UcsExpanding(g, origen, destino, frontera, visitados, dist, actual, vecinos)
    requires vecino in vecinos && vecino in visitados
    ensures UcsExpanding(g, origen, destino, frontera, visitados, dist, actual, vecinos - {vecino})
  {
  }

  lemma UcsExpanded(g: Graph, origen: string, destino: string, frontera: seq<Entry>, visitados: set<string>,
                    dist: map<string, nat>, actual: Entry)
    requires UcsExpanding(g, origen, destino, frontera, visitados, dist, actual, {})
    ensures UcsInv(g, origen, destino, frontera, visitados, dist)
  {
  }

  /** The neighbour loop: each unvisited neighbour is pushed with its accumulated distance as priority. */
  method Relax(g: Graph, origen: string, destino: string, frontera0: seq<Entry>, visitados: set<string>,
               ghost dist: map<string, nat>, actual: Entry)
    returns (frontera: seq<Entry>)
    requires WellFormed(g)
    requires actual.node in g.adj
    requires UcsExpanding(g, origen, destino, frontera0, visitados, dist, actual, g.adj[actual.node].Keys)
    ensures UcsInv(g, origen, destino, frontera, visitados, dist)
  {
    frontera := frontera0;
    var vecinos := g.adj[actual.node].Keys;
    while vecinos != {}
      invariant UcsExpanding(g, origen, destino, frontera, visitados, dist, actual, vecinos)
      decreases vecinos
    {
      var vecino :| vecino in vecinos;
      if vecino in visitados {
        UcsPassOver(g, origen, destino, frontera, visitados, dist, actual, vecinos, vecino);
      } else {
        var nuevaDist := actual.cost + g.adj[actual.node][vecino];
        var entrada := Entry(nuevaDist, vecino, actual.path + [vecino], nuevaDist);
        UcsPush(g, origen, destino, frontera, visitados, dist, actual, vecinos, vecino, entrada);
        frontera := frontera + [entrada];
      }
      vecinos := vecinos - {vecino};
    }
    UcsExpanded(g, origen, destino, frontera, visitados, dist, actual);
  }

  /** `nx.dijkstra_path(G, origen, destino)` together with
      `nx.dijkstra_path_length(G, origen, destino)`: a shortest path and its
      length, or `None` when the destination cannot be reached (networkx then
      raises `NetworkXNoPath`). networkx raises `NodeNotFound` for a source that
      is not a node, so the source is required to be one. */
  method ShortestPath(g: Graph, origen: string, destino: string) returns (ruta: Option<seq<string>>, longitud: nat)
    requires WellFormed(g)
    requires origen in g.adj
    ensures ruta.Some? ==> Shortest(g, origen, destino, ruta.value) && longitud == PathCost(g, ruta.value)
    ensures ruta.None? <==> !Reachable(g, origen, destino)
  {
    var frontera := [Entry(0, origen, [origen], 0)];
    var visitados: set<string> := {};
    ghost var dist: map<string, nat> := map[];
    while |frontera| > 0
      invariant UcsInv(g, origen, destino, frontera, visitados, dist)
      decreases |g.adj.Keys - visitados|, |frontera|
    {
      var actual, rest := PopMin(frontera);
      if actual.node == destino {
        forall q | IsPathBetween(g, origen, destino, q) ensures actual.cost <= PathCost(g, q) {
          FrontierBound(g, origen, destino, frontera, visitados, dist, actual, q);
        }
        return Some(actual.path), actual.cost;
      }
      if actual.node in visitados {
        UcsSkip(g, origen, destino, frontera, rest, actual, visitados, dist);
        frontera := rest;
        continue;
      }
      UcsStartExpand(g, origen, destino, frontera, rest, actual, visitados, dist);
      FewerUnvisited(g.adj.Keys, visitados, actual.node);
      visitados, dist := visitados + {actual.node}, dist[actual.node := actual.cost];
      frontera := Relax(g, origen, destino, rest, visitados, dist, actual);
    }
    assert origen in visitados;
    ClosedSetUnreachable(g, visitados, origen, destino);
    return None, 0;
  }

  /** What a search delegated to networkx's Dijkstra promises: a route of least
      cost labelled `algoritmo`, the no-route message when there is none, and
      networkx's `NodeNotFound` escaping for a missing origin. */
  ghost predicate DijkstraContract(g: Graph, origen: string, destino: string, algoritmo: string, r: Outcome) {
    && ((origen !in g.adj) <==> r == Raised(NodeNotFound(origen)))
    && (r.Found? <==> origen in g.adj && Reachable(g, origen, destino))
    && (r.Found? ==> IsRouteResult(g, origen, destino, r.result, algoritmo)
                     && forall q :: IsPathBetween(g, origen, destino, q) ==> r.result.distanciaTotal <= PathCost(g, q))
    && (r.Message? ==> r.text == NoRouteMessage(origen, destino))
    && (r.Raised? ==> r.exc == NodeNotFound(origen))
  }

  /** `nx.dijkstra_path`, `nx.dijkstra_path_length` and the segment loop, with
      `except nx.NetworkXNoPath` turning an unreachable destination into the
      no-route message. */
  method DijkstraRoute(g: Graph, origen: string, destino: string, algoritmo: string) returns (r: Outcome)
    requires WellFormed(g)
    ensures DijkstraContract(g, origen, destino, algoritmo, r)
  {
    if origen !in g.adj {
      return Raised(NodeNotFound(origen));
    }
    var ruta, longitud := ShortestPath(g, origen, destino);
    if ruta.None? {
      return Message(NoRouteMessage(origen, destino));
    }
    var tramos := BuildSegments(g, ruta.value);
    return Found(SearchResult(ruta.value, longitud, tramos, algoritmo));
  }
}
