/** The three route searches of `AlgoritmosBusqueda` and their comparison. */
module AlgoritmosBusqueda {
  import opened Graphs
  import opened Frontier
  import opened Reporting
  import opened ShortestPaths

  const VorazLabel: string := "Búsqueda Voraz"
  const AEstrellaLabel: string := "A* (A estrella)"
  const DijkstraLabel: string := "Dijkstra"

  /** What greedy best-first search and A* promise. */
  ghost predicate HeuristicContract(g: Graph, coords: map<string, Coord>, origen: string, destino: string,
                                    algoritmo: string, r: Outcome)
  {
    // the membership message, and only in that case
    && ((origen !in g.adj || destino !in g.adj) <==> r == Message(NotInGraphMessage))
    // a found route is a simple path of the graph with its cost and segments
    && (r.Found? ==> IsRouteResult(g, origen, destino, r.result, algoritmo))
    // the no-route message only when no path exists
    && (r.Message? ==> r.text == NotInGraphMessage || (r.text == NoRouteMessage(origen, destino) && !Reachable(g, origen, destino)))
    // a `KeyError` only for a node of the graph that has no coordinates
    && (r.Raised? ==> r.exc.KeyError? && r.exc.key in g.adj && r.exc.key !in coords)
    // the first pop already answers a search from a node to itself
    && (origen in g.adj && origen == destino && destino in coords ==> r == Found(SearchResult([origen], 0, [], algoritmo)))
  }

  /** The invariant of the `while frontera` loop of `busqueda_voraz`. */
  ghost predicate VorazInv(g: Graph, origen: string, destino: string, frontera: seq<Entry>, visitados: set<string>) {
    && visitados <= g.adj.Keys && destino !in visitados
    // only unvisited nodes are appended to a path whose nodes are all visited
    && (forall e :: e in frontera ==> ValidEntry(g, origen, e) && Distinct(e.path) && PrefixVisited(e.path, visitados))
    // the first pop is the origin's tuple, and it is expanded first
    && (visitados == {} ==> frontera == [Entry(0, origen, [origen], 0)])
    && (visitados != {} ==> origen in visitados)
    // every node next to a visited one is visited or waits in the frontier
    && (forall v, n :: v in visitados && Adjacent(g, v, n) ==> n in visitados || Waiting(frontera, n))
  }

  /** The invariant of the neighbour loop while `actual` is expanded. */
  ghost predicate VorazExpanding(g: Graph, origen: string, destino: string, frontera: seq<Entry>,
                                 visitados: set<string>, actual: Entry, vecinos: set<string>)
  {
    && visitados <= g.adj.Keys && destino !in visitados && actual.node in visitados
    && ValidEntry(g, origen, actual) && Distinct(actual.path) && PrefixVisited(actual.path, visitados)
    && vecinos <= g.adj[actual.node].Keys
    && (forall e :: e in frontera ==> ValidEntry(g, origen, e) && Distinct(e.path) && PrefixVisited(e.path, visitados))
    && origen in visitados
    && (forall v, n :: v in visitados && v != actual.node && Adjacent(g, v, n) ==> n in visitados || Waiting(frontera, n))
    && (forall n :: n in g.adj[actual.node] && n !in vecinos ==> n in visitados || Waiting(frontera, n))
  }

  /** Popping a tuple of an already visited node changes nothing else. */
  lemma VorazSkip(g: Graph, origen: string, destino: string, frontera: seq<Entry>, rest: seq<Entry>,
                  actual: Entry, visitados: set<string>)
    requires VorazInv(g, origen, destino, frontera, visitados)
    requires actual in frontera && actual.node in visitados
    requires forall x :: x in rest ==> x in frontera
    requires forall x :: x in frontera && x != actual ==> x in rest
    ensures VorazInv(g, origen, destino, rest, visitados)
  {
    forall v, n | v in visitados && Adjacent(g, v, n) && n !in visitados ensures Waiting(rest, n) {
      WaitingAfterPop(frontera, rest, actual, n);
    }
  }

  /** Marking the popped node visited starts its expansion. */
  lemma VorazStartExpand(g: Graph, origen: string, destino: string, frontera: seq<Entry>, rest: seq<Entry>,
                         actual: Entry, visitados: set<string>)
    requires VorazInv(g, origen, destino, frontera, visitados)
    requires actual in frontera && actual.node !in visitados && actual.node != destino
    requires forall x :: x in rest ==> x in frontera
    requires forall x :: x in frontera && x != actual ==> x in rest
    ensures actual.node in g.adj
    ensures VorazExpanding(g, origen, destino, rest, visitados + {actual.node}, actual, g.adj[actual.node].Keys)
  {
    var visitados' := visitados + {actual.node};
    forall v, n | v in visitados' && v != actual.node && Adjacent(g, v, n) && n !in visitados'
      ensures Waiting(rest, n)
    {
      WaitingAfterPop(frontera, rest, actual, n);
    }
  }

  /** Pushing `camino + [vecino]` for an unvisited neighbour. */
  lemma VorazPush(g: Graph, origen: string, destino: string, frontera: seq<Entry>, visitados: set<string>,
                  actual: Entry, vecinos: set<string>, vecino: string, priority: nat)
    requires WellFormed(g)
    requires VorazExpanding(g, origen, destino, frontera, visitados, actual, vecinos)
    requires vecino in vecinos && vecino !in visitados
    ensures Adjacent(g, actual.node, vecino)
    ensures VorazExpanding(g, origen, destino,
                           frontera + [Entry(priority, vecino, actual.path + [vecino], actual.cost + Weight(g, actual.node, vecino))],
                           visitados, actual, vecinos - {vecino})
  {
    var e := Entry(priority, vecino, actual.path + [vecino], actual.cost + Weight(g, actual.node, vecino));
    var frontera' := frontera + [e];
    ExtendEntry(g, origen, actual, vecino, priority);
    assert Distinct(e.path) by {
      assert forall k :: 0 <= k < |actual.path| ==> actual.path[k] in visitados;
    }
    assert PrefixVisited(e.path, visitados) by {
      assert forall k :: 0 <= k < |actual.path| ==> actual.path[k] in visitados;
    }
    forall v, n | v in visitados && v != actual.node && Adjacent(g, v, n) && n !in visitados
      ensures Waiting(frontera', n)
    {
      WaitingGrows(frontera, frontera', n);
    }
    forall n | n in g.adj[actual.node] && n !in vecinos - {vecino} && n !in visitados
      ensures Waiting(frontera', n)
    {
      if n != vecino {
        WaitingGrows(frontera, frontera', n);
      } else {
        assert e in frontera';
      }
    }
  }

  /** Pushing the tuple of a pending unvisited neighbour handles it. */
  lemma VorazPushesStep(g: Graph, coords: map<string, Coord>, destCoords: Coord, geodesic: (Coord, Coord) -> nat,
                        visitados: set<string>, actual: Entry, pendientes: set<string>, pushed: seq<Entry>, e: Entry)
    requires VorazPushes(g, coords, destCoords, geodesic, visitados, actual, pendientes, pushed)
    requires e.node in pendientes && Adjacent(g, actual.node, e.node) && e.node !in visitados && e.node in coords
    requires e.priority == geodesic(coords[e.node], destCoords)
    requires e.path == actual.path + [e.node] && e.cost == actual.cost + Weight(g, actual.node, e.node)
    ensures VorazPushes(g, coords, destCoords, geodesic, visitados, actual, pendientes - {e.node}, pushed + [e])
  {
    var pushed' := pushed + [e];
    forall i, j | 0 <= i < j < |pushed'| ensures pushed'[i].node != pushed'[j].node {
      if j == |pushed| {
        assert pushed[i] in pushed;
      }
    }
    forall n | Adjacent(g, actual.node, n) && n !in visitados && n !in pendientes - {e.node}
      ensures Waiting(pushed', n)
    {
      if n == e.node {
        assert e in pushed';
      } else {
        WaitingGrows(pushed, pushed', n);
      }
    }
  }

  /** A visited neighbour is handled without pushing anything. */
  lemma VorazPushesSkip(g: Graph, coords: map<string, Coord>, destCoords: Coord, geodesic: (Coord, Coord) -> nat,
                        visitados: set<string>, actual: Entry, pendientes: set<string>, pushed: seq<Entry>, n: string)
    requires VorazPushes(g, coords, destCoords, geodesic, visitados, actual, pendientes, pushed)
    requires n in visitados
    ensures VorazPushes(g, coords, destCoords, geodesic, visitados, actual, pendientes - {n}, pushed)
  {
  }

  /** With every neighbour handled, the outer invariant holds again. */
  lemma VorazExpanded(g: Graph, origen: string, destino: string, frontera: seq<Entry>, visitados: set<string>, actual: Entry)
    requires VorazExpanding(g, origen, destino, frontera, visitados, actual, {})
    ensures VorazInv(g, origen, destino, frontera, visitados)
  {
  }

  /** The tuples one expansion by greedy search has pushed so far: exactly one
      per unvisited neighbour of `actual` already handled (not in `pendientes`),
      whose priority is the heuristic distance of that neighbour alone, and
      whose path and cost are those of `actual` extended by the edge to it. */
  ghost predicate VorazPushes(g: Graph, coords: map<string, Coord>, destCoords: Coord, geodesic: (Coord, Coord) -> nat,
                              visitados: set<string>, actual: Entry, pendientes: set<string>, pushed: seq<Entry>)
  {
    && (forall e :: e in pushed ==>
          && Adjacent(g, actual.node, e.node) && e.node !in visitados && e.node !in pendientes && e.node in coords
          && e.priority == geodesic(coords[e.node], destCoords)
          && e.path == actual.path + [e.node]
          && e.cost == actual.cost + Weight(g, actual.node, e.node))
    && (forall i, j :: 0 <= i < j < |pushed| ==> pushed[i].node != pushed[j].node)
    && (forall n :: Adjacent(g, actual.node, n) && n !in visitados && n !in pendientes ==> Waiting(pushed, n))
  }

  /** The `for vecino in G.neighbors(actual)` loop of `busqueda_voraz`: each
      unvisited neighbour is pushed once, with its heuristic distance as
      priority; a neighbour without coordinates stops the search with a
      `KeyError`. */
  method ExpandirVoraz(g: Graph, origen: string, destino: string, coords: map<string, Coord>, destCoords: Coord,
                       geodesic: (Coord, Coord) -> nat, frontera0: seq<Entry>, visitados: set<string>, actual: Entry)
    returns (frontera: seq<Entry>, faltante: Option<string>)
    requires WellFormed(g)
    requires actual.node in g.adj
    requires VorazExpanding(g, origen, destino, frontera0, visitados, actual, g.adj[actual.node].Keys)
    ensures faltante.None? ==> VorazInv(g, origen, destino, frontera, visitados)
    // the old tuples stay, followed by one tuple per unvisited neighbour
    ensures faltante.None? ==> |frontera0| <= |frontera| && frontera[..|frontera0|] == frontera0
                               && VorazPushes(g, coords, destCoords, geodesic, visitados, actual, {}, frontera[|frontera0|..])
    ensures faltante.Some? ==> Adjacent(g, actual.node, faltante.value) && faltante.value !in visitados
                               && faltante.value !in coords
  {
    frontera := frontera0;
    var vecinos := g.adj[actual.node].Keys;
    while vecinos != {}
      invariant VorazExpanding(g, origen, destino, frontera, visitados, actual, vecinos)
      invariant |frontera0| <= |frontera| && frontera[..|frontera0|] == frontera0
      invariant VorazPushes(g, coords, destCoords, geodesic, visitados, actual, vecinos, frontera[|frontera0|..])
      decreases vecinos
    {
      var vecino :| vecino in vecinos;
      if vecino !in visitados {
        var nuevaDist := actual.cost + g.adj[actual.node][vecino];
        if vecino !in coords {
          assert Adjacent(g, actual.node, vecino);
          return frontera, Some(vecino);
        }
        var heuristica := geodesic(coords[vecino], destCoords);
        VorazPush(g, origen, destino, frontera, visitados, actual, vecinos, vecino, heuristica);
        var entrada := Entry(heuristica, vecino, actual.path + [vecino], nuevaDist);
        VorazPushesStep(g, coords, destCoords, geodesic, visitados, actual, vecinos, frontera[|frontera0|..], entrada);
        assert (frontera + [entrada])[|frontera0|..] == frontera[|frontera0|..] + [entrada];
        frontera := frontera + [entrada];
      } else {
        VorazPushesSkip(g, coords, destCoords, geodesic, visitados, actual, vecinos, frontera[|frontera0|..], vecino);
      }
      vecinos := vecinos - {vecino};
    }
    VorazExpanded(g, origen, destino, frontera, visitados, actual);
    return frontera, None;
  }

  /** `busqueda_voraz`: greedy best-first search; the priority of a tuple is the
      heuristic distance from its node to the destination alone. */
  method BusquedaVoraz(g: Graph, origen: string, destino: string, coords: map<string, Coord>,
                       geodesic: (Coord, Coord) -> nat)
    returns (r: Outcome)
    requires WellFormed(g)
    ensures HeuristicContract(g, coords, origen, destino, VorazLabel, r)
  {
    MessagesDiffer(origen, destino);
    if origen !in g.adj || destino !in g.adj {
      return Message(NotInGraphMessage);
    }
    if destino !in coords {
      return Raised(KeyError(destino));
    }
    var destCoords := coords[destino];
    var frontera := [Entry(0, origen, [origen], 0)];
    var visitados: set<string> := {};
    while |frontera| > 0
      invariant VorazInv(g, origen, destino, frontera, visitados)
      decreases |g.adj.Keys - visitados|, |frontera|
    {
      var actual, rest := PopMin(frontera);
      if actual.node == destino {
        var tramos := BuildSegments(g, actual.path);
        if origen == destino {
          assert actual.path == [origen];
        }
        return Found(SearchResult(actual.path, actual.cost, tramos, VorazLabel));
      }
      if actual.node in visitados {
        VorazSkip(g, origen, destino, frontera, rest, actual, visitados);
        frontera := rest;
        continue;
      }
      VorazStartExpand(g, origen, destino, frontera, rest, actual, visitados);
      FewerUnvisited(g.adj.Keys, visitados, actual.node);
      frontera := rest;
      visitados := visitados + {actual.node};
      var faltante;
      frontera, faltante := ExpandirVoraz(g, origen, destino, coords, destCoords, geodesic, frontera, visitados, actual);
      if faltante.Some? {
        return Raised(KeyError(faltante.value));
      }
    }
    assert origen in visitados;
    ClosedSetUnreachable(g, visitados, origen, destino);
    return Message(NoRouteMessage(origen, destino));
  }

  /** Every node on `p` has a recorded best cost, at most the cost of the prefix of `p` reaching it. */
  ghost predicate ScoresBelow(g: Graph, gScores: map<string, nat>, p: seq<string>)
    requires Linked(g, p)
  {
    forall k :: 0 <= k < |p| ==> p[k] in gScores && (LinkedPrefix(g, p, k + 1); gScores[p[k]] <= PathCost(g, p[..k + 1]))
  }

  /** A tuple of the A* frontier: a valid simple path whose nodes all lie below their best costs. */
  ghost predicate AEstrellaEntry(g: Graph, origen: string, gScores: map<string, nat>, e: Entry) {
    ValidEntry(g, origen, e) && Distinct(e.path) && ScoresBelow(g, gScores, e.path)
  }

  /** The invariant of the `while frontera` loop of `a_estrella`. */
  ghost predicate AEstrellaInv(g: Graph, origen: string, destino: string, frontera: seq<Entry>,
                               visitados: set<string>, gScores: map<string, nat>)
  {
    && visitados <= g.adj.Keys && destino !in visitados && gScores.Keys <= g.adj.Keys
    && (forall e :: e in frontera ==> AEstrellaEntry(g, origen, gScores, e))
    && (visitados == {} ==> frontera == [Entry(0, origen, [origen], 0)] && gScores == map[origen := 0])
    && (visitados != {} ==> origen in visitados)
    // a node with a recorded cost is visited or still waits to be popped
    && (forall m :: m in gScores ==> m in visitados || Waiting(frontera, m))
    // every neighbour of a visited node has a recorded cost
    && (forall v, n :: v in visitados && Adjacent(g, v, n) ==> n in gScores)
  }

  /** The invariant of the neighbour loop while `actual` is expanded by A*. */
  ghost predicate AEstrellaExpanding(g: Graph, origen: string, destino: string, frontera: seq<Entry>,
                                     visitados: set<string>, gScores: map<string, nat>, actual: Entry, vecinos: set<string>)
  {
    && visitados <= g.adj.Keys && destino !in visitados && gScores.Keys <= g.adj.Keys
    && actual.node in visitados && AEstrellaEntry(g, origen, gScores, actual)
    && vecinos <= g.adj[actual.node].Keys
    && (forall e :: e in frontera ==> AEstrellaEntry(g, origen, gScores, e))
    && origen in visitados
    && (forall m :: m in gScores ==> m in visitados || Waiting(frontera, m))
    && (forall v, n :: v in visitados && v != actual.node && Adjacent(g, v, n) ==> n in gScores)
    && (forall n :: n in g.adj[actual.node] && n !in vecinos ==> n in gScores)
  }

  /** Lowering one recorded cost keeps every path below its best costs. */
  lemma ScoresBelowLowered(g: Graph, gScores: map<string, nat>, p: seq<string>, n: string, c: nat)
    requires Linked(g, p) && ScoresBelow(g, gScores, p)
    requires n in gScores ==> c <= gScores[n]
    requires n in p ==> n in gScores
    ensures ScoresBelow(g, gScores[n := c], p)
  {
    forall k | 0 <= k < |p|
      ensures p[k] in gScores[n := c] && (LinkedPrefix(g, p, k + 1); gScores[n := c][p[k]] <= PathCost(g, p[..k + 1]))
    {
      LinkedPrefix(g, p, k + 1);
      assert p[k] in gScores && gScores[p[k]] <= PathCost(g, p[..k + 1]);
    }
  }

  /** Lowering a recorded cost keeps every tuple of the frontier valid. */
  lemma AEstrellaEntriesLowered(g: Graph, origen: string, gScores: map<string, nat>, frontera: seq<Entry>, n: string, c: nat)
    requires forall e :: e in frontera ==> AEstrellaEntry(g, origen, gScores, e)
    requires n in gScores && c <= gScores[n]
    ensures forall e :: e in frontera ==> AEstrellaEntry(g, origen, gScores[n := c], e)
  {
    forall e | e in frontera ensures AEstrellaEntry(g, origen, gScores[n := c], e) {
      ScoresBelowLowered(g, gScores, e.path, n, c);
    }
  }

  /** A pruned tentative cost can only be one that is no strict improvement;
      a neighbour already on the path of `actual` is always pruned. */
  lemma NotOnPath(g: Graph, origen: string, gScores: map<string, nat>, actual: Entry, vecino: string)
    requires WellFormed(g) && AEstrellaEntry(g, origen, gScores, actual) && Adjacent(g, actual.node, vecino)
    requires !(vecino in gScores && actual.cost + Weight(g, actual.node, vecino) >= gScores[vecino])
    ensures vecino !in actual.path
  {
    if vecino in actual.path {
      var k :| 0 <= k < |actual.path| && actual.path[k] == vecino;
      LinkedPrefix(g, actual.path, k + 1);
      assert gScores[vecino] <= PathCost(g, actual.path[..k + 1]);
      PathCostPrefix(g, actual.path, k + 1);
    }
  }

  lemma AEstrellaSkip(g: Graph, origen: string, destino: string, frontera: seq<Entry>, rest: seq<Entry>,
                      actual: Entry, visitados: set<string>, gScores: map<string, nat>)
    requires AEstrellaInv(g, origen, destino, frontera, visitados, gScores)
    requires actual in frontera && actual.node in visitados
    requires forall x :: x in rest ==> x in frontera
    requires forall x :: x in frontera && x != actual ==> x in rest
    ensures AEstrellaInv(g, origen, destino, rest, visitados, gScores)
  {
    forall m | m in gScores && m !in visitados ensures Waiting(rest, m) {
      WaitingAfterPop(frontera, rest, actual, m);
    }
  }

  lemma AEstrellaStartExpand(g: Graph, origen: string, destino: string, frontera: seq<Entry>, rest: seq<Entry>,
                             actual: Entry, visitados: set<string>, gScores: map<string, nat>)
    requires AEstrellaInv(g, origen, destino, frontera, visitados, gScores)
    requires actual in frontera && actual.node !in visitados && actual.node != destino
    requires forall x :: x in rest ==> x in frontera
    requires forall x :: x in frontera && x != actual ==> x in rest
    ensures actual.node in g.adj
    ensures AEstrellaExpanding(g, origen, destino, rest, visitados + {actual.node}, gScores, actual, g.adj[actual.node].Keys)
  {
    var visitados' := visitados + {actual.node};
    forall m | m in gScores && m !in visitados' ensures Waiting(rest, m) {
      WaitingAfterPop(frontera, rest, actual, m);
    }
  }

  /** A neighbour with no strict improvement is skipped. */
  lemma AEstrellaPrune(g: Graph, origen: string, destino: string, frontera: seq<Entry>, visitados: set<string>,
                       gScores: map<string, nat>, actual: Entry, vecinos: set<string>, vecino: string)
    requires AEstrellaExpanding(g, origen, destino, frontera, visitados, gScores, actual, vecinos)
    requires vecino in vecinos && vecino in gScores
    ensures AEstrellaExpanding(g, origen, destino, frontera, visitados, gScores, actual, vecinos - {vecino})
  {
  }

  /** A strict improvement is recorded and pushed. */
  lemma AEstrellaPush(g: Graph, origen: string, destino: string, frontera: seq<Entry>, visitados: set<string>,
                      gScores: map<string, nat>, actual: Entry, vecinos: set<string>, vecino: string, c: nat, e: Entry)
    requires WellFormed(g)
    requires AEstrellaExpanding(g, origen, destino, frontera, visitados, gScores, actual, vecinos)
    requires vecino in vecinos
    requires c == actual.cost + g.adj[actual.node][vecino]
    requires !(vecino in gScores && c >= gScores[vecino])
    requires e.node == vecino && e.path == actual.path + [vecino] && e.cost == c
    ensures Adjacent(g, actual.node, vecino) && vecino in g.adj
    ensures AEstrellaExpanding(g, origen, destino, frontera + [e], visitados, gScores[vecino := c], actual, vecinos - {vecino})
  {
    var frontera' := frontera + [e];
    var gScores' := gScores[vecino := c];
    NewEntryBelow(g, origen, gScores, actual, vecino, c, e);
    // the best costs of the old tuples only went down
    forall x | x in frontera ensures AEstrellaEntry(g, origen, gScores', x) {
      ScoresBelowLowered(g, gScores, x.path, vecino, c);
    }
    forall m | m in gScores' && m !in visitados ensures Waiting(frontera', m) {
      if m == vecino {
        assert e in frontera';
      } else {
        WaitingGrows(frontera, frontera', m);
      }
    }
  }

  /** The tuple pushed for a strict improvement lies below the lowered best
      costs, and so does the path of `actual`. */
  lemma NewEntryBelow(g: Graph, origen: string, gScores: map<string, nat>, actual: Entry, vecino: string, c: nat, e: Entry)
    requires WellFormed(g) && AEstrellaEntry(g, origen, gScores, actual) && Adjacent(g, actual.node, vecino)
    requires c == actual.cost + Weight(g, actual.node, vecino)
    requires !(vecino in gScores && c >= gScores[vecino])
    requires e.node == vecino && e.path == actual.path + [vecino] && e.cost == c
    ensures AEstrellaEntry(g, origen, gScores[vecino := c], e)
    ensures AEstrellaEntry(g, origen, gScores[vecino := c], actual)
  {
    var gScores' := gScores[vecino := c];
    NotOnPath(g, origen, gScores, actual, vecino);
    ExtendEntry(g, origen, actual, vecino, e.priority);
    assert Distinct(e.path);
    ScoresBelowLowered(g, gScores, actual.path, vecino, c);
    // the prefix of the new tuple is the path of `actual`, its last node has cost `c`
    forall k | 0 <= k < |e.path|
      ensures e.path[k] in gScores' && (LinkedPrefix(g, e.path, k + 1); gScores'[e.path[k]] <= PathCost(g, e.path[..k + 1]))
    {
      LinkedPrefix(g, e.path, k + 1);
      if k < |actual.path| {
        assert e.path[..k + 1] == actual.path[..k + 1];
        LinkedPrefix(g, actual.path, k + 1);
      } else {
        assert e.path[..k + 1] == e.path;
      }
    }
  }

  /** What one expansion by A* has done so far to the frontier and the best
      costs: a tuple is pushed for exactly the handled neighbours (not in
      `pendientes`) whose tentative cost strictly improves on their recorded
      best cost, or that have none; its priority is that cost plus the
      heuristic distance; the cost becomes the neighbour's recorded best cost,
      and every other recorded cost is left as it was. */
  ghost predicate AEstrellaPushes(g: Graph, coords: map<string, Coord>, destCoords: Coord, geodesic: (Coord, Coord) -> nat,
                                  gScores0: map<string, nat>, actual: Entry, pendientes: set<string>,
                                  pushed: seq<Entry>, gScores: map<string, nat>)
  {
    && AEstrellaPushed(g, coords, destCoords, geodesic, gScores0, actual, pendientes, pushed, gScores)
    && (forall n :: (Adjacent(g, actual.node, n) && n !in pendientes
                     && (n !in gScores0 || actual.cost + Weight(g, actual.node, n) < gScores0[n])) ==> Waiting(pushed, n))
    && AEstrellaScores(gScores0, pushed, gScores)
  }

  /** Each pushed tuple, one per node, extends the path of `actual` to a handled
      neighbour with a strictly better cost, which is now its recorded cost;
      its priority is that cost plus the heuristic distance. */
  ghost predicate AEstrellaPushed(g: Graph, coords: map<string, Coord>, destCoords: Coord, geodesic: (Coord, Coord) -> nat,
                                  gScores0: map<string, nat>, actual: Entry, pendientes: set<string>,
                                  pushed: seq<Entry>, gScores: map<string, nat>)
  {
    && (forall e :: e in pushed ==>
          && Adjacent(g, actual.node, e.node) && e.node !in pendientes && e.node in coords
          && e.path == actual.path + [e.node]
          && e.cost == actual.cost + Weight(g, actual.node, e.node)
          && (e.node !in gScores0 || e.cost < gScores0[e.node])
          && e.priority == e.cost + geodesic(coords[e.node], destCoords)
          && e.node in gScores && gScores[e.node] == e.cost)
    && (forall i, j :: 0 <= i < j < |pushed| ==> pushed[i].node != pushed[j].node)
  }

  /** The recorded costs are the old ones, plus one for each pushed node. */
  ghost predicate AEstrellaScores(gScores0: map<string, nat>, pushed: seq<Entry>, gScores: map<string, nat>) {
    && (forall m :: m in gScores <==> m in gScores0 || Waiting(pushed, m))
    && (forall m :: m in gScores0 && !Waiting(pushed, m) ==> gScores[m] == gScores0[m])
  }

  lemma AEstrellaPushedStep(g: Graph, coords: map<string, Coord>, destCoords: Coord, geodesic: (Coord, Coord) -> nat,
                            gScores0: map<string, nat>, actual: Entry, pendientes: set<string>,
                            pushed: seq<Entry>, gScores: map<string, nat>, e: Entry)
    requires AEstrellaPushed(g, coords, destCoords, geodesic, gScores0, actual, pendientes, pushed, gScores)
    requires !Waiting(pushed, e.node)
    requires Adjacent(g, actual.node, e.node) && e.node in coords
    requires e.path == actual.path + [e.node] && e.cost == actual.cost + Weight(g, actual.node, e.node)
    requires e.node !in gScores0 || e.cost < gScores0[e.node]
    requires e.priority == e.cost + geodesic(coords[e.node], destCoords)
    ensures AEstrellaPushed(g, coords, destCoords, geodesic, gScores0, actual, pendientes - {e.node},
                            pushed + [e], gScores[e.node := e.cost])
  {
    var pushed', gScores' := pushed + [e], gScores[e.node := e.cost];
    forall i, j | 0 <= i < j < |pushed'| ensures pushed'[i].node != pushed'[j].node {
      if j == |pushed| {
        assert pushed[i] in pushed;
      }
    }
    forall x | x in pushed' ensures x.node in gScores' && gScores'[x.node] == x.cost {
      if x != e {
        assert x in pushed;
      }
    }
  }

  lemma AEstrellaScoresStep(gScores0: map<string, nat>, pushed: seq<Entry>, gScores: map<string, nat>, e: Entry)
    requires AEstrellaScores(gScores0, pushed, gScores)
    ensures AEstrellaScores(gScores0, pushed + [e], gScores[e.node := e.cost])
  {
    var pushed', gScores' := pushed + [e], gScores[e.node := e.cost];
    forall m ensures m in gScores' <==> m in gScores0 || Waiting(pushed', m) {
      if Waiting(pushed, m) {
        WaitingGrows(pushed, pushed', m);
      }
      if m == e.node {
        assert e in pushed';
      }
      if Waiting(pushed', m) && m != e.node {
        var x :| x in pushed' && x.node == m;
        assert x in pushed;
      }
    }
    forall m | m in gScores0 && !Waiting(pushed', m) ensures gScores'[m] == gScores0[m] {
      if Waiting(pushed, m) {
        WaitingGrows(pushed, pushed', m);
      }
      assert e in pushed';
    }
  }

  /** Recording and pushing the strict improvement of a pending neighbour handles it. */
  lemma AEstrellaPushesStep(g: Graph, coords: map<string, Coord>, destCoords: Coord, geodesic: (Coord, Coord) -> nat,
                            gScores0: map<string, nat>, actual: Entry, pendientes: set<string>,
                            pushed: seq<Entry>, gScores: map<string, nat>, e: Entry)
    requires AEstrellaPushes(g, coords, destCoords, geodesic, gScores0, actual, pendientes, pushed, gScores)
    requires e.node in pendientes && Adjacent(g, actual.node, e.node) && e.node in coords
    requires e.path == actual.path + [e.node] && e.cost == actual.cost + Weight(g, actual.node, e.node)
    requires e.node !in gScores || e.cost < gScores[e.node]
    requires e.priority == e.cost + geodesic(coords[e.node], destCoords)
    ensures AEstrellaPushes(g, coords, destCoords, geodesic, gScores0, actual, pendientes - {e.node},
                            pushed + [e], gScores[e.node := e.cost])
  {
    var pushed' := pushed + [e];
    // a pending neighbour has not been pushed yet, so its recorded cost is the one it started with
    assert !Waiting(pushed, e.node);
    AEstrellaPushedStep(g, coords, destCoords, geodesic, gScores0, actual, pendientes, pushed, gScores, e);
    AEstrellaScoresStep(gScores0, pushed, gScores, e);
    forall n | Adjacent(g, actual.node, n) && n !in pendientes - {e.node}
               && (n !in gScores0 || actual.cost + Weight(g, actual.node, n) < gScores0[n])
      ensures Waiting(pushed', n)
    {
      if n == e.node {
        assert e in pushed';
      } else {
        WaitingGrows(pushed, pushed', n);
      }
    }
  }

  /** A neighbour with no strict improvement is handled without any change. */
  lemma AEstrellaPushesPrune(g: Graph, coords: map<string, Coord>, destCoords: Coord, geodesic: (Coord, Coord) -> nat,
                             gScores0: map<string, nat>, actual: Entry, pendientes: set<string>,
                             pushed: seq<Entry>, gScores: map<string, nat>, n: string)
    requires AEstrellaPushes(g, coords, destCoords, geodesic, gScores0, actual, pendientes, pushed, gScores)
    requires n in pendientes && Adjacent(g, actual.node, n)
    requires n in gScores && actual.cost + Weight(g, actual.node, n) >= gScores[n]
    ensures AEstrellaPushes(g, coords, destCoords, geodesic, gScores0, actual, pendientes - {n}, pushed, gScores)
  {
    assert !Waiting(pushed, n);
  }

  /** A pending neighbour has no tuple yet and keeps the recorded cost it started with. */
  lemma AEstrellaPending(g: Graph, coords: map<string, Coord>, destCoords: Coord, geodesic: (Coord, Coord) -> nat,
                         gScores0: map<string, nat>, actual: Entry, pendientes: set<string>,
                         pushed: seq<Entry>, gScores: map<string, nat>, n: string)
    requires AEstrellaPushes(g, coords, destCoords, geodesic, gScores0, actual, pendientes, pushed, gScores)
    requires n in pendientes
    ensures !Waiting(pushed, n)
    ensures n in gScores <==> n in gScores0
    ensures n in gScores ==> gScores[n] == gScores0[n]
  {
  }

  /** An expansion only lowers recorded costs and forgets none. */
  lemma AEstrellaLowers(g: Graph, coords: map<string, Coord>, destCoords: Coord, geodesic: (Coord, Coord) -> nat,
                        gScores0: map<string, nat>, actual: Entry, pendientes: set<string>,
                        pushed: seq<Entry>, gScores: map<string, nat>)
    requires AEstrellaPushes(g, coords, destCoords, geodesic, gScores0, actual, pendientes, pushed, gScores)
    ensures forall m :: m in gScores0 ==> m in gScores && gScores[m] <= gScores0[m]
  {
    forall m | m in gScores0 ensures m in gScores && gScores[m] <= gScores0[m] {
      if Waiting(pushed, m) {
        var e :| e in pushed && e.node == m;
      }
    }
  }

  lemma AEstrellaExpanded(g: Graph, origen: string, destino: string, frontera: seq<Entry>, visitados: set<string>,
                          gScores: map<string, nat>, actual: Entry)
    requires AEstrellaExpanding(g, origen, destino, frontera, visitados, gScores, actual, {})
    ensures AEstrellaInv(g, origen, destino, frontera, visitados, gScores)
  {
  }

  /** The invariant of the neighbour loop of `a_estrella`: the expansion so
      far keeps the A* invariant, keeps the old tuples in front, and has pushed
      what `AEstrellaPushes` says for the neighbours no longer in `vecinos`. */
  ghost predicate AEstrellaVecinos(g: Graph, origen: string, destino: string, coords: map<string, Coord>, destCoords: Coord,
                          geodesic: (Coord, Coord) -> nat, visitados: set<string>, actual: Entry,
                          frontera0: seq<Entry>, gScores0: map<string, nat>,
                          frontera: seq<Entry>, gScores: map<string, nat>, vecinos: set<string>)
  {
    && AEstrellaExpanding(g, origen, destino, frontera, visitados, gScores, actual, vecinos)
    && |frontera0| <= |frontera| && frontera[..|frontera0|] == frontera0
    && AEstrellaPushes(g, coords, destCoords, geodesic, gScores0, actual, vecinos, frontera[|frontera0|..], gScores)
  }

  lemma AEstrellaVecinosStart(g: Graph, origen: string, destino: string, coords: map<string, Coord>, destCoords: Coord,
                          geodesic: (Coord, Coord) -> nat, visitados: set<string>, actual: Entry,
                          frontera0: seq<Entry>, gScores0: map<string, nat>)
    requires actual.node in g.adj
    requires AEstrellaExpanding(g, origen, destino, frontera0, visitados, gScores0, actual, g.adj[actual.node].Keys)
    ensures AEstrellaVecinos(g, origen, destino, coords, destCoords, geodesic, visitados, actual, frontera0, gScores0, frontera0, gScores0, g.adj[actual.node].Keys)
  {
    assert frontera0[|frontera0|..] == [];
  }

  /** A neighbour whose tentative cost is no strict improvement is skipped. */
  lemma AEstrellaVecinosPrune(g: Graph, origen: string, destino: string, coords: map<string, Coord>, destCoords: Coord,
                          geodesic: (Coord, Coord) -> nat, visitados: set<string>, actual: Entry,
                          frontera0: seq<Entry>, gScores0: map<string, nat>,
                              frontera: seq<Entry>, gScores: map<string, nat>, vecinos: set<string>, vecino: string)
    requires WellFormed(g)
    requires AEstrellaVecinos(g, origen, destino, coords, destCoords, geodesic, visitados, actual, frontera0, gScores0, frontera, gScores, vecinos)
    requires vecino in vecinos && vecino in gScores && actual.cost + g.adj[actual.node][vecino] >= gScores[vecino]
    ensures AEstrellaVecinos(g, origen, destino, coords, destCoords, geodesic, visitados, actual, frontera0, gScores0, frontera, gScores, vecinos - {vecino})
  {
    AEstrellaPrune(g, origen, destino, frontera, visitados, gScores, actual, vecinos, vecino);
    AEstrellaPushesPrune(g, coords, destCoords, geodesic, gScores0, actual, vecinos, frontera[|frontera0|..], gScores, vecino);
  }

  /** A strictly improved neighbour without coordinates: its cost was recorded
      before `coords[vecino]` raises, and no recorded cost went up. */
  lemma AEstrellaVecinosMissing(g: Graph, origen: string, destino: string, coords: map<string, Coord>, destCoords: Coord,
                          geodesic: (Coord, Coord) -> nat, visitados: set<string>, actual: Entry,
                          frontera0: seq<Entry>, gScores0: map<string, nat>,
                                frontera: seq<Entry>, gScores: map<string, nat>, vecinos: set<string>, vecino: string)
    requires AEstrellaVecinos(g, origen, destino, coords, destCoords, geodesic, visitados, actual, frontera0, gScores0, frontera, gScores, vecinos)
    requires vecino in vecinos && !(vecino in gScores && actual.cost + g.adj[actual.node][vecino] >= gScores[vecino])
    ensures Adjacent(g, actual.node, vecino)
    ensures vecino !in gScores0 || actual.cost + Weight(g, actual.node, vecino) < gScores0[vecino]
    ensures forall m :: m in gScores0 ==> m in gScores[vecino := actual.cost + g.adj[actual.node][vecino]]
                                          && gScores[vecino := actual.cost + g.adj[actual.node][vecino]][m] <= gScores0[m]
  {
    AEstrellaPending(g, coords, destCoords, geodesic, gScores0, actual, vecinos, frontera[|frontera0|..], gScores, vecino);
    AEstrellaLowers(g, coords, destCoords, geodesic, gScores0, actual, vecinos, frontera[|frontera0|..], gScores);
  }

  /** A strictly improved neighbour with coordinates: its cost is recorded and
      its tuple pushed with priority cost plus heuristic. */
  lemma AEstrellaVecinosPush(g: Graph, origen: string, destino: string, coords: map<string, Coord>, destCoords: Coord,
                          geodesic: (Coord, Coord) -> nat, visitados: set<string>, actual: Entry,
                          frontera0: seq<Entry>, gScores0: map<string, nat>,
                             frontera: seq<Entry>, gScores: map<string, nat>, vecinos: set<string>, e: Entry)
    requires WellFormed(g)
    requires AEstrellaVecinos(g, origen, destino, coords, destCoords, geodesic, visitados, actual, frontera0, gScores0, frontera, gScores, vecinos)
    requires e.node in vecinos && e.node in coords
    requires e.cost == actual.cost + g.adj[actual.node][e.node] && !(e.node in gScores && e.cost >= gScores[e.node])
    requires e.path == actual.path + [e.node] && e.priority == e.cost + geodesic(coords[e.node], destCoords)
    ensures AEstrellaVecinos(g, origen, destino, coords, destCoords, geodesic, visitados, actual, frontera0, gScores0, frontera + [e], gScores[e.node := e.cost], vecinos - {e.node})
  {
    PushKeepsFront(frontera0, frontera, e);
    AEstrellaPush(g, origen, destino, frontera, visitados, gScores, actual, vecinos, e.node, e.cost, e);
    AEstrellaPushesStep(g, coords, destCoords, geodesic, gScores0, actual, vecinos, frontera[|frontera0|..], gScores, e);
  }

  /** Every neighbour handled: the A* invariant holds again and no recorded cost went up. */
  lemma AEstrellaVecinosDone(g: Graph, origen: string, destino: string, coords: map<string, Coord>, destCoords: Coord,
                          geodesic: (Coord, Coord) -> nat, visitados: set<string>, actual: Entry,
                          frontera0: seq<Entry>, gScores0: map<string, nat>,
                             frontera: seq<Entry>, gScores: map<string, nat>)
    requires AEstrellaVecinos(g, origen, destino, coords, destCoords, geodesic, visitados, actual, frontera0, gScores0, frontera, gScores, {})
    ensures AEstrellaInv(g, origen, destino, frontera, visitados, gScores)
    ensures forall m :: m in gScores0 ==> m in gScores && gScores[m] <= gScores0[m]
  {
    AEstrellaExpanded(g, origen, destino, frontera, visitados, gScores, actual);
    AEstrellaLowers(g, coords, destCoords, geodesic, gScores0, actual, {}, frontera[|frontera0|..], gScores);
  }

  /** The `for vecino in G.neighbors(actual)` loop of `a_estrella`: a neighbour
      whose tentative cost is no strict improvement on its recorded best cost is
      skipped; otherwise the cost is recorded and the tuple pushed with priority
      cost plus heuristic. A neighbour without coordinates raises `KeyError`. */
  method ExpandirAEstrella(g: Graph, origen: string, destino: string, coords: map<string, Coord>, destCoords: Coord,
                           geodesic: (Coord, Coord) -> nat, frontera0: seq<Entry>, visitados: set<string>,
                           gScores0: map<string, nat>, actual: Entry)
    returns (frontera: seq<Entry>, gScores: map<string, nat>, faltante: Option<string>)
    requires WellFormed(g)
    requires actual.node in g.adj
    requires AEstrellaExpanding(g, origen, destino, frontera0, visitados, gScores0, actual, g.adj[actual.node].Keys)
    ensures faltante.None? ==> AEstrellaInv(g, origen, destino, frontera, visitados, gScores)
    // the old tuples stay, followed by one tuple per strictly improved neighbour
    ensures faltante.None? ==> |frontera0| <= |frontera| && frontera[..|frontera0|] == frontera0
                               && AEstrellaPushes(g, coords, destCoords, geodesic, gScores0, actual, {},
                                                  frontera[|frontera0|..], gScores)
    ensures faltante.Some? ==> Adjacent(g, actual.node, faltante.value) && faltante.value !in coords
                               && (faltante.value !in gScores0
                                   || actual.cost + Weight(g, actual.node, faltante.value) < gScores0[faltante.value])
    // recorded best costs only ever go down, and no recorded node is forgotten
    ensures forall m :: m in gScores0 ==> m in gScores && gScores[m] <= gScores0[m]
  {
    frontera, gScores := frontera0, gScores0;
    var vecinos := g.adj[actual.node].Keys;
    AEstrellaVecinosStart(g, origen, destino, coords, destCoords, geodesic, visitados, actual, frontera0, gScores0);
    while vecinos != {}
      invariant AEstrellaVecinos(g, origen, destino, coords, destCoords, geodesic, visitados, actual, frontera0, gScores0, frontera, gScores, vecinos)
      decreases vecinos
    {
      var vecino :| vecino in vecinos;
      var tentative := actual.cost + g.adj[actual.node][vecino];
      if vecino in gScores && tentative >= gScores[vecino] {
        AEstrellaVecinosPrune(g, origen, destino, coords, destCoords, geodesic, visitados, actual, frontera0, gScores0, frontera, gScores, vecinos, vecino);
        vecinos := vecinos - {vecino};
        continue;
      }
      if vecino !in coords {
        AEstrellaVecinosMissing(g, origen, destino, coords, destCoords, geodesic, visitados, actual, frontera0, gScores0, frontera, gScores, vecinos, vecino);
        return frontera, gScores[vecino := tentative], Some(vecino);
      }
      var hScore := geodesic(coords[vecino], destCoords);
      var fScore := tentative + hScore;
      var entrada := Entry(fScore, vecino, actual.path + [vecino], tentative);
      AEstrellaVecinosPush(g, origen, destino, coords, destCoords, geodesic, visitados, actual, frontera0, gScores0, frontera, gScores, vecinos, entrada);
      gScores := gScores[vecino := tentative];
      frontera := frontera + [entrada];
      vecinos := vecinos - {vecino};
    }
    AEstrellaVecinosDone(g, origen, destino, coords, destCoords, geodesic, visitados, actual, frontera0, gScores0, frontera, gScores);
    return frontera, gScores, None;
  }

  /** A consistent heuristic: every node has coordinates, and across every edge
      the heuristic distance to the destination drops by at most the edge's weight. */
  ghost predicate Consistent(g: Graph, coords: map<string, Coord>, destino: string, geodesic: (Coord, Coord) -> nat) {
    && g.adj.Keys <= coords.Keys && destino in coords
    && forall u, v :: Adjacent(g, u, v) && u in coords && v in coords ==>
         geodesic(coords[u], coords[destino]) <= Weight(g, u, v) + geodesic(coords[v], coords[destino])
  }

  /** Under a consistent heuristic, the cost of a path up to its `i`-th node plus
      that node's heuristic distance is at most the cost of the whole path plus
      the heuristic distance of its last node. */
  lemma {:induction false} EstimateAlongPath(g: Graph, coords: map<string, Coord>, destino: string,
                                             geodesic: (Coord, Coord) -> nat, p: seq<string>, i: nat)
    requires Consistent(g, coords, destino, geodesic)
    requires Linked(g, p) && i < |p| && forall k :: 0 <= k < |p| ==> p[k] in g.adj
    ensures Linked(g, p[..i + 1])
    ensures PathCost(g, p[..i + 1]) + geodesic(coords[p[i]], coords[destino])
            <= PathCost(g, p) + geodesic(coords[p[|p| - 1]], coords[destino])
    decreases |p|
  {
    LinkedPrefix(g, p, i + 1);
    if i == |p| - 1 {
      assert p[..i + 1] == p;
    } else {
      var q := p[..|p| - 1];
      LinkedPrefix(g, p, |p| - 1);
      EstimateAlongPath(g, coords, destino, geodesic, q, i);
      assert q[..i + 1] == p[..i + 1];
      assert Adjacent(g, p[|p| - 2], p[|p| - 1]);
    }
  }

  /** The cost bookkeeping of `a_estrella`: `dist` holds the cost with which each
      visited node was expanded; once the origin is expanded, every tuple's
      priority is its cost plus its node's heuristic distance; a recorded node not
      yet visited waits with a tuple no dearer than its recorded best cost; and
      every neighbour of a visited node has a recorded best cost no dearer than
      the route through that node. */
  ghost predicate AEstrellaCosts(g: Graph, coords: map<string, Coord>, destCoords: Coord, geodesic: (Coord, Coord) -> nat,
                                 frontera: seq<Entry>, visitados: set<string>, gScores: map<string, nat>,
                                 dist: map<string, nat>)
  {
    && dist.Keys == visitados
    && (visitados != {} ==>
          forall e :: e in frontera ==> e.node in coords && e.priority == e.cost + geodesic(coords[e.node], destCoords))
    && (forall m :: m in gScores && m !in visitados ==> exists w :: w in frontera && w.node == m && w.cost <= gScores[m])
    && (forall v, n :: v in visitados && Adjacent(g, v, n) ==> n in gScores && gScores[n] <= dist[v] + Weight(g, v, n))
  }

  /** Under a consistent heuristic, the smallest tuple of the frontier, for a node
      not yet visited, costs no more than any path to its node: the path leaves
      the visited set through an edge whose far end waits with a tuple whose
      priority bounds the cost of the path plus the heuristic distance of its end. */
  lemma AEstrellaFrontierBound(g: Graph, origen: string, destino: string, coords: map<string, Coord>,
                               geodesic: (Coord, Coord) -> nat, frontera: seq<Entry>, visitados: set<string>,
                               gScores: map<string, nat>, dist: map<string, nat>, e: Entry, q: seq<string>)
    requires Consistent(g, coords, destino, geodesic)
    requires visitados == {} ==> frontera == [Entry(0, origen, [origen], 0)]
    requires visitados != {} ==> origen in visitados
    requires AEstrellaCosts(g, coords, coords[destino], geodesic, frontera, visitados, gScores, dist)
    requires Settled(g, origen, dist)
    requires e in frontera && (forall x :: x in frontera ==> !EntryLess(x, e)) && e.node !in visitados
    requires IsPathBetween(g, origen, e.node, q)
    ensures e.cost <= PathCost(g, q)
  {
    if visitados != {} {
      var i := LeavesSet(q, visitados);
      var u, n := q[i - 1], q[i];
      assert Adjacent(g, u, n);
      assert n in gScores && gScores[n] <= dist[u] + Weight(g, u, n);
      var w :| w in frontera && w.node == n && w.cost <= gScores[n];
      var h, hn := geodesic(coords[e.node], coords[destino]), geodesic(coords[n], coords[destino]);
      assert e.cost + h <= w.cost + hn by {
        assert !EntryLess(w, e);
      }
      var p := q[..i];
      LinkedPrefix(g, q, i);
      assert dist[u] <= PathCost(g, p) by {
        assert IsPathBetween(g, origen, u, p);
      }
      PathCostAppend(g, p, n);
      assert p + [n] == q[..i + 1];
      EstimateAlongPath(g, coords, destino, geodesic, q, i);
      assert PathCost(g, q[..i + 1]) + hn <= PathCost(g, q) + h;
    }
  }

  /** Under a consistent heuristic, the tuple that reaches the destination carries a shortest route. */
  lemma AEstrellaFoundShortest(g: Graph, origen: string, destino: string, coords: map<string, Coord>,
                               geodesic: (Coord, Coord) -> nat, frontera: seq<Entry>, visitados: set<string>,
                               gScores: map<string, nat>, dist: map<string, nat>, actual: Entry)
    requires Consistent(g, coords, destino, geodesic)
    requires AEstrellaInv(g, origen, destino, frontera, visitados, gScores)
    requires AEstrellaCosts(g, coords, coords[destino], geodesic, frontera, visitados, gScores, dist)
    requires Settled(g, origen, dist)
    requires actual in frontera && (forall x :: x in frontera ==> !EntryLess(x, actual)) && actual.node == destino
    ensures Shortest(g, origen, destino, actual.path)
  {
    forall q | IsPathBetween(g, origen, destino, q) ensures PathCost(g, actual.path) <= PathCost(g, q) {
      AEstrellaFrontierBound(g, origen, destino, coords, geodesic, frontera, visitados, gScores, dist, actual, q);
    }
  }

  /** Under a consistent heuristic, the node of the smallest tuple is settled when it is expanded. */
  lemma AEstrellaSettle(g: Graph, origen: string, destino: string, coords: map<string, Coord>,
                        geodesic: (Coord, Coord) -> nat, frontera: seq<Entry>, visitados: set<string>,
                        gScores: map<string, nat>, dist: map<string, nat>, actual: Entry)
    requires Consistent(g, coords, destino, geodesic)
    requires visitados == {} ==> frontera == [Entry(0, origen, [origen], 0)]
    requires visitados != {} ==> origen in visitados
    requires AEstrellaCosts(g, coords, coords[destino], geodesic, frontera, visitados, gScores, dist)
    requires Settled(g, origen, dist)
    requires actual in frontera && (forall x :: x in frontera ==> !EntryLess(x, actual)) && actual.node !in visitados
    ensures Settled(g, origen, dist[actual.node := actual.cost])
  {
    forall v, q | v in dist[actual.node := actual.cost] && IsPathBetween(g, origen, v, q)
      ensures dist[actual.node := actual.cost][v] <= PathCost(g, q)
    {
      if v == actual.node {
        AEstrellaFrontierBound(g, origen, destino, coords, geodesic, frontera, visitados, gScores, dist, actual, q);
      }
    }
  }

  /** Popping a tuple of a visited node keeps the cost bookkeeping. */
  lemma AEstrellaCostsSkip(g: Graph, coords: map<string, Coord>, destCoords: Coord, geodesic: (Coord, Coord) -> nat,
                           frontera: seq<Entry>, rest: seq<Entry>, actual: Entry, visitados: set<string>,
                           gScores: map<string, nat>, dist: map<string, nat>)
    requires AEstrellaCosts(g, coords, destCoords, geodesic, frontera, visitados, gScores, dist)
    requires actual.node in visitados
    requires forall x :: x in rest ==> x in frontera
    requires forall x :: x in frontera && x != actual ==> x in rest
    ensures AEstrellaCosts(g, coords, destCoords, geodesic, rest, visitados, gScores, dist)
  {
    forall m | m in gScores && m !in visitados ensures exists w :: w in rest && w.node == m && w.cost <= gScores[m] {
      var w :| w in frontera && w.node == m && w.cost <= gScores[m];
      assert w in rest;
    }
  }

  /** Once the origin is expanded, the tuples left and the tuples pushed all
      carry priority cost plus heuristic. */
  lemma AEstrellaPrioritiesKept(g: Graph, origen: string, coords: map<string, Coord>, destCoords: Coord,
                                geodesic: (Coord, Coord) -> nat, frontera: seq<Entry>, rest: seq<Entry>, visitados: set<string>,
                                gScores0: map<string, nat>, actual: Entry, pushed: seq<Entry>, gScores: map<string, nat>)
    requires visitados == {} ==> frontera == [Entry(0, origen, [origen], 0)]
    requires visitados != {} ==>
               forall e :: e in frontera ==> e.node in coords && e.priority == e.cost + geodesic(coords[e.node], destCoords)
    requires |rest| == |frontera| - 1 && forall x :: x in rest ==> x in frontera
    requires AEstrellaPushes(g, coords, destCoords, geodesic, gScores0, actual, {}, pushed, gScores)
    ensures forall e :: e in rest + pushed ==> e.node in coords && e.priority == e.cost + geodesic(coords[e.node], destCoords)
  {
    if visitados == {} {
      assert rest == [];
    }
  }

  /** Expanding the popped node keeps the cost bookkeeping: the tuples pushed
      carry priority cost plus heuristic, every neighbour ends with a recorded
      best cost no dearer than the route through the expanded node, and a
      recorded cost left unchanged still has its waiting tuple. */
  lemma AEstrellaCostsExpand(g: Graph, origen: string, coords: map<string, Coord>, destCoords: Coord,
                             geodesic: (Coord, Coord) -> nat, frontera: seq<Entry>, rest: seq<Entry>, actual: Entry,
                             visitados: set<string>, gScores0: map<string, nat>, dist: map<string, nat>,
                             frontera': seq<Entry>, gScores: map<string, nat>)
    requires visitados == {} ==> frontera == [Entry(0, origen, [origen], 0)]
    requires AEstrellaCosts(g, coords, destCoords, geodesic, frontera, visitados, gScores0, dist)
    requires actual.node !in visitados
    requires |rest| == |frontera| - 1
    requires forall x :: x in rest ==> x in frontera
    requires forall x :: x in frontera && x != actual ==> x in rest
    requires |rest| <= |frontera'| && frontera'[..|rest|] == rest
    requires AEstrellaPushes(g, coords, destCoords, geodesic, gScores0, actual, {}, frontera'[|rest|..], gScores)
    ensures AEstrellaCosts(g, coords, destCoords, geodesic, frontera', visitados + {actual.node}, gScores,
                           dist[actual.node := actual.cost])
  {
    var pushed := frontera'[|rest|..];
    assert frontera' == rest + pushed;
    AEstrellaCostsKept(g, origen, coords, destCoords, geodesic, frontera, rest, actual, visitados, gScores0, dist, pushed, gScores);
  }

  lemma AEstrellaCostsKept(g: Graph, origen: string, coords: map<string, Coord>, destCoords: Coord,
                           geodesic: (Coord, Coord) -> nat, frontera: seq<Entry>, rest: seq<Entry>, actual: Entry,
                           visitados: set<string>, gScores0: map<string, nat>, dist: map<string, nat>,
                           pushed: seq<Entry>, gScores: map<string, nat>)
    requires visitados == {} ==> frontera == [Entry(0, origen, [origen], 0)]
    requires AEstrellaCosts(g, coords, destCoords, geodesic, frontera, visitados, gScores0, dist)
    requires actual.node !in visitados
    requires |rest| == |frontera| - 1
    requires forall x :: x in rest ==> x in frontera
    requires forall x :: x in frontera && x != actual ==> x in rest
    requires AEstrellaPushes(g, coords, destCoords, geodesic, gScores0, actual, {}, pushed, gScores)
    ensures AEstrellaCosts(g, coords, destCoords, geodesic, rest + pushed, visitados + {actual.node}, gScores,
                           dist[actual.node := actual.cost])
  {
    AEstrellaCostsWaiting(g, coords, destCoords, geodesic, frontera, rest, actual, visitados, gScores0, pushed, gScores);
    AEstrellaCostsRelaxed(g, coords, destCoords, geodesic, actual, visitados, gScores0, dist, pushed, gScores);
    AEstrellaPrioritiesKept(g, origen, coords, destCoords, geodesic, frontera, rest, visitados, gScores0, actual, pushed, gScores);
  }

  /** After an expansion every recorded node not yet visited still waits with
      its recorded cost or better. */
  lemma AEstrellaCostsWaiting(g: Graph, coords: map<string, Coord>, destCoords: Coord, geodesic: (Coord, Coord) -> nat,
                              frontera: seq<Entry>, rest: seq<Entry>, actual: Entry, visitados: set<string>,
                              gScores0: map<string, nat>, pushed: seq<Entry>, gScores: map<string, nat>)
    requires forall m :: m in gScores0 && m !in visitados ==> exists w :: w in frontera && w.node == m && w.cost <= gScores0[m]
    requires forall x :: x in frontera && x != actual ==> x in rest
    requires AEstrellaPushes(g, coords, destCoords, geodesic, gScores0, actual, {}, pushed, gScores)
    ensures forall m :: m in gScores && m !in visitados + {actual.node} ==>
              exists w :: w in rest + pushed && w.node == m && w.cost <= gScores[m]
  {
    forall m | m in gScores && m !in visitados + {actual.node}
      ensures exists w :: w in rest + pushed && w.node == m && w.cost <= gScores[m]
    {
      if Waiting(pushed, m) {
        var e :| e in pushed && e.node == m;
        assert e in rest + pushed;
      } else {
        var w :| w in frontera && w.node == m && w.cost <= gScores0[m];
        assert w in rest;
        assert w in rest + pushed;
      }
    }
  }

  /** After an expansion every neighbour of a visited node, `actual` included,
      has a recorded cost no greater than the cost through that node. */
  lemma AEstrellaCostsRelaxed(g: Graph, coords: map<string, Coord>, destCoords: Coord, geodesic: (Coord, Coord) -> nat,
                              actual: Entry, visitados: set<string>, gScores0: map<string, nat>, dist: map<string, nat>,
                              pushed: seq<Entry>, gScores: map<string, nat>)
    requires dist.Keys == visitados && actual.node !in visitados
    requires forall v, n :: v in visitados && Adjacent(g, v, n) ==> n in gScores0 && gScores0[n] <= dist[v] + Weight(g, v, n)
    requires AEstrellaPushes(g, coords, destCoords, geodesic, gScores0, actual, {}, pushed, gScores)
    ensures forall v, n :: v in visitados + {actual.node} && Adjacent(g, v, n) ==>
              n in gScores && gScores[n] <= dist[actual.node := actual.cost][v] + Weight(g, v, n)
  {
    var dist' := dist[actual.node := actual.cost];
    AEstrellaLowers(g, coords, destCoords, geodesic, gScores0, actual, {}, pushed, gScores);
    forall v, n | v in visitados + {actual.node} && Adjacent(g, v, n) ensures n in gScores && gScores[n] <= dist'[v] + Weight(g, v, n) {
      if v == actual.node && (n !in gScores0 || actual.cost + Weight(g, actual.node, n) < gScores0[n]) {
        assert Waiting(pushed, n);
        var e :| e in pushed && e.node == n;
      }
    }
  }

  /** The invariant of the `while frontera` loop of `a_estrella`: the
      structural invariant, the bookkeeping of costs and priorities, and, under
      a consistent heuristic, every visited node settled at its shortest distance. */
  ghost predicate AEstrellaLoop(g: Graph, origen: string, destino: string, coords: map<string, Coord>, destCoords: Coord,
                                geodesic: (Coord, Coord) -> nat, frontera: seq<Entry>, visitados: set<string>, gScores: map<string, nat>,
                                dist: map<string, nat>)
  {
    && destino in coords && destCoords == coords[destino]
    && AEstrellaInv(g, origen, destino, frontera, visitados, gScores)
    && AEstrellaCosts(g, coords, destCoords, geodesic, frontera, visitados, gScores, dist)
    && (Consistent(g, coords, destino, geodesic) ==> Settled(g, origen, dist))
  }

  lemma AEstrellaLoopStart(g: Graph, origen: string, destino: string, coords: map<string, Coord>, destCoords: Coord,
                            geodesic: (Coord, Coord) -> nat)
    requires origen in g.adj && destino in coords && destCoords == coords[destino]
    ensures AEstrellaLoop(g, origen, destino, coords, destCoords, geodesic, [Entry(0, origen, [origen], 0)], {}, map[origen := 0], map[])
  {
    assert Entry(0, origen, [origen], 0) in [Entry(0, origen, [origen], 0)];
  }

  /** Popping a tuple of a node already visited. */
  lemma AEstrellaLoopSkip(g: Graph, origen: string, destino: string, coords: map<string, Coord>, destCoords: Coord,
                            geodesic: (Coord, Coord) -> nat,
                          frontera: seq<Entry>, rest: seq<Entry>, actual: Entry, visitados: set<string>,
                          gScores: map<string, nat>, dist: map<string, nat>)
    requires AEstrellaLoop(g, origen, destino, coords, destCoords, geodesic, frontera, visitados, gScores, dist)
    requires actual in frontera && actual.node in visitados
    requires forall x :: x in rest ==> x in frontera
    requires forall x :: x in frontera && x != actual ==> x in rest
    ensures AEstrellaLoop(g, origen, destino, coords, destCoords, geodesic, rest, visitados, gScores, dist)
  {
    AEstrellaSkip(g, origen, destino, frontera, rest, actual, visitados, gScores);
    AEstrellaCostsSkip(g, coords, destCoords, geodesic, frontera, rest, actual, visitados, gScores, dist);
  }

  /** Expanding the smallest tuple, of a node not yet visited: the node is
      settled at the tuple's cost. */
  lemma AEstrellaLoopExpand(g: Graph, origen: string, destino: string, coords: map<string, Coord>, destCoords: Coord,
                            geodesic: (Coord, Coord) -> nat,
                            frontera: seq<Entry>, rest: seq<Entry>, actual: Entry, visitados: set<string>,
                            gScores0: map<string, nat>, dist: map<string, nat>,
                            frontera': seq<Entry>, gScores: map<string, nat>)
    requires AEstrellaLoop(g, origen, destino, coords, destCoords, geodesic, frontera, visitados, gScores0, dist)
    requires actual in frontera && (forall x :: x in frontera ==> !EntryLess(x, actual)) && actual.node !in visitados
    requires |rest| == |frontera| - 1
    requires forall x :: x in rest ==> x in frontera
    requires forall x :: x in frontera && x != actual ==> x in rest
    requires AEstrellaInv(g, origen, destino, frontera', visitados + {actual.node}, gScores)
    requires |rest| <= |frontera'| && frontera'[..|rest|] == rest
    requires AEstrellaPushes(g, coords, destCoords, geodesic, gScores0, actual, {}, frontera'[|rest|..], gScores)
    ensures AEstrellaLoop(g, origen, destino, coords, destCoords, geodesic, frontera', visitados + {actual.node}, gScores, dist[actual.node := actual.cost])
  {
    if Consistent(g, coords, destino, geodesic) {
      AEstrellaSettle(g, origen, destino, coords, geodesic, frontera, visitados, gScores0, dist, actual);
    }
    AEstrellaCostsExpand(g, origen, coords, destCoords, geodesic, frontera, rest, actual, visitados, gScores0, dist,
                         frontera', gScores);
  }

  /** `a_estrella`: A*; the priority of a tuple is its accumulated cost plus the
      heuristic distance from its node to the destination. */
  method AEstrella(g: Graph, origen: string, destino: string, coords: map<string, Coord>,
                   geodesic: (Coord, Coord) -> nat)
    returns (r: Outcome)
    requires WellFormed(g)
    ensures HeuristicContract(g, coords, origen, destino, AEstrellaLabel, r)
    // with a consistent heuristic the route found is a shortest one
    ensures Consistent(g, coords, destino, geodesic) && r.Found? ==> Shortest(g, origen, destino, r.result.ruta)
  {
    MessagesDiffer(origen, destino);
    if origen !in g.adj || destino !in g.adj {
      return Message(NotInGraphMessage);
    }
    if destino !in coords {
      return Raised(KeyError(destino));
    }
    var destCoords := coords[destino];
    var frontera := [Entry(0, origen, [origen], 0)];
    var visitados: set<string> := {};
    var gScores := map[origen := 0];
    ghost var dist: map<string, nat> := map[];
    AEstrellaLoopStart(g, origen, destino, coords, destCoords, geodesic);
    while |frontera| > 0
      invariant AEstrellaLoop(g, origen, destino, coords, destCoords, geodesic, frontera, visitados, gScores, dist)
      decreases |g.adj.Keys - visitados|, |frontera|
    {
      var actual, rest := PopMin(frontera);
      if actual.node == destino {
        var tramos := BuildSegments(g, actual.path);
        if origen == destino {
          assert actual.path == [origen];
        }
        if Consistent(g, coords, destino, geodesic) {
          AEstrellaFoundShortest(g, origen, destino, coords, geodesic, frontera, visitados, gScores, dist, actual);
        }
        return Found(SearchResult(actual.path, actual.cost, tramos, AEstrellaLabel));
      }
      if actual.node in visitados {
        AEstrellaLoopSkip(g, origen, destino, coords, destCoords, geodesic, frontera, rest, actual, visitados, gScores, dist);
        frontera := rest;
        continue;
      }
      AEstrellaStartExpand(g, origen, destino, frontera, rest, actual, visitados, gScores);
      FewerUnvisited(g.adj.Keys, visitados, actual.node);
      ghost var frontera0, visitados0, gScores0 := frontera, visitados, gScores;
      visitados := visitados + {actual.node};
      var faltante;
      frontera, gScores, faltante := ExpandirAEstrella(g, origen, destino, coords, destCoords, geodesic, rest, visitados, gScores, actual);
      if faltante.Some? {
        return Raised(KeyError(faltante.value));
      }
      AEstrellaLoopExpand(g, origen, destino, coords, destCoords, geodesic, frontera0, rest, actual, visitados0, gScores0, dist, frontera, gScores);
      dist := dist[actual.node := actual.cost];
    }
    assert origen in visitados;
    ClosedSetUnreachable(g, visitados, origen, destino);
    return Message(NoRouteMessage(origen, destino));
  }

  /** `dijkstra`: the networkx shortest path, its length, and the segment loop;
      only `NetworkXNoPath` is caught. */
  method Dijkstra(g: Graph, origen: string, destino: string) returns (r: Outcome)
    requires WellFormed(g)
    ensures DijkstraContract(g, origen, destino, DijkstraLabel, r)
  {
    r := DijkstraRoute(g, origen, destino, DijkstraLabel);
  }

  /** What `comparar_algoritmos` hands back: the dictionary of the three results,
      or the exception that one of the calls let escape (the later calls then never run). */
  datatype Comparison = Compared(resultados: map<string, Outcome>) | Aborted(exc: Exception)

  /** `comparar_algoritmos`: runs Dijkstra, greedy search and A* in this order. */
  method CompararAlgoritmos(g: Graph, origen: string, destino: string, coords: map<string, Coord>,
                            geodesic: (Coord, Coord) -> nat)
    returns (r: Comparison)
    requires WellFormed(g)
    ensures (origen !in g.adj) <==> r == Aborted(NodeNotFound(origen))
    // the only other exception is a `KeyError` for a node of the graph without coordinates
    ensures r.Aborted? ==> r.exc == NodeNotFound(origen) || (r.exc.KeyError? && r.exc.key in g.adj && r.exc.key !in coords)
    ensures origen in g.adj && g.adj.Keys <= coords.Keys ==> r.Compared?
    ensures r.Compared? ==> r.resultados.Keys == {"Dijkstra", "Voraz", "A_estrella"}
    ensures r.Compared? ==> && DijkstraContract(g, origen, destino, DijkstraLabel, r.resultados["Dijkstra"]) && !r.resultados["Dijkstra"].Raised?
                            && HeuristicContract(g, coords, origen, destino, VorazLabel, r.resultados["Voraz"])
                            && !r.resultados["Voraz"].Raised?
                            && HeuristicContract(g, coords, origen, destino, AEstrellaLabel, r.resultados["A_estrella"])
                            && !r.resultados["A_estrella"].Raised?
    // with a consistent heuristic, A* finds a shortest route too
    ensures r.Compared? && Consistent(g, coords, destino, geodesic) && r.resultados["A_estrella"].Found? ==>
              Shortest(g, origen, destino, r.resultados["A_estrella"].result.ruta)
    // an unknown destination is a message from every search, not an exception
    ensures origen in g.adj && destino !in g.adj ==>
              r == Compared(map["Dijkstra" := Message(NoRouteMessage(origen, destino)),
                                "Voraz" := Message(NotInGraphMessage),
                                "A_estrella" := Message(NotInGraphMessage)])
  {
    var resultadoDijkstra := Dijkstra(g, origen, destino);
    if resultadoDijkstra.Raised? {
      return Aborted(resultadoDijkstra.exc);
    }
    var resultadoVoraz := BusquedaVoraz(g, origen, destino, coords, geodesic);
    if resultadoVoraz.Raised? {
      return Aborted(resultadoVoraz.exc);
    }
    var resultadoAEstrella := AEstrella(g, origen, destino, coords, geodesic);
    if resultadoAEstrella.Raised? {
      return Aborted(resultadoAEstrella.exc);
    }
    if origen in g.adj && destino !in g.adj {
      assert !Reachable(g, origen, destino);
    }
    return Compared(map["Dijkstra" := resultadoDijkstra, "Voraz" := resultadoVoraz, "A_estrella" := resultadoAEstrella]);
  }

  /** No heuristic route is shorter than Dijkstra's. */
  lemma DijkstraNoWorse(g: Graph, coords: map<string, Coord>, origen: string, destino: string,
                        algoritmo: string, dijkstra: Outcome, heuristica: Outcome)
    requires DijkstraContract(g, origen, destino, DijkstraLabel, dijkstra)
    requires HeuristicContract(g, coords, origen, destino, algoritmo, heuristica)
    requires heuristica.Found?
    ensures dijkstra.Found? && dijkstra.result.distanciaTotal <= heuristica.result.distanciaTotal
  {
    assert IsPathBetween(g, origen, destino, heuristica.result.ruta);
  }

  /** A shortest route found by a heuristic search is exactly as long as Dijkstra's,
      so with a consistent heuristic A* and Dijkstra report the same total distance. */
  lemma ShortestRoutesAgree(g: Graph, coords: map<string, Coord>, origen: string, destino: string,
                            algoritmo: string, dijkstra: Outcome, heuristica: Outcome)
    requires DijkstraContract(g, origen, destino, DijkstraLabel, dijkstra)
    requires HeuristicContract(g, coords, origen, destino, algoritmo, heuristica)
    requires heuristica.Found? && Shortest(g, origen, destino, heuristica.result.ruta)
    ensures dijkstra.Found? && dijkstra.result.distanciaTotal == heuristica.result.distanciaTotal
  {
    DijkstraNoWorse(g, coords, origen, destino, algoritmo, dijkstra, heuristica);
    assert IsPathBetween(g, origen, destino, dijkstra.result.ruta);
  }

  /** When neither raises, a heuristic search finds a route exactly when Dijkstra does. */
  lemma SearchesAgree(g: Graph, coords: map<string, Coord>, origen: string, destino: string,
                      algoritmo: string, dijkstra: Outcome, heuristica: Outcome)
    requires DijkstraContract(g, origen, destino, DijkstraLabel, dijkstra)
    requires HeuristicContract(g, coords, origen, destino, algoritmo, heuristica)
    requires !dijkstra.Raised? && !heuristica.Raised?
    ensures dijkstra.Found? <==> heuristica.Found?
  {
    if heuristica.Found? {
      assert IsPathBetween(g, origen, destino, heuristica.result.ruta);
    }
    if dijkstra.Found? {
      var p :| IsPathBetween(g, origen, destino, p);
      assert destino in g.adj;
    }
  }
}
