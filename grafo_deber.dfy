/** The older route finder: the graph built from the id/distance records, the
    breadth-first, depth-first and uniform-cost searches, and the partial name
    matching in front of the uniform-cost search. */
module GrafoDeber {
  import opened Graphs
  import opened NxGraph
  import opened Reporting
  import opened ShortestPaths
  import opened NameMatch
  import opened Registros

  // ---------------------------------------------------------------- crear_grafo

  /** What `crear_grafo` hands back: the graph with `id_a_nombre`, or the
      `KeyError` a distance record with an unknown id raises. */
  datatype Creado = Creado(g: Graph, idANombre: map<int, string>) | IdDesconocido(id: int)

  /** The id whose lookup fails on record `d`: the origin is looked up first. */
  function IdQueFalla(idANombre: map<int, string>, d: Distancia): int
    requires !Conocida(idANombre, d)
  {
    if d.origenId !in idANombre then d.origenId else d.destinoId
  }

  /** The second loop: `G.add_edge(id_a_nombre[origen_id], id_a_nombre[destino_id], weight=...)`
      for every record, a record with an unknown id raising `KeyError`. */
  method AgregarAristas(g0: Graph, idANombre: map<int, string>, distancias: seq<Distancia>) returns (r: Creado)
    requires WellFormed(g0)
    requires forall k :: k in idANombre ==> idANombre[k] in g0.adj
    ensures r.IdDesconocido? ==>
              exists i :: 0 <= i < |distancias| && !Conocida(idANombre, distancias[i])
                          && r.id == IdQueFalla(idANombre, distancias[i])
                          && forall j :: 0 <= j < i ==> Conocida(idANombre, distancias[j])
    ensures r.Creado? ==> forall i :: 0 <= i < |distancias| ==> Conocida(idANombre, distancias[i])
    ensures r.Creado? ==> r.idANombre == idANombre && Built(g0, Conocidas(idANombre, distancias), r.g)
                          && r.g.nodes == g0.nodes
  {
    var g := g0;
    ghost var es: seq<Edge> := [];
    assert Conocidas(idANombre, distancias[..0]) == [];
    for i := 0 to |distancias|
      invariant forall j :: 0 <= j < i ==> Conocida(idANombre, distancias[j])
      invariant es == Conocidas(idANombre, distancias[..i])
      invariant g == AddEdges(g0, es)
      invariant g.adj.Keys == g0.adj.Keys && g.nodes == g0.nodes
    {
      var d := distancias[i];
      if d.origenId !in idANombre || d.destinoId !in idANombre {
        return IdDesconocido(IdQueFalla(idANombre, d));
      }
      assert forall j :: 0 <= j < i + 1 ==> Conocida(idANombre, distancias[j]);
      var origen := idANombre[d.origenId];
      var destino := idANombre[d.destinoId];
      ConocidasSnoc(idANombre, distancias, i);
      AddEdgesSnoc(g0, es, Nombrada(idANombre, d));
      AddEdgeBetweenNodes(g, origen, destino, d.distancia);
      g := AddEdge(g, origen, destino, d.distancia);
      es := es + [Nombrada(idANombre, d)];
    }
    assert distancias[..|distancias|] == distancias;
    AddEdgesBuilt(g0, es);
    return Creado(g, idANombre);
  }

  /** One more known record adds its named edge to the known ones. */
  lemma ConocidasSnoc(idANombre: map<int, string>, distancias: seq<Distancia>, i: nat)
    requires i < |distancias| && Conocida(idANombre, distancias[i])
    ensures Conocidas(idANombre, distancias[..i + 1]) == Conocidas(idANombre, distancias[..i]) + [Nombrada(idANombre, distancias[i])]
  {
    assert distancias[..i + 1][..i] == distancias[..i];
  }

  /** `crear_grafo(ciudades, distancias)`: every city name becomes a node, in
      record order, and every distance record an undirected edge between the
      named cities, a later record about the same pair replacing the weight. */
  method CrearGrafo(ciudades: seq<Ciudad>, distancias: seq<Distancia>) returns (r: Creado)
    ensures r.IdDesconocido? ==>
              exists i :: 0 <= i < |distancias| && !Conocida(IdANombre(ciudades), distancias[i])
                          && r.id == IdQueFalla(IdANombre(ciudades), distancias[i])
                          && forall j :: 0 <= j < i ==> Conocida(IdANombre(ciudades), distancias[j])
    ensures r.Creado? ==> forall i :: 0 <= i < |distancias| ==> Conocida(IdANombre(ciudades), distancias[i])
    ensures r.Creado? ==>
              && r.idANombre == IdANombre(ciudades)
              && WellFormed(r.g)
              && r.g.nodes == FirstOccurrences(Nombres(ciudades))
              && forall a, b :: Lookup(r.g.adj, a, b) == LastWeight(Conocidas(r.idANombre, distancias), a, b)
  {
    var idANombre := IdANombre(ciudades);
    var g0 := AddNodes(Nombres(ciudades));
    NamesAreNodes(ciudades, g0);
    r := AgregarAristas(g0, idANombre, distancias);
    if r.Creado? {
      BuiltOnNodes(g0, Conocidas(idANombre, distancias), r.g);
    }
  }

  /** Every name `id_a_nombre` gives is a node added by the first loop. */
  lemma NamesAreNodes(ciudades: seq<Ciudad>, g0: Graph)
    requires WellFormed(g0) && g0.nodes == FirstOccurrences(Nombres(ciudades))
    ensures forall k :: k in IdANombre(ciudades) ==> IdANombre(ciudades)[k] in g0.adj
  {
    IdANombreValues(ciudades);
    forall k | k in IdANombre(ciudades) ensures IdANombre(ciudades)[k] in g0.adj {
      assert IdANombre(ciudades)[k] in FirstOccurrences(Nombres(ciudades));
    }
  }

  /** The last record about a pair decides its weight, and a pair no record
      names is not an edge. */
  lemma CrearGrafoWeights(g: Graph, idANombre: map<int, string>, distancias: seq<Distancia>, a: string, b: string)
    requires forall x, y :: Lookup(g.adj, x, y) == LastWeight(Conocidas(idANombre, distancias), x, y)
    ensures Adjacent(g, a, b) <==> exists e :: e in Conocidas(idANombre, distancias) && EdgeMatch(e, a, b)
    ensures Adjacent(g, a, b) ==>
              exists i :: 0 <= i < |Conocidas(idANombre, distancias)|
                          && EdgeMatch(Conocidas(idANombre, distancias)[i], a, b)
                          && Conocidas(idANombre, distancias)[i].w == Weight(g, a, b)
                          && forall j :: i < j < |Conocidas(idANombre, distancias)| ==> !EdgeMatch(Conocidas(idANombre, distancias)[j], a, b)
  {
    var es := Conocidas(idANombre, distancias);
    LastWeightIsLast(es, a, b);
    assert Lookup(g.adj, a, b) == LastWeight(es, a, b);
    if !Adjacent(g, a, b) {
      forall e | e in es ensures !EdgeMatch(e, a, b) {
        var k :| 0 <= k < |es| && es[k] == e;
      }
    }
  }

  // ---------------------------------------------------------------- busqueda_amplitud

  /** `G` with every weight 1: what `nx.shortest_path` without `weight` minimises. */
  function Unweighted(g: Graph): (u: Graph)
    ensures u.adj.Keys == g.adj.Keys
    ensures forall a, b :: Adjacent(u, a, b) <==> Adjacent(g, a, b)
  {
    Graph(g.nodes, map a | a in g.adj :: map b | b in g.adj[a] :: 1)
  }

  lemma UnweightedWellFormed(g: Graph)
    requires WellFormed(g)
    ensures WellFormed(Unweighted(g))
  {
  }

  /** A path of the unweighted graph costs its number of edges. */
  lemma {:induction false} UnweightedCost(g: Graph, p: seq<string>)
    requires Linked(g, p)
    ensures Linked(Unweighted(g), p)
    ensures PathCost(Unweighted(g), p) == if |p| == 0 then 0 else |p| - 1
    decreases |p|
  {
    if |p| > 1 {
      LinkedPrefix(g, p, |p| - 1);
      UnweightedCost(g, p[..|p| - 1]);
    }
  }

  lemma UnweightedPaths(g: Graph, s: string, t: string, p: seq<string>)
    ensures IsPathBetween(Unweighted(g), s, t, p) <==> IsPathBetween(g, s, t, p)
  {
  }

  /** `p` is a path from `s` to `t` with as few edges as any path between them. */
  ghost predicate FewestEdges(g: Graph, s: string, t: string, p: seq<string>) {
    && IsPathBetween(g, s, t, p) && Distinct(p)
    && forall q :: IsPathBetween(g, s, t, q) ==> |p| <= |q|
  }

  const BfsLabel: string := "BFS"

  /** `busqueda_amplitud`: `nx.shortest_path(G, origen, destino)` finds a path
      with the fewest edges (networkx raises `NodeNotFound` when either end is
      not a node, which is not caught); the segment loop then adds up the
      weights of its edges into `distancia_total`. */
  method BusquedaAmplitud(g: Graph, origen: string, destino: string) returns (r: Outcome)
    requires WellFormed(g)
    ensures (origen !in g.adj || destino !in g.adj) <==> r.Raised?
    ensures r.Raised? ==> r.exc == NodeNotFound(if origen !in g.adj then origen else destino)
    ensures r.Found? <==> origen in g.adj && destino in g.adj && Reachable(g, origen, destino)
    ensures r.Found? ==> IsRouteResult(g, origen, destino, r.result, BfsLabel)
                         && FewestEdges(g, origen, destino, r.result.ruta)
                         && r.result.distanciaTotal == SegmentsTotal(r.result.tramos)
    ensures r.Message? ==> r.text == NoRouteMessage(origen, destino)
  {
    if origen !in g.adj {
      return Raised(NodeNotFound(origen));
    }
    if destino !in g.adj {
      return Raised(NodeNotFound(destino));
    }
    var u := Unweighted(g);
    UnweightedWellFormed(g);
    var ruta, _ := ShortestPath(u, origen, destino);
    if ruta.None? {
      forall p | IsPathBetween(g, origen, destino, p) ensures false {
        UnweightedPaths(g, origen, destino, p);
      }
      return Message(NoRouteMessage(origen, destino));
    }
    var p := ruta.value;
    UnweightedPaths(g, origen, destino, p);
    forall q | IsPathBetween(g, origen, destino, q) ensures |p| <= |q| {
      UnweightedPaths(g, origen, destino, q);
      UnweightedCost(g, p);
      UnweightedCost(g, q);
    }
    var total, tramos := BuildSegmentsWithTotal(g, p);
    return Found(SearchResult(p, total, tramos, BfsLabel));
  }

  // ---------------------------------------------------------------- busqueda_profundidad

  /** One `(vertex, path)` pair of the DFS stack. */
  datatype StackItem = StackItem(vertex: string, path: seq<string>)

  /** What `dfs_paths` gives back: a path, `None`, or the `KeyError` of
      `graph[vertex]` for a start vertex that is not a node. */
  datatype DfsResult = Path(path: seq<string>) | NoPath | KeyErrorOn(key: string)

  /** Some pair for vertex `n` waits on the stack. */
  ghost predicate Stacked(stack: seq<StackItem>, n: string) {
    exists it :: it in stack && it.vertex == n
  }

  /** A stacked pair: a path of the graph from `start` to its vertex whose nodes
      before the last are visited and distinct. */
  ghost predicate DfsItem(g: Graph, start: string, visited: set<string>, it: StackItem) {
    && IsPathBetween(g, start, it.vertex, it.path)
    && Distinct(it.path[..|it.path| - 1])
    && (forall k :: 0 <= k < |it.path| - 1 ==> it.path[k] in visited)
  }

  /** The invariant of the `while stack` loop of `dfs_paths`. */
  ghost predicate DfsInv(g: Graph, start: string, goal: string, stack: seq<StackItem>, visited: set<string>) {
    && visited <= g.adj.Keys && goal !in visited
    && (start !in g.adj ==> stack == [StackItem(start, [start])] && visited == {})
    && (start in g.adj ==> forall it :: it in stack ==> DfsItem(g, start, visited, it))
    && (visited == {} ==> stack == [StackItem(start, [start])])
    && (visited != {} ==> start in visited)
    // every neighbour of a visited vertex is visited or waits on the stack
    && (forall v, n :: v in visited && Adjacent(g, v, n) ==> n in visited || Stacked(stack, n))
  }

  /** The invariant of the neighbour loop while `vertex` is expanded. */
  ghost predicate DfsExpanding(g: Graph, start: string, goal: string, stack: seq<StackItem>, visited: set<string>,
                               current: StackItem, neighbours: set<string>)
  {
    && visited <= g.adj.Keys && goal !in visited && start in g.adj && start in visited
    && current.vertex in visited && neighbours <= g.adj[current.vertex].Keys
    && IsPathBetween(g, start, current.vertex, current.path) && Distinct(current.path)
    && (forall k :: 0 <= k < |current.path| ==> current.path[k] in visited)
    && (forall it :: it in stack ==> DfsItem(g, start, visited, it))
    && (forall v, n :: v in visited && v != current.vertex && Adjacent(g, v, n) ==> n in visited || Stacked(stack, n))
    && (forall n :: n in g.adj[current.vertex] && n !in neighbours ==> n in visited || Stacked(stack, n))
  }

  lemma DfsPush(g: Graph, start: string, goal: string, stack: seq<StackItem>, visited: set<string>,
                current: StackItem, neighbours: set<string>, n: string)
    requires WellFormed(g)
    requires DfsExpanding(g, start, goal, stack, visited, current, neighbours)
    requires n in neighbours
    ensures DfsExpanding(g, start, goal, stack + [StackItem(n, current.path + [n])], visited, current, neighbours - {n})
  {
    var it := StackItem(n, current.path + [n]);
    var stack' := stack + [it];
    assert Adjacent(g, current.vertex, n);
    assert IsPathBetween(g, start, n, it.path) by {
      var q := it.path;
      assert forall k :: 0 <= k < |current.path| ==> q[k] == current.path[k];
    }
    assert it.path[..|it.path| - 1] == current.path;
    assert forall m :: Stacked(stack, m) ==> Stacked(stack', m) by {
      forall m | Stacked(stack, m) ensures Stacked(stack', m) {
        var x :| x in stack && x.vertex == m;
        assert x in stack';
      }
    }
    assert Stacked(stack', n) by {
      assert it in stack';
    }
  }

  /** The neighbour loop `for neighbor in graph[vertex]: stack.append((neighbor, path + [neighbor]))`.
      Every neighbour is pushed, visited or not; the order in which the
      neighbours are taken is left open. */
  method PushNeighbours(g: Graph, start: string, goal: string, stack0: seq<StackItem>, visited: set<string>,
                        current: StackItem)
    returns (stack: seq<StackItem>)
    requires WellFormed(g) && current.vertex in g.adj
    requires DfsExpanding(g, start, goal, stack0, visited, current, g.adj[current.vertex].Keys)
    ensures DfsInv(g, start, goal, stack, visited)
    ensures |stack| == |stack0| + |g.adj[current.vertex]|
    ensures stack[..|stack0|] == stack0
    ensures forall n :: n in g.adj[current.vertex] ==> StackItem(n, current.path + [n]) in stack[|stack0|..]
  {
    stack := stack0;
    var neighbours := g.adj[current.vertex].Keys;
    while neighbours != {}
      invariant DfsExpanding(g, start, goal, stack, visited, current, neighbours)
      invariant |stack| + |neighbours| == |stack0| + |g.adj[current.vertex]|
      invariant |stack0| <= |stack| && stack[..|stack0|] == stack0
      invariant forall n :: n in g.adj[current.vertex] && n !in neighbours ==> StackItem(n, current.path + [n]) in stack[|stack0|..]
      decreases neighbours
    {
      var n :| n in neighbours;
      DfsPush(g, start, goal, stack, visited, current, neighbours, n);
      var pushed := stack + [StackItem(n, current.path + [n])];
      assert pushed[|stack0|..] == stack[|stack0|..] + [StackItem(n, current.path + [n])];
      stack := pushed;
      neighbours := neighbours - {n};
    }
  }

  /** The pairs left after popping the last one are all still on the stack,
      and every other vertex that waited still waits. */
  lemma PopLast(stack: seq<StackItem>, n: string)
    requires |stack| > 0 && Stacked(stack, n) && stack[|stack| - 1].vertex != n
    ensures Stacked(stack[..|stack| - 1], n)
  {
    var x :| x in stack && x.vertex == n;
    var k :| 0 <= k < |stack| && stack[k] == x;
    assert stack[..|stack| - 1][k] == x;
  }

  /** A popped vertex that is already visited is dropped. */
  lemma DfsSkip(g: Graph, start: string, goal: string, stack: seq<StackItem>, visited: set<string>)
    requires DfsInv(g, start, goal, stack, visited)
    requires |stack| > 0 && stack[|stack| - 1].vertex in visited
    ensures DfsInv(g, start, goal, stack[..|stack| - 1], visited)
  {
    var rest := stack[..|stack| - 1];
    forall v, n | v in visited && Adjacent(g, v, n) && n !in visited ensures Stacked(rest, n) {
      PopLast(stack, n);
    }
  }

  /** Once the start is a node, every stacked vertex is one. */
  lemma DfsTopInGraph(g: Graph, start: string, goal: string, stack: seq<StackItem>, visited: set<string>)
    requires DfsInv(g, start, goal, stack, visited) && start in g.adj && |stack| > 0
    ensures stack[|stack| - 1].vertex in g.adj
  {
    assert stack[|stack| - 1] in stack;
  }

  /** Popping the goal: its path is a simple path from `start`. */
  lemma DfsGoal(g: Graph, start: string, goal: string, stack: seq<StackItem>, visited: set<string>)
    requires DfsInv(g, start, goal, stack, visited) && start in g.adj
    requires |stack| > 0 && stack[|stack| - 1].vertex == goal
    ensures IsPathBetween(g, start, goal, stack[|stack| - 1].path) && Distinct(stack[|stack| - 1].path)
  {
    var item := stack[|stack| - 1];
    assert item in stack;
    assert DfsItem(g, start, visited, item);
    assert item.path == item.path[..|item.path| - 1] + [goal];
  }

  /** Popping an unvisited vertex other than the goal: it becomes visited and
      its neighbours are about to be pushed. */
  lemma DfsStartExpand(g: Graph, start: string, goal: string, stack: seq<StackItem>, visited: set<string>)
    requires DfsInv(g, start, goal, stack, visited)
    requires |stack| > 0 && stack[|stack| - 1].vertex !in visited && stack[|stack| - 1].vertex != goal
    requires stack[|stack| - 1].vertex in g.adj
    ensures start in g.adj
    ensures DfsExpanding(g, start, goal, stack[..|stack| - 1], visited + {stack[|stack| - 1].vertex},
                         stack[|stack| - 1], g.adj[stack[|stack| - 1].vertex].Keys)
  {
    var item := stack[|stack| - 1];
    var rest := stack[..|stack| - 1];
    var visited' := visited + {item.vertex};
    assert item in stack;
    assert DfsItem(g, start, visited, item);
    assert item.path == item.path[..|item.path| - 1] + [item.vertex];
    forall it | it in rest ensures DfsItem(g, start, visited', it) {
      assert it in stack;
    }
    forall v, n | v in visited' && v != item.vertex && Adjacent(g, v, n) && n !in visited'
      ensures Stacked(rest, n)
    {
      PopLast(stack, n);
    }
  }

  /** `dfs_paths(graph, start, goal)`: a stack of `(vertex, path)` pairs, popped
      from the end; a popped vertex already visited is skipped, the goal ends
      the search, any other vertex is marked visited and all its neighbours
      are pushed. */
  method DfsPaths(g: Graph, start: string, goal: string) returns (r: DfsResult)
    requires WellFormed(g)
    // the first pop already answers `start == goal`, node or not
    ensures start == goal ==> r == Path([start])
    ensures start != goal && start !in g.adj ==> r == KeyErrorOn(start)
    ensures r.KeyErrorOn? ==> start != goal && start !in g.adj
    ensures r.Path? && start in g.adj ==> IsPathBetween(g, start, goal, r.path) && Distinct(r.path)
    ensures r.NoPath? <==> start in g.adj && !Reachable(g, start, goal)
  {
    var stack := [StackItem(start, [start])];
    var visited: set<string> := {};
    while |stack| > 0
      invariant DfsInv(g, start, goal, stack, visited)
      decreases |g.adj.Keys - visited|, |stack|
    {
      var item := stack[|stack| - 1];
      if item.vertex !in visited {
        if item.vertex == goal {
          if start in g.adj {
            DfsGoal(g, start, goal, stack, visited);
          }
          return Path(item.path);
        }
        if start in g.adj {
          DfsTopInGraph(g, start, goal, stack, visited);
        }
        if item.vertex !in g.adj {
          return KeyErrorOn(item.vertex);
        }
        DfsStartExpand(g, start, goal, stack, visited);
        FewerUnvisited(g.adj.Keys, visited, item.vertex);
        visited := visited + {item.vertex};
        stack := PushNeighbours(g, start, goal, stack[..|stack| - 1], visited, item);
      } else {
        DfsSkip(g, start, goal, stack, visited);
        stack := stack[..|stack| - 1];
      }
    }
    ClosedSetUnreachable(g, visited, start, goal);
    return NoPath;
  }

  const DfsLabel: string := "DFS"

  /** `f"Error en DFS: {e}"` for the `KeyError` on `key`: `str` of a `KeyError`
      is the quoted key. */
  function DfsErrorMessage(key: string): string {
    "Error en DFS: '" + key + "'"
  }

  /** `busqueda_profundidad`: `dfs_paths`, the no-route message for `None`,
      the segment and total loop for a path, and every exception caught and
      reported as a message. */
  method BusquedaProfundidad(g: Graph, origen: string, destino: string) returns (r: Outcome)
    requires WellFormed(g)
    ensures !r.Raised?
    ensures origen == destino ==> r == Found(SearchResult([origen], 0, [], DfsLabel))
    ensures origen != destino && origen !in g.adj ==> r == Message(DfsErrorMessage(origen))
    ensures origen in g.adj ==> (r.Found? <==> Reachable(g, origen, destino))
    ensures r.Found? && origen in g.adj ==> IsRouteResult(g, origen, destino, r.result, DfsLabel)
    ensures r.Found? ==> r.result.distanciaTotal == SegmentsTotal(r.result.tramos)
    ensures r.Message? && origen in g.adj ==> r.text == NoRouteMessage(origen, destino)
  {
    var ruta := DfsPaths(g, origen, destino);
    match ruta {
      case KeyErrorOn(k) =>
        return Message(DfsErrorMessage(k));
      case NoPath =>
        return Message(NoRouteMessage(origen, destino));
      case Path(p) =>
        var total, tramos;
        if origen in g.adj {
          total, tramos := BuildSegmentsWithTotal(g, p);
        } else {
          assert p == [origen];
          total, tramos := BuildSegmentsWithTotal(g, p);
        }
        return Found(SearchResult(p, total, tramos, DfsLabel));
    }
  }

  // ---------------------------------------------------------------- busqueda_costo_uniforme

  const UcsLabel: string := "Costo Uniforme (Dijkstra)"

  /** `busqueda_costo_uniforme`: networkx's Dijkstra and the segment loop. */
  method BusquedaCostoUniforme(g: Graph, origen: string, destino: string) returns (r: Outcome)
    requires WellFormed(g)
    ensures DijkstraContract(g, origen, destino, UcsLabel, r)
  {
    r := DijkstraRoute(g, origen, destino, UcsLabel);
  }

  // ---------------------------------------------------------------- encontrar_ruta_optima

  /** `encontrar_ruta_optima`: the first node matching each query, the origin
      reported missing before the destination, then the uniform-cost search
      between the two matches (which are nodes, so nothing is raised). */
  method EncontrarRutaOptima(g: Graph, origen: string, destino: string) returns (r: Outcome)
    requires WellFormed(g)
    ensures !Matched(FirstMatchOf(g.nodes, origen)) ==> r == Message(OrigenNoEncontrado(origen))
    ensures Matched(FirstMatchOf(g.nodes, origen)) && !Matched(FirstMatchOf(g.nodes, destino)) ==>
              r == Message(DestinoNoEncontrado(destino))
    ensures Matched(FirstMatchOf(g.nodes, origen)) && Matched(FirstMatchOf(g.nodes, destino)) ==>
              && !r.Raised?
              && DijkstraContract(g, FirstMatchOf(g.nodes, origen).value, FirstMatchOf(g.nodes, destino).value, UcsLabel, r)
  {
    var seleccion := SelectCities(g.nodes, origen, destino);
    if seleccion.NotFound? {
      return Message(seleccion.message);
    }
    SelectedAreFirstMatches(g.nodes, origen, destino, seleccion);
    r := BusquedaCostoUniforme(g, seleccion.origen, seleccion.destino);
  }
}
