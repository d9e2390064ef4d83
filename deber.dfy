/** The first route finder: the graph built from the distance matrix
    `{origen: {destino: distancia}}` read from the spreadsheet, and
    `encontrar_ruta_optima`, partial name matching followed by Dijkstra. */
module Deber {
  import opened Graphs
  import opened NxGraph
  import opened Reporting
  import opened ShortestPaths
  import opened NameMatch

  // ---------------------------------------------------------------- crear_grafo

  /** One entry `destino: distancia` of a row of the matrix. */
  datatype Celda = Celda(destino: string, distancia: int)

  /** One row `origen: {destino: distancia, ...}`, its entries in dictionary order. */
  datatype Fila = Fila(origen: string, destinos: seq<Celda>)

  /** `matriz_distancias.keys()`, in dictionary order. */
  function Claves(filas: seq<Fila>): (r: seq<string>)
    ensures |r| == |filas| && forall i :: 0 <= i < |r| ==> r[i] == filas[i].origen
  {
    seq(|filas|, i requires 0 <= i < |filas| => filas[i].origen)
  }

  /** The guard `origen != destino and distancia > 0`. */
  predicate Valida(origen: string, c: Celda) {
    origen != c.destino && c.distancia > 0
  }

  /** The edges one row adds, in entry order. */
  function AristasFila(origen: string, celdas: seq<Celda>): seq<Edge> {
    if |celdas| == 0 then []
    else
      var c := celdas[|celdas| - 1];
      if Valida(origen, c) then AristasFila(origen, celdas[..|celdas| - 1]) + [Edge(origen, c.destino, c.distancia as nat)]
      else AristasFila(origen, celdas[..|celdas| - 1])
  }

  /** The edges the whole matrix adds, row after row. */
  function AristasMatriz(filas: seq<Fila>): seq<Edge> {
    if |filas| == 0 then []
    else AristasMatriz(filas[..|filas| - 1]) + AristasFila(filas[|filas| - 1].origen, filas[|filas| - 1].destinos)
  }

  /** A row contributes exactly one edge per entry that passes the guard. */
  lemma {:induction false} AristasFilaSonValidas(origen: string, celdas: seq<Celda>)
    ensures forall e :: e in AristasFila(origen, celdas) <==>
              exists j :: 0 <= j < |celdas| && Valida(origen, celdas[j]) && e == Edge(origen, celdas[j].destino, celdas[j].distancia as nat)
    decreases |celdas|
  {
    if |celdas| > 0 {
      var p := celdas[..|celdas| - 1];
      AristasFilaSonValidas(origen, p);
      assert forall j :: 0 <= j < |p| ==> p[j] == celdas[j];
    }
  }

  /** The matrix contributes exactly the edges of its rows. */
  lemma {:induction false} AristasMatrizSonDeFilas(filas: seq<Fila>)
    ensures forall e :: e in AristasMatriz(filas) <==>
              exists i :: 0 <= i < |filas| && e in AristasFila(filas[i].origen, filas[i].destinos)
    decreases |filas|
  {
    if |filas| > 0 {
      var p := filas[..|filas| - 1];
      AristasMatrizSonDeFilas(p);
      assert forall i :: 0 <= i < |p| ==> p[i] == filas[i];
    }
  }

  /** No matrix edge is a self-loop, and every weight is positive. */
  lemma AristasPropias(filas: seq<Fila>)
    ensures forall e :: e in AristasMatriz(filas) ==> e.u != e.v && e.w > 0
  {
    AristasMatrizSonDeFilas(filas);
    forall e | e in AristasMatriz(filas) ensures e.u != e.v && e.w > 0 {
      var i :| 0 <= i < |filas| && e in AristasFila(filas[i].origen, filas[i].destinos);
      AristasFilaSonValidas(filas[i].origen, filas[i].destinos);
    }
  }

  /** One more entry of a row: an edge exactly when it passes the guard. */
  lemma AristasFilaSnoc(origen: string, celdas: seq<Celda>, j: nat)
    requires j < |celdas|
    ensures AristasFila(origen, celdas[..j + 1]) ==
              AristasFila(origen, celdas[..j])
              + (if Valida(origen, celdas[j]) then [Edge(origen, celdas[j].destino, celdas[j].distancia as nat)] else [])
  {
    assert celdas[..j + 1][..j] == celdas[..j];
  }

  /** One more row of the matrix. */
  lemma AristasMatrizSnoc(filas: seq<Fila>, i: nat)
    requires i < |filas|
    ensures AristasMatriz(filas[..i + 1]) == AristasMatriz(filas[..i]) + AristasFila(filas[i].origen, filas[i].destinos)
  {
    assert filas[..i + 1][..i] == filas[..i];
  }

  /** The body of the inner loop: the entry's edge is added when it passes the guard. */
  lemma CeldaStep(g0: Graph, antes: seq<Edge>, origen: string, celdas: seq<Celda>, j: nat, g: Graph)
    requires j < |celdas|
    requires BuiltInOrder(g0, antes + AristasFila(origen, celdas[..j]), g)
    ensures Valida(origen, celdas[j]) ==>
              BuiltInOrder(g0, antes + AristasFila(origen, celdas[..j + 1]),
                           AddEdge(g, origen, celdas[j].destino, celdas[j].distancia as nat))
    ensures !Valida(origen, celdas[j]) ==> BuiltInOrder(g0, antes + AristasFila(origen, celdas[..j + 1]), g)
  {
    AristasFilaSnoc(origen, celdas, j);
    if Valida(origen, celdas[j]) {
      var e := Edge(origen, celdas[j].destino, celdas[j].distancia as nat);
      assert antes + AristasFila(origen, celdas[..j + 1]) == (antes + AristasFila(origen, celdas[..j])) + [e];
      BuiltInOrderSnoc(g0, antes + AristasFila(origen, celdas[..j]), e, g);
    } else {
      assert antes + AristasFila(origen, celdas[..j + 1]) == antes + AristasFila(origen, celdas[..j]);
    }
  }

  /** The inner loop `for destino, distancia in destinos.items(): if origen !=
      destino and distancia > 0: G.add_edge(origen, destino, weight=distancia)`
      over one row. */
  method AgregarFila(g0: Graph, antes: seq<Edge>, fila: Fila, g1: Graph) returns (g: Graph)
    requires BuiltInOrder(g0, antes, g1)
    ensures BuiltInOrder(g0, antes + AristasFila(fila.origen, fila.destinos), g)
  {
    g := g1;
    assert antes + AristasFila(fila.origen, fila.destinos[..0]) == antes;
    for j := 0 to |fila.destinos|
      invariant BuiltInOrder(g0, antes + AristasFila(fila.origen, fila.destinos[..j]), g)
    {
      var c := fila.destinos[j];
      CeldaStep(g0, antes, fila.origen, fila.destinos, j, g);
      if fila.origen != c.destino && c.distancia > 0 {
        g := AddEdge(g, fila.origen, c.destino, c.distancia as nat);
      }
    }
    assert fila.destinos[..|fila.destinos|] == fila.destinos;
  }

  /** The outer loop `for origen, destinos in matriz_distancias.items()`. */
  method AgregarAristas(g0: Graph, filas: seq<Fila>) returns (g: Graph)
    requires WellFormed(g0)
    ensures BuiltInOrder(g0, AristasMatriz(filas), g)
  {
    g := g0;
    BuiltInOrderNothing(g0);
    assert AristasMatriz(filas[..0]) == [];
    for i := 0 to |filas|
      invariant BuiltInOrder(g0, AristasMatriz(filas[..i]), g)
    {
      AristasMatrizSnoc(filas, i);
      g := AgregarFila(g0, AristasMatriz(filas[..i]), filas[i], g);
    }
    assert filas[..|filas|] == filas;
  }

  /** `crear_grafo(matriz_distancias)`: the row cities are the first nodes, in
      row order; each entry that passes the guard is an undirected edge, its
      origin and then its destination joining the end of the node order when
      they are not nodes yet; a later entry about the same pair replaces the
      weight. */
  method CrearGrafo(filas: seq<Fila>) returns (g: Graph)
    ensures WellFormed(g)
    ensures FirstOccurrences(Claves(filas)) <= g.nodes
    ensures g.nodes == FirstOccurrences(Claves(filas) + EndpointSeq(AristasMatriz(filas)))
    ensures forall n :: n in g.adj <==> n in Claves(filas) || n in Endpoints(AristasMatriz(filas))
    ensures forall a, b :: Lookup(g.adj, a, b) == LastWeight(AristasMatriz(filas), a, b)
  {
    var g0 := AddNodes(Claves(filas));
    g := AgregarAristas(g0, filas);
    BuiltOnNodes(g0, AristasMatriz(filas), g);
    FirstOccurrencesOfPrefix(Claves(filas), EndpointSeq(AristasMatriz(filas)));
  }

  /** The graph has no self-loops and only positive weights. */
  lemma GrafoSinLazos(filas: seq<Fila>, g: Graph)
    requires forall a, b :: Lookup(g.adj, a, b) == LastWeight(AristasMatriz(filas), a, b)
    ensures forall a :: !Adjacent(g, a, a)
    ensures forall a, b :: Adjacent(g, a, b) ==> Weight(g, a, b) > 0
  {
    var es := AristasMatriz(filas);
    AristasPropias(filas);
    forall a, b | Adjacent(g, a, b) ensures a != b && Weight(g, a, b) > 0 {
      assert Lookup(g.adj, a, b) == LastWeight(es, a, b);
      LastWeightIsLast(es, a, b);
      var i :| 0 <= i < |es| && EdgeMatch(es[i], a, b) && es[i].w == LastWeight(es, a, b).value;
      assert es[i] in es;
    }
  }

  /** An edge of the graph is an entry of the matrix that passes the guard, in
      one direction or the other. */
  lemma AristaDeLaMatriz(filas: seq<Fila>, g: Graph, a: string, b: string)
    requires forall x, y :: Lookup(g.adj, x, y) == LastWeight(AristasMatriz(filas), x, y)
    requires Adjacent(g, a, b)
    ensures exists i, j :: 0 <= i < |filas| && 0 <= j < |filas[i].destinos| && Valida(filas[i].origen, filas[i].destinos[j])
                           && ((filas[i].origen == a && filas[i].destinos[j].destino == b)
                               || (filas[i].origen == b && filas[i].destinos[j].destino == a))
  {
    var es := AristasMatriz(filas);
    assert Lookup(g.adj, a, b) == LastWeight(es, a, b);
    LastWeightIsLast(es, a, b);
    var k :| 0 <= k < |es| && EdgeMatch(es[k], a, b) && es[k].w == LastWeight(es, a, b).value;
    assert es[k] in es;
    AristasMatrizSonDeFilas(filas);
    var i :| 0 <= i < |filas| && es[k] in AristasFila(filas[i].origen, filas[i].destinos);
    AristasFilaSonValidas(filas[i].origen, filas[i].destinos);
    var j :| 0 <= j < |filas[i].destinos| && Valida(filas[i].origen, filas[i].destinos[j])
             && es[k] == Edge(filas[i].origen, filas[i].destinos[j].destino, filas[i].destinos[j].distancia as nat);
  }

  // ---------------------------------------------------------------- encontrar_ruta_optima

  /** The dictionary `{'ruta', 'distancia_total', 'tramos'}` or a message string. */
  datatype RutaOptima = Ruta(ruta: seq<string>, distanciaTotal: nat, tramos: seq<Segment>) | Mensaje(texto: string)

  /** `encontrar_ruta_optima(G, origen, destino)`: the first nodes whose names
      contain the queries (case-insensitively), a message for the first query
      that found none, then the shortest route between the two and its
      segments, or the no-route message naming the matched cities. */
  method EncontrarRutaOptima(g: Graph, origen: string, destino: string) returns (r: RutaOptima)
    requires WellFormed(g)
    ensures !Matched(FirstMatchOf(g.nodes, origen)) ==> r == Mensaje(OrigenNoEncontrado(origen))
    ensures Matched(FirstMatchOf(g.nodes, origen)) && !Matched(FirstMatchOf(g.nodes, destino)) ==>
              r == Mensaje(DestinoNoEncontrado(destino))
    ensures Matched(FirstMatchOf(g.nodes, origen)) && Matched(FirstMatchOf(g.nodes, destino)) ==>
              var om, dm := FirstMatchOf(g.nodes, origen).value, FirstMatchOf(g.nodes, destino).value;
              && (r.Ruta? <==> Reachable(g, om, dm))
              && (r.Ruta? ==> Shortest(g, om, dm, r.ruta) && r.distanciaTotal == PathCost(g, r.ruta)
                              && SegmentsOf(g, r.ruta, r.tramos))
              && (r.Mensaje? ==> r.texto == NoRouteMessage(om, dm))
  {
    var s := SelectCities(g.nodes, origen, destino);
    if s.NotFound? {
      return Mensaje(s.message);
    }
    SelectedAreFirstMatches(g.nodes, origen, destino, s);
    var ruta, longitud := ShortestPath(g, s.origen, s.destino);
    if ruta.None? {
      return Mensaje(NoRouteMessage(s.origen, s.destino));
    }
    var tramos := BuildSegments(g, ruta.value);
    return Ruta(ruta.value, longitud, tramos);
  }
}
