/** The result values the searches hand back: the route, its segment
    breakdown (`tramos`) and total, or a message string, or an exception. */
module Reporting {
  import opened Graphs

  /** One segment `(origen_tramo, destino_tramo, distancia_tramo)`. */
  datatype Segment = Segment(desde: string, hasta: string, distancia: nat)

  /** The dictionary `{'ruta', 'distancia_total', 'tramos', 'algoritmo'}`. */
  datatype SearchResult = SearchResult(ruta: seq<string>, distanciaTotal: nat, tramos: seq<Segment>, algoritmo: string)

  /** The Python exceptions that can escape from, or be caught in, the searches. */
  datatype Exception =
    | KeyError(key: string)     // a dictionary lookup of a missing node
    | NodeNotFound(node: string) // networkx: the source node is not in the graph

  /** A search returns a result dictionary or a message string, or raises. */
  datatype Outcome = Found(result: SearchResult) | Message(text: string) | Raised(exc: Exception)

  function NoRouteMessage(origen: string, destino: string): string {
    "No existe una ruta entre " + origen + " y " + destino
  }

  const NotInGraphMessage: string := "El origen o destino no existen en el grafo"

  lemma MessagesDiffer(origen: string, destino: string)
    ensures NoRouteMessage(origen, destino) != NotInGraphMessage
  {
    assert NoRouteMessage(origen, destino)[0] == 'N';
  }

  /** `tramos` lists, for each consecutive pair of `ruta`, the pair and the weight
      of the graph edge between them (`G[a][b]['weight']`), in route order. */
  ghost predicate SegmentsOf(g: Graph, ruta: seq<string>, tramos: seq<Segment>) {
    && Linked(g, ruta)
    && |tramos| == (if |ruta| == 0 then 0 else |ruta| - 1)
    && forall i :: 0 <= i < |tramos| ==> tramos[i] == Segment(ruta[i], ruta[i + 1], Weight(g, ruta[i], ruta[i + 1]))
  }

  /** The sum of the segment weights. */
  function SegmentsTotal(tramos: seq<Segment>): nat {
    if |tramos| == 0 then 0 else SegmentsTotal(tramos[..|tramos| - 1]) + tramos[|tramos| - 1].distancia
  }

  /** The segments of a route add up to the route's cost. */
  lemma {:induction false} SegmentsTotalIsPathCost(g: Graph, ruta: seq<string>, tramos: seq<Segment>)
    requires SegmentsOf(g, ruta, tramos)
    ensures SegmentsTotal(tramos) == PathCost(g, ruta)
    decreases |ruta|
  {
    if |ruta| > 1 {
      var r', t' := ruta[..|ruta| - 1], tramos[..|tramos| - 1];
      LinkedPrefix(g, ruta, |ruta| - 1);
      assert SegmentsOf(g, r', t');
      SegmentsTotalIsPathCost(g, r', t');
    }
  }

  /** The segment loop `for i in range(len(ruta)-1): tramos.append(...)`. */
  method BuildSegments(g: Graph, ruta: seq<string>) returns (tramos: seq<Segment>)
    requires Linked(g, ruta)
    ensures SegmentsOf(g, ruta, tramos)
  {
    tramos := [];
    var n := if |ruta| == 0 then 0 else |ruta| - 1;
    for i := 0 to n
      invariant |tramos| == i
      invariant forall j :: 0 <= j < i ==> tramos[j] == Segment(ruta[j], ruta[j + 1], Weight(g, ruta[j], ruta[j + 1]))
    {
      assert Adjacent(g, ruta[i], ruta[i + 1]);
      tramos := tramos + [Segment(ruta[i], ruta[i + 1], g.adj[ruta[i]][ruta[i + 1]])];
    }
  }

  /** The segment loop that also accumulates `distancia_total += distancia_tramo`. */
  method BuildSegmentsWithTotal(g: Graph, ruta: seq<string>) returns (total: nat, tramos: seq<Segment>)
    requires Linked(g, ruta)
    ensures SegmentsOf(g, ruta, tramos)
    ensures total == SegmentsTotal(tramos) && total == PathCost(g, ruta)
  {
    total := 0;
    tramos := [];
    var n := if |ruta| == 0 then 0 else |ruta| - 1;
    for i := 0 to n
      invariant |tramos| == i
      invariant forall j :: 0 <= j < i ==> tramos[j] == Segment(ruta[j], ruta[j + 1], Weight(g, ruta[j], ruta[j + 1]))
      invariant total == SegmentsTotal(tramos)
    {
      assert Adjacent(g, ruta[i], ruta[i + 1]);
      var s := Segment(ruta[i], ruta[i + 1], g.adj[ruta[i]][ruta[i + 1]]);
      assert (tramos + [s])[..i] == tramos;
      total := total + s.distancia;
      tramos := tramos + [s];
    }
    SegmentsTotalIsPathCost(g, ruta, tramos);
  }

  /** A route a search reports: a simple path of the graph from `origen` to
      `destino`, its total the path's cost, its segments the path's edges. */
  ghost predicate IsRouteResult(g: Graph, origen: string, destino: string, res: SearchResult, algoritmo: string) {
    && IsPathBetween(g, origen, destino, res.ruta)
    && Distinct(res.ruta)
    && res.distanciaTotal == PathCost(g, res.ruta)
    && SegmentsOf(g, res.ruta, res.tramos)
    && res.algoritmo == algoritmo
  }
}
