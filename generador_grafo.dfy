/** The later graph builder, `GeneradorGrafo.crear_grafo`: nodes tagged with
    their ids, the coordinate table for the heuristic searches, and one edge
    per unordered pair of cities, the first record about a pair deciding its
    weight. The records are its inputs; loading them is not modelled. */
module GeneradorGrafo {
  import opened Graphs
  import opened NxGraph
  import opened Registros

  /** What `crear_grafo` returns besides `None`: `G` with the `id` tag of each
      node, `coords` and `nombre_a_id`. */
  datatype Generado = Generado(g: Graph, idsNodo: map<string, int>, coords: map<string, Coord>, nombreAId: map<string, int>)

  /** The coordinates of the last record named `nombre` that has both a
      latitude and a longitude. */
  function UltimasCoords(ciudades: seq<Ciudad>, nombre: string): Option<Coord> {
    if |ciudades| == 0 then None
    else
      var c := ciudades[|ciudades| - 1];
      if c.nombre == nombre && c.latitud.Some? && c.longitud.Some? then Some(Coord(c.latitud.value, c.longitud.value))
      else UltimasCoords(ciudades[..|ciudades| - 1], nombre)
  }

  /** Record `c` is named `nombre` and has both coordinates. */
  predicate ConCoords(c: Ciudad, nombre: string) {
    c.nombre == nombre && c.latitud.Some? && c.longitud.Some?
  }

  /** A name has coordinates exactly when some record of that name has both
      present; they are the ones of the last such record. */
  lemma {:induction false} UltimasCoordsIsLast(ciudades: seq<Ciudad>, nombre: string)
    ensures UltimasCoords(ciudades, nombre).None? <==> forall i :: 0 <= i < |ciudades| ==> !ConCoords(ciudades[i], nombre)
    ensures UltimasCoords(ciudades, nombre).Some? ==>
              exists i :: 0 <= i < |ciudades| && ConCoords(ciudades[i], nombre)
                          && UltimasCoords(ciudades, nombre).value == Coord(ciudades[i].latitud.value, ciudades[i].longitud.value)
                          && forall j :: i < j < |ciudades| ==> !ConCoords(ciudades[j], nombre)
    decreases |ciudades|
  {
    if |ciudades| > 0 && !ConCoords(ciudades[|ciudades| - 1], nombre) {
      var p := ciudades[..|ciudades| - 1];
      UltimasCoordsIsLast(p, nombre);
      assert forall i :: 0 <= i < |p| ==> p[i] == ciudades[i];
    }
  }

  /** The coordinate table of the first `i` records. */
  ghost predicate CoordsOf(coords: map<string, Coord>, ciudades: seq<Ciudad>) {
    forall n :: (n in coords <==> UltimasCoords(ciudades, n).Some?)
                && (n in coords ==> coords[n] == UltimasCoords(ciudades, n).value)
  }

  /** The loop over the city records: `G.add_node(nombre, id=ciudad['id'])`
      (a repeated name keeps its node and takes the new id), and `coords[nombre]`
      set when both coordinates are present. */
  method AgregarCiudades(ciudades: seq<Ciudad>) returns (g: Graph, idsNodo: map<string, int>, coords: map<string, Coord>)
    ensures WellFormed(g)
    ensures g.nodes == FirstOccurrences(Nombres(ciudades))
    ensures forall a, b :: Lookup(g.adj, a, b).None?
    ensures idsNodo == NombreAId(ciudades)
    ensures CoordsOf(coords, ciudades)
  {
    g, idsNodo, coords := EmptyGraph, map[], map[];
    EmptyGraphWellFormed();
    var nombres := Nombres(ciudades);
    for i := 0 to |ciudades|
      invariant WellFormed(g)
      invariant g.nodes == FirstOccurrences(nombres[..i])
      invariant forall a, b :: Lookup(g.adj, a, b).None?
      invariant idsNodo == NombreAId(ciudades[..i])
      invariant CoordsOf(coords, ciudades[..i])
    {
      var c := ciudades[i];
      assert ciudades[..i + 1][..i] == ciudades[..i];
      assert nombres[..i + 1][..i] == nombres[..i];
      AddNodeWellFormed(g, c.nombre);
      g := AddNode(g, c.nombre);
      idsNodo := idsNodo[c.nombre := c.id];
      if c.latitud.Some? && c.longitud.Some? {
        coords := coords[c.nombre := Coord(c.latitud.value, c.longitud.value)];
      }
    }
    assert ciudades[..|ciudades|] == ciudades;
    assert nombres[..|ciudades|] == nombres;
  }

  /** `tuple(sorted([origen_nombre, destino_nombre]))`: the same key for both
      orders of a pair. */
  function Clave(a: string, b: string): set<string> {
    {a, b}
  }

  /** Two records share a key exactly when they are about the same unordered pair. */
  lemma ClaveIsPair(e: Edge, a: string, b: string)
    ensures Clave(e.u, e.v) == Clave(a, b) <==> EdgeMatch(e, a, b)
  {
    if Clave(e.u, e.v) == Clave(a, b) {
      assert a in Clave(e.u, e.v) && b in Clave(e.u, e.v);
      assert e.u in Clave(a, b) && e.v in Clave(a, b);
    }
  }

  /** The keys of the pairs already connected. */
  ghost function Claves(es: seq<Edge>): set<set<string>> {
    set e | e in es :: Clave(e.u, e.v)
  }

  /** A pair is already connected exactly when an earlier record is about it. */
  lemma ClaveSeen(es: seq<Edge>, a: string, b: string)
    ensures Clave(a, b) in Claves(es) <==> FirstWeight(es, a, b).Some?
  {
    FirstWeightIsFirst(es, a, b);
    if Clave(a, b) in Claves(es) {
      var e :| e in es && Clave(e.u, e.v) == Clave(a, b);
      ClaveIsPair(e, a, b);
      var k :| 0 <= k < |es| && es[k] == e;
    }
    if FirstWeight(es, a, b).Some? {
      var i :| 0 <= i < |es| && EdgeMatch(es[i], a, b);
      ClaveIsPair(es[i], a, b);
      assert es[i] in es;
    }
  }

  /** Records about the same pair see the same first weight. */
  lemma FirstWeightSamePair(es: seq<Edge>, e: Edge, a: string, b: string)
    requires EdgeMatch(e, a, b)
    ensures FirstWeight(es, a, b) == FirstWeight(es, e.u, e.v)
  {
    WeightsSymmetric(es, a, b);
  }

  /** The invariant of the loop over the distance records. */
  ghost predicate ConexionesInv(g0: Graph, es: seq<Edge>, conexiones: set<set<string>>, g: Graph) {
    && WellFormed(g) && g.nodes == g0.nodes && g.adj.Keys == g0.adj.Keys
    && conexiones == Claves(es)
    && forall a, b :: Lookup(g.adj, a, b) == FirstWeight(es, a, b)
  }

  /** One known record: added if its pair is new, ignored otherwise. */
  lemma ConexionStep(g0: Graph, es: seq<Edge>, conexiones: set<set<string>>, g: Graph, e: Edge)
    requires ConexionesInv(g0, es, conexiones, g)
    requires e.u in g.adj && e.v in g.adj
    ensures Clave(e.u, e.v) !in conexiones ==>
              ConexionesInv(g0, es + [e], conexiones + {Clave(e.u, e.v)}, AddEdge(g, e.u, e.v, e.w))
    ensures Clave(e.u, e.v) in conexiones ==> ConexionesInv(g0, es + [e], conexiones, g)
  {
    ClaveSeen(es, e.u, e.v);
    assert Claves(es + [e]) == Claves(es) + {Clave(e.u, e.v)};
    if Clave(e.u, e.v) !in conexiones {
      AddEdgeWellFormed(g, e.u, e.v, e.w);
      var r := AddEdge(g, e.u, e.v, e.w);
      forall a, b ensures Lookup(r.adj, a, b) == FirstWeight(es + [e], a, b) {
        FirstWeightSnoc(es, e, a, b);
        if EdgeMatch(e, a, b) {
          FirstWeightSamePair(es, e, a, b);
        }
      }
    } else {
      assert Claves(es + [e]) == Claves(es);
      forall a, b ensures Lookup(g.adj, a, b) == FirstWeight(es + [e], a, b) {
        FirstWeightSnoc(es, e, a, b);
        if EdgeMatch(e, a, b) {
          FirstWeightSamePair(es, e, a, b);
        }
      }
    }
  }

  /** The loop over the distance records: a record whose ids are both known adds
      the edge between the two names, unless their pair is already connected. */
  method AgregarConexiones(g0: Graph, idANombre: map<int, string>, distancias: seq<Distancia>) returns (g: Graph)
    requires WellFormed(g0)
    requires forall k :: k in idANombre ==> idANombre[k] in g0.adj
    requires forall a, b :: Lookup(g0.adj, a, b).None?
    ensures WellFormed(g) && g.nodes == g0.nodes && g.adj.Keys == g0.adj.Keys
    ensures forall a, b :: Lookup(g.adj, a, b) == FirstWeight(Conocidas(idANombre, distancias), a, b)
  {
    g := g0;
    var conexiones: set<set<string>> := {};
    assert Conocidas(idANombre, distancias[..0]) == [];
    for i := 0 to |distancias|
      invariant ConexionesInv(g0, Conocidas(idANombre, distancias[..i]), conexiones, g)
    {
      var d := distancias[i];
      assert distancias[..i + 1][..i] == distancias[..i];
      if d.origenId in idANombre && d.destinoId in idANombre {
        var origen := idANombre[d.origenId];
        var destino := idANombre[d.destinoId];
        var clave := Clave(origen, destino);
        ConexionStep(g0, Conocidas(idANombre, distancias[..i]), conexiones, g, Nombrada(idANombre, d));
        if clave !in conexiones {
          g := AddEdge(g, origen, destino, d.distancia);
          conexiones := conexiones + {clave};
        }
      }
    }
    assert distancias[..|distancias|] == distancias;
  }

  /** `GeneradorGrafo.crear_grafo` once the records are loaded: `None` when either
      table is empty; otherwise every city a node tagged with its id, in record
      order, the coordinates of the cities that have both, and one edge per
      unordered pair of known cities, weighted by the first record about it.
      Records naming an unknown id are skipped. */
  method CrearGrafo(ciudades: seq<Ciudad>, distancias: seq<Distancia>) returns (r: Option<Generado>)
    ensures r.None? <==> |ciudades| == 0 || |distancias| == 0
    ensures r.Some? ==>
              && WellFormed(r.value.g)
              && r.value.g.nodes == FirstOccurrences(Nombres(ciudades))
              && r.value.idsNodo == r.value.nombreAId == NombreAId(ciudades)
              && CoordsOf(r.value.coords, ciudades)
              && forall a, b :: Lookup(r.value.g.adj, a, b) == FirstWeight(Conocidas(IdANombre(ciudades), distancias), a, b)
  {
    if |ciudades| == 0 || |distancias| == 0 {
      return None;
    }
    var idANombre := IdANombre(ciudades);
    var nombreAId := NombreAId(ciudades);
    var g0, idsNodo, coords := AgregarCiudades(ciudades);
    IdANombreValues(ciudades);
    forall k | k in idANombre ensures idANombre[k] in g0.adj {
      assert idANombre[k] in FirstOccurrences(Nombres(ciudades));
    }
    var g := AgregarConexiones(g0, idANombre, distancias);
    return Some(Generado(g, idsNodo, coords, nombreAId));
  }

  /** Each pair carries the weight of the first known record about it, later
      records about the same pair in either direction being ignored; a pair no
      known record names is not an edge. */
  lemma FirstRecordWins(g: Graph, es: seq<Edge>, a: string, b: string)
    requires forall x, y :: Lookup(g.adj, x, y) == FirstWeight(es, x, y)
    ensures Adjacent(g, a, b) <==> exists i :: 0 <= i < |es| && EdgeMatch(es[i], a, b)
    ensures Adjacent(g, a, b) ==>
              exists i :: 0 <= i < |es| && EdgeMatch(es[i], a, b) && es[i].w == Weight(g, a, b)
                          && forall j :: 0 <= j < i ==> !EdgeMatch(es[j], a, b)
  {
    FirstWeightIsFirst(es, a, b);
    assert Lookup(g.adj, a, b) == FirstWeight(es, a, b);
  }
}
