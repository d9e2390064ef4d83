/** The city and distance records the graph builders receive (rows of the
    `ciudades` and `distancias` tables), and the id/name dictionaries built
    from them by comprehension. */
module Registros {
  import opened Graphs
  import opened NxGraph

  /** A row of `ciudades`. The older builder selects only `id` and `nombre`;
      a coordinate that is absent or `None` is `None` here. */
  datatype Ciudad = Ciudad(id: int, nombre: string, latitud: Option<real>, longitud: Option<real>)

  /** A row of `distancias`: the ids of the two cities and the distance in km. */
  datatype Distancia = Distancia(origenId: int, destinoId: int, distancia: nat)

  /** `{ciudad['id']: ciudad['nombre'] for ciudad in ciudades}`. */
  function IdANombre(ciudades: seq<Ciudad>): map<int, string> {
    if |ciudades| == 0 then map[]
    else IdANombre(ciudades[..|ciudades| - 1])[ciudades[|ciudades| - 1].id := ciudades[|ciudades| - 1].nombre]
  }

  /** `{ciudad['nombre']: ciudad['id'] for ciudad in ciudades}`. */
  function NombreAId(ciudades: seq<Ciudad>): map<string, int> {
    if |ciudades| == 0 then map[]
    else NombreAId(ciudades[..|ciudades| - 1])[ciudades[|ciudades| - 1].nombre := ciudades[|ciudades| - 1].id]
  }

  /** The city names in record order. */
  function Nombres(ciudades: seq<Ciudad>): (r: seq<string>)
    ensures |r| == |ciudades| && forall i :: 0 <= i < |r| ==> r[i] == ciudades[i].nombre
  {
    seq(|ciudades|, i requires 0 <= i < |ciudades| => ciudades[i].nombre)
  }

  /** In a dictionary comprehension the last record with a key wins: every id
      is a key, mapped to the name of the last record carrying it. */
  lemma {:induction false} IdANombreLastWins(ciudades: seq<Ciudad>)
    ensures forall k :: k in IdANombre(ciudades) <==> exists i :: 0 <= i < |ciudades| && ciudades[i].id == k
    ensures forall i :: 0 <= i < |ciudades| && (forall j :: i < j < |ciudades| ==> ciudades[j].id != ciudades[i].id) ==>
              IdANombre(ciudades)[ciudades[i].id] == ciudades[i].nombre
    decreases |ciudades|
  {
    if |ciudades| > 0 {
      var p := ciudades[..|ciudades| - 1];
      IdANombreLastWins(p);
      assert forall i :: 0 <= i < |p| ==> p[i] == ciudades[i];
      assert ciudades == p + [ciudades[|ciudades| - 1]];
    }
  }

  /** Every name `id_a_nombre` gives is the name of some record. */
  lemma {:induction false} IdANombreValues(ciudades: seq<Ciudad>)
    ensures forall k :: k in IdANombre(ciudades) ==> IdANombre(ciudades)[k] in Nombres(ciudades)
    decreases |ciudades|
  {
    if |ciudades| > 0 {
      var p := ciudades[..|ciudades| - 1];
      IdANombreValues(p);
      assert Nombres(ciudades) == Nombres(p) + [ciudades[|ciudades| - 1].nombre];
    }
  }

  /** The same for `nombre_a_id`: each name maps to the id of its last record. */
  lemma {:induction false} NombreAIdLastWins(ciudades: seq<Ciudad>)
    ensures forall n :: n in NombreAId(ciudades) <==> n in Nombres(ciudades)
    ensures forall i :: 0 <= i < |ciudades| && (forall j :: i < j < |ciudades| ==> ciudades[j].nombre != ciudades[i].nombre) ==>
              NombreAId(ciudades)[ciudades[i].nombre] == ciudades[i].id
    decreases |ciudades|
  {
    if |ciudades| > 0 {
      var p := ciudades[..|ciudades| - 1];
      NombreAIdLastWins(p);
      assert forall i :: 0 <= i < |p| ==> p[i] == ciudades[i];
      assert Nombres(ciudades) == Nombres(p) + [ciudades[|ciudades| - 1].nombre];
    }
  }

  /** Every id a distance record names is a known city id. */
  predicate Conocida(idANombre: map<int, string>, d: Distancia) {
    d.origenId in idANombre && d.destinoId in idANombre
  }

  /** The edge a known distance record stands for, its ends named. */
  function Nombrada(idANombre: map<int, string>, d: Distancia): Edge
    requires Conocida(idANombre, d)
  {
    Edge(idANombre[d.origenId], idANombre[d.destinoId], d.distancia)
  }

  /** The records whose two ids are known, as named edges, in record order;
      the others are dropped. */
  function Conocidas(idANombre: map<int, string>, ds: seq<Distancia>): seq<Edge> {
    if |ds| == 0 then []
    else if Conocida(idANombre, ds[|ds| - 1]) then Conocidas(idANombre, ds[..|ds| - 1]) + [Nombrada(idANombre, ds[|ds| - 1])]
    else Conocidas(idANombre, ds[..|ds| - 1])
  }
}
