/** Case-insensitive partial matching of a typed city name against the node
    names of the graph, as `encontrar_ruta_optima` does it in both versions. */
module NameMatch {
  import opened Graphs

  /** Python's `str.lower()` on one character of the Latin-1 range: the upper-case
      letters `A`-`Z` and `À`-`Þ` (except `×`) move 32 code points down; every
      other character is left as it is. */
  function LowerChar(c: char): char {
    if 'A' <= c <= 'Z' || ('À' <= c <= 'Þ' && c != '×') then (c as int + 32) as char else c
  }

  /** `s.lower()`, character by character. */
  function Lower(s: string): string {
    seq(|s|, i requires 0 <= i < |s| => LowerChar(s[i]))
  }

  /** Python's `t in s` on strings: `t` occurs in `s` as a contiguous substring. */
  predicate Contains(s: string, t: string)
    decreases |s|
  {
    (|t| <= |s| && s[..|t|] == t) || (|s| > 0 && Contains(s[1..], t))
  }

  /** `query.lower() in ciudad.lower()`. */
  predicate Matches(query: string, ciudad: string) {
    Contains(Lower(ciudad), Lower(query))
  }

  /** The city the `for ciudad in G.nodes(): ... break` loop settles on: the first
      node, in node order, that matches the query. */
  function FirstMatchOf(nodes: seq<string>, query: string): Option<string> {
    if |nodes| == 0 then None
    else if Matches(query, nodes[0]) then Some(nodes[0])
    else FirstMatchOf(nodes[1..], query)
  }

  /** Lower-casing is idempotent: a lower-case string stays as it is. */
  lemma LowerIdempotent(s: string)
    ensures |Lower(s)| == |s|
    ensures Lower(Lower(s)) == Lower(s)
  {
    forall i | 0 <= i < |s| ensures LowerChar(LowerChar(s[i])) == LowerChar(s[i]) {
    }
  }

  /** Matching is case-insensitive: lower-casing the query first changes nothing. */
  lemma MatchesCaseInsensitive(query: string, ciudad: string)
    ensures Matches(Lower(query), ciudad) == Matches(query, ciudad)
  {
    LowerIdempotent(query);
  }

  /** `t` is spelled out in `s` from offset `k` on. */
  predicate OccursAt(s: string, t: string, k: nat) {
    k + |t| <= |s| && s[k..k + |t|] == t
  }

  /** A substring found by `Contains` sits at some offset of `s`. */
  lemma {:induction false} ContainsOffset(s: string, t: string) returns (k: nat)
    requires Contains(s, t)
    ensures OccursAt(s, t, k)
    decreases |s|
  {
    if |t| <= |s| && s[..|t|] == t {
      k := 0;
    } else {
      var k' := ContainsOffset(s[1..], t);
      assert s[1..][k'..k' + |t|] == s[k' + 1..k' + 1 + |t|];
      k := k' + 1;
    }
  }

  /** Conversely, a substring at any offset of `s` is found by `Contains`. */
  lemma {:induction false} OccursContained(s: string, t: string, k: nat)
    requires OccursAt(s, t, k)
    ensures Contains(s, t)
    decreases k
  {
    if k > 0 {
      assert s[1..][k - 1..k - 1 + |t|] == s[k..k + |t|];
      OccursContained(s[1..], t, k - 1);
    }
  }

  /** `Contains` is Python's substring test: some offset of `s` spells out `t`. */
  lemma ContainsAt(s: string, t: string)
    ensures Contains(s, t) <==> exists k: nat :: OccursAt(s, t, k)
  {
    if Contains(s, t) {
      var k := ContainsOffset(s, t);
    }
    if exists k: nat :: OccursAt(s, t, k) {
      var k: nat :| OccursAt(s, t, k);
      OccursContained(s, t, k);
    }
  }

  /** The empty query is in every name: it matches the first node. */
  lemma EmptyQueryMatchesFirst(nodes: seq<string>)
    requires |nodes| > 0
    ensures FirstMatchOf(nodes, "") == Some(nodes[0])
  {
    assert Lower("") == "";
  }

  /** `FirstMatchOf` picks a node that matches, and no node before it matches;
      it finds nothing only when no node matches at all. */
  lemma {:induction false} FirstMatchOfIsFirst(nodes: seq<string>, query: string)
    ensures FirstMatchOf(nodes, query).None? <==> forall j :: 0 <= j < |nodes| ==> !Matches(query, nodes[j])
    ensures FirstMatchOf(nodes, query).Some? ==>
              exists i :: 0 <= i < |nodes| && nodes[i] == FirstMatchOf(nodes, query).value && Matches(query, nodes[i])
                          && forall j :: 0 <= j < i ==> !Matches(query, nodes[j])
    decreases |nodes|
  {
    if |nodes| > 0 && !Matches(query, nodes[0]) {
      var rest := nodes[1..];
      FirstMatchOfIsFirst(rest, query);
      assert forall j :: 0 <= j < |rest| ==> rest[j] == nodes[j + 1];
      if FirstMatchOf(rest, query).Some? {
        var i :| 0 <= i < |rest| && rest[i] == FirstMatchOf(rest, query).value && Matches(query, rest[i])
                 && forall j :: 0 <= j < i ==> !Matches(query, rest[j]);
        assert nodes[i + 1] == rest[i];
        assert forall j :: 0 <= j < i + 1 ==> !Matches(query, nodes[j]) by {
          forall j | 0 <= j < i + 1 ensures !Matches(query, nodes[j]) {
            if j > 0 {
              assert nodes[j] == rest[j - 1];
            }
          }
        }
      }
    }
  }

  /** The loop `for ciudad in G.nodes(): if query_lower in ciudad.lower(): match = ciudad; break`. */
  method FirstMatch(nodes: seq<string>, query: string) returns (m: Option<string>)
    ensures m == FirstMatchOf(nodes, query)
  {
    var queryLower := Lower(query);
    m := None;
    var i := 0;
    while i < |nodes|
      invariant 0 <= i <= |nodes|
      invariant FirstMatchOf(nodes, query) == FirstMatchOf(nodes[i..], query)
    {
      if Contains(Lower(nodes[i]), queryLower) {
        m := Some(nodes[i]);
        break;
      }
      assert nodes[i..][1..] == nodes[i + 1..];
      i := i + 1;
    }
    if m.None? {
      assert nodes[i..] == [];
    }
  }

  /** Python's `if not match`: `None` and the empty name are both false. */
  predicate Matched(m: Option<string>) {
    m.Some? && m.value != ""
  }

  function OrigenNoEncontrado(origen: string): string {
    "No se encontró la ciudad de origen '" + origen + "'"
  }

  function DestinoNoEncontrado(destino: string): string {
    "No se encontró la ciudad de destino '" + destino + "'"
  }

  /** The two cities a search will run between, or the message for the first
      query that matched nothing. */
  datatype Selection = Selected(origen: string, destino: string) | NotFound(message: string)

  /** The matching part of `encontrar_ruta_optima`: both loops run first, then
      the origin is checked before the destination. */
  method SelectCities(nodes: seq<string>, origen: string, destino: string) returns (s: Selection)
    ensures !Matched(FirstMatchOf(nodes, origen)) ==> s == NotFound(OrigenNoEncontrado(origen))
    ensures Matched(FirstMatchOf(nodes, origen)) && !Matched(FirstMatchOf(nodes, destino)) ==>
              s == NotFound(DestinoNoEncontrado(destino))
    ensures Matched(FirstMatchOf(nodes, origen)) && Matched(FirstMatchOf(nodes, destino)) ==>
              s == Selected(FirstMatchOf(nodes, origen).value, FirstMatchOf(nodes, destino).value)
  {
    var origenMatch := FirstMatch(nodes, origen);
    var destinoMatch := FirstMatch(nodes, destino);
    if !Matched(origenMatch) {
      return NotFound(OrigenNoEncontrado(origen));
    }
    if !Matched(destinoMatch) {
      return NotFound(DestinoNoEncontrado(destino));
    }
    return Selected(origenMatch.value, destinoMatch.value);
  }

  /** A selected city is a node of the graph whose name matches its query. */
  lemma SelectedAreFirstMatches(nodes: seq<string>, origen: string, destino: string, s: Selection)
    requires Matched(FirstMatchOf(nodes, origen)) && Matched(FirstMatchOf(nodes, destino))
    requires s == Selected(FirstMatchOf(nodes, origen).value, FirstMatchOf(nodes, destino).value)
    ensures s.origen in nodes && Matches(origen, s.origen)
    ensures s.destino in nodes && Matches(destino, s.destino)
  {
    FirstMatchOfIsFirst(nodes, origen);
    FirstMatchOfIsFirst(nodes, destino);
  }
}
