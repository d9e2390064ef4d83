/** The part of networkx's `nx.Graph` the construction code uses: `add_node`,
    `add_edge` and the node order `G.nodes()` reports. */
module NxGraph {
  import opened Graphs

  /** `G[a][b]['weight']` if the edge exists. */
  function Lookup(adj: map<string, map<string, nat>>, a: string, b: string): Option<nat> {
    if a in adj && b in adj[a] then Some(adj[a][b]) else None
  }

  const EmptyGraph: Graph := Graph([], map[])

  lemma EmptyGraphWellFormed()
    ensures WellFormed(EmptyGraph)
  {
  }

  /** `G.add_node(n)`: a new node goes to the end of the node order with no
      neighbours; adding an existing node changes nothing. */
  function AddNode(g: Graph, n: string): (r: Graph)
    ensures r.adj.Keys == g.adj.Keys + {n}
    ensures r.nodes == if n in g.adj then g.nodes else g.nodes + [n]
    ensures forall a, b :: Lookup(r.adj, a, b) == Lookup(g.adj, a, b)
  {
    if n in g.adj then g else Graph(g.nodes + [n], g.adj[n := map[]])
  }

  /** `G.add_edge(u, v, weight=w)`: adds the missing endpoints as nodes, `u` first,
      and sets the weight of the undirected edge, replacing an earlier weight. */
  function AddEdge(g: Graph, u: string, v: string, w: nat): (r: Graph)
    ensures r.adj.Keys == g.adj.Keys + {u, v}
    ensures r.nodes == AddNode(AddNode(g, u), v).nodes
    ensures forall a, b :: Lookup(r.adj, a, b) == if (a == u && b == v) || (a == v && b == u) then Some(w) else Lookup(g.adj, a, b)
  {
    var g1 := AddNode(AddNode(g, u), v);
    var nu: map<string, nat> := g1.adj[u][v := w];
    var a1 := g1.adj[u := nu];
    var nv: map<string, nat> := a1[v][u := w];
    Graph(g1.nodes, a1[v := nv])
  }

  lemma AddNodeWellFormed(g: Graph, n: string)
    requires WellFormed(g)
    ensures WellFormed(AddNode(g, n))
  {
    var r := AddNode(g, n);
    forall a, b | Adjacent(r, a, b) ensures Adjacent(g, a, b) {
      assert Lookup(r.adj, a, b) == Lookup(g.adj, a, b);
    }
  }

  lemma AddEdgeWellFormed(g: Graph, u: string, v: string, w: nat)
    requires WellFormed(g)
    ensures WellFormed(AddEdge(g, u, v, w))
  {
    AddNodeWellFormed(g, u);
    AddNodeWellFormed(AddNode(g, u), v);
    var r := AddEdge(g, u, v, w);
    forall a, b | Adjacent(r, a, b) ensures Adjacent(r, b, a) && Weight(r, b, a) == Weight(r, a, b) {
      assert Lookup(r.adj, a, b) == Some(r.adj[a][b]);
      if !((a == u && b == v) || (a == v && b == u)) {
        assert Lookup(g.adj, a, b) == Some(r.adj[a][b]);
        assert Adjacent(g, a, b);
        assert Lookup(g.adj, b, a) == Some(g.adj[b][a]);
        assert Lookup(r.adj, b, a) == Lookup(g.adj, b, a);
      } else {
        assert Lookup(r.adj, b, a) == Some(w);
      }
    }
  }

  /** The distinct elements of `s` in the order of their first occurrence. */
  function FirstOccurrences(s: seq<string>): (r: seq<string>)
    ensures forall x :: x in r <==> x in s
    ensures Distinct(r)
  {
    if |s| == 0 then []
    else
      var p := FirstOccurrences(s[..|s| - 1]);
      if s[|s| - 1] in p then p else p + [s[|s| - 1]]
  }

  /** Appending one name: it is listed at the end unless it already occurs. */
  lemma FirstOccurrencesSnoc(s: seq<string>, x: string)
    ensures FirstOccurrences(s + [x]) == if x in FirstOccurrences(s) then FirstOccurrences(s) else FirstOccurrences(s) + [x]
  {
    assert (s + [x])[..|s|] == s;
  }

  /** A list without repetitions is its own list of first occurrences. */
  lemma {:induction false} FirstOccurrencesOfDistinct(s: seq<string>)
    requires Distinct(s)
    ensures FirstOccurrences(s) == s
    decreases |s|
  {
    if |s| > 0 {
      var p := s[..|s| - 1];
      FirstOccurrencesOfDistinct(p);
      assert p + [s[|s| - 1]] == s;
    }
  }

  /** Removing repetitions from a prefix first changes nothing. */
  lemma {:induction false} FirstOccurrencesOfPrefix(s: seq<string>, t: seq<string>)
    ensures FirstOccurrences(FirstOccurrences(s) + t) == FirstOccurrences(s + t)
    decreases |t|
  {
    if |t| == 0 {
      assert FirstOccurrences(s) + t == FirstOccurrences(s);
      assert s + t == s;
      FirstOccurrencesOfDistinct(FirstOccurrences(s));
    } else {
      var t', x := t[..|t| - 1], t[|t| - 1];
      FirstOccurrencesOfPrefix(s, t');
      assert FirstOccurrences(s) + t == (FirstOccurrences(s) + t') + [x];
      assert s + t == (s + t') + [x];
      FirstOccurrencesSnoc(FirstOccurrences(s) + t', x);
      FirstOccurrencesSnoc(s + t', x);
    }
  }

  /** `add_node` on a graph whose nodes are the first occurrences of `s`. */
  lemma AddNodeOrder(g: Graph, s: seq<string>, x: string)
    requires WellFormed(g) && g.nodes == FirstOccurrences(s)
    ensures AddNode(g, x).nodes == FirstOccurrences(s + [x])
  {
    FirstOccurrencesSnoc(s, x);
  }

  /** One undirected weighted edge record, its endpoints already named. */
  datatype Edge = Edge(u: string, v: string, w: nat)

  /** Record `e` is about the unordered pair `{a, b}`. */
  predicate EdgeMatch(e: Edge, a: string, b: string) {
    (e.u == a && e.v == b) || (e.u == b && e.v == a)
  }

  /** The weight of the last record about `{a, b}`: `add_edge` overwrites. */
  function LastWeight(es: seq<Edge>, a: string, b: string): Option<nat> {
    if |es| == 0 then None
    else if EdgeMatch(es[|es| - 1], a, b) then Some(es[|es| - 1].w)
    else LastWeight(es[..|es| - 1], a, b)
  }

  /** The weight of the first record about `{a, b}`: later duplicates are ignored. */
  function FirstWeight(es: seq<Edge>, a: string, b: string): Option<nat> {
    if |es| == 0 then None
    else if EdgeMatch(es[0], a, b) then Some(es[0].w)
    else FirstWeight(es[1..], a, b)
  }

  /** The last record wins: `LastWeight` is the weight of the record about `{a, b}`
      that no later record about `{a, b}` follows, and `None` when there is none. */
  lemma {:induction false} LastWeightIsLast(es: seq<Edge>, a: string, b: string)
    ensures LastWeight(es, a, b).None? <==> forall i :: 0 <= i < |es| ==> !EdgeMatch(es[i], a, b)
    ensures LastWeight(es, a, b).Some? ==>
              exists i :: 0 <= i < |es| && EdgeMatch(es[i], a, b) && es[i].w == LastWeight(es, a, b).value
                          && forall j :: i < j < |es| ==> !EdgeMatch(es[j], a, b)
  {
    if |es| > 0 && !EdgeMatch(es[|es| - 1], a, b) {
      var p := es[..|es| - 1];
      LastWeightIsLast(p, a, b);
      assert forall i :: 0 <= i < |p| ==> p[i] == es[i];
    }
  }

  /** The first record wins, symmetrically. */
  lemma {:induction false} FirstWeightIsFirst(es: seq<Edge>, a: string, b: string)
    ensures FirstWeight(es, a, b).None? <==> forall i :: 0 <= i < |es| ==> !EdgeMatch(es[i], a, b)
    ensures FirstWeight(es, a, b).Some? ==>
              exists i :: 0 <= i < |es| && EdgeMatch(es[i], a, b) && es[i].w == FirstWeight(es, a, b).value
                          && forall j :: 0 <= j < i ==> !EdgeMatch(es[j], a, b)
  {
    if |es| > 0 && !EdgeMatch(es[0], a, b) {
      var p := es[1..];
      FirstWeightIsFirst(p, a, b);
      assert forall i :: 0 <= i < |p| ==> p[i] == es[i + 1];
      if FirstWeight(es, a, b).Some? {
        var i :| 0 <= i < |p| && EdgeMatch(p[i], a, b) && p[i].w == FirstWeight(p, a, b).value
                 && forall j :: 0 <= j < i ==> !EdgeMatch(p[j], a, b);
        assert EdgeMatch(es[i + 1], a, b);
      }
    }
  }

  /** Appending a record to the first-wins table. */
  lemma {:induction false} FirstWeightSnoc(es: seq<Edge>, e: Edge, a: string, b: string)
    ensures FirstWeight(es + [e], a, b) ==
              if FirstWeight(es, a, b).Some? then FirstWeight(es, a, b)
              else if EdgeMatch(e, a, b) then Some(e.w) else None
    decreases |es|
  {
    if |es| > 0 {
      assert (es + [e])[1..] == es[1..] + [e];
      FirstWeightSnoc(es[1..], e, a, b);
    }
  }

  /** Both weight tables are symmetric in the pair. */
  lemma {:induction false} WeightsSymmetric(es: seq<Edge>, a: string, b: string)
    ensures LastWeight(es, a, b) == LastWeight(es, b, a)
    ensures FirstWeight(es, a, b) == FirstWeight(es, b, a)
  {
    if |es| > 0 {
      WeightsSymmetric(es[..|es| - 1], a, b);
      WeightsSymmetric(es[1..], a, b);
    }
  }

  /** The nodes the records name. */
  function Endpoints(es: seq<Edge>): set<string> {
    if |es| == 0 then {} else Endpoints(es[..|es| - 1]) + {es[|es| - 1].u, es[|es| - 1].v}
  }

  /** The endpoints the records name, in the order `add_edge` meets them: `u`, then `v`. */
  function EndpointSeq(es: seq<Edge>): (r: seq<string>)
    ensures forall x :: x in r <==> x in Endpoints(es)
  {
    if |es| == 0 then [] else EndpointSeq(es[..|es| - 1]) + [es[|es| - 1].u, es[|es| - 1].v]
  }

  lemma EndpointSeqSnoc(es: seq<Edge>, e: Edge)
    ensures EndpointSeq(es + [e]) == EndpointSeq(es) + [e.u, e.v]
  {
    assert (es + [e])[..|es|] == es;
  }

  lemma EndpointsSnoc(es: seq<Edge>, e: Edge)
    ensures Endpoints(es + [e]) == Endpoints(es) + {e.u, e.v}
  {
    assert (es + [e])[..|es|] == es;
  }

  lemma AddEdgeLookups(g0: Graph, es: seq<Edge>, e: Edge, g: Graph)
    requires forall a, b :: Lookup(g.adj, a, b) == if LastWeight(es, a, b).Some? then LastWeight(es, a, b) else Lookup(g0.adj, a, b)
    ensures forall a, b :: Lookup(AddEdge(g, e.u, e.v, e.w).adj, a, b) ==
                           if LastWeight(es + [e], a, b).Some? then LastWeight(es + [e], a, b) else Lookup(g0.adj, a, b)
  {
    forall a, b ensures Lookup(AddEdge(g, e.u, e.v, e.w).adj, a, b) ==
                        if LastWeight(es + [e], a, b).Some? then LastWeight(es + [e], a, b) else Lookup(g0.adj, a, b)
    {
      LastWeightSnoc(es, e, a, b);
    }
  }

  /** Appending a record to the last-wins table. */
  lemma LastWeightSnoc(es: seq<Edge>, e: Edge, a: string, b: string)
    ensures LastWeight(es + [e], a, b) == if EdgeMatch(e, a, b) then Some(e.w) else LastWeight(es, a, b)
  {
    assert (es + [e])[..|es|] == es;
  }

  /** `g` is `g0` after `add_edge` of every record of `es`, in order: the
      records' endpoints are added as nodes after the old ones, and every pair
      they name carries the weight of the last record about it. */
  ghost predicate Built(g0: Graph, es: seq<Edge>, g: Graph) {
    && WellFormed(g)
    && g.adj.Keys == g0.adj.Keys + Endpoints(es)
    && (forall a, b :: Lookup(g.adj, a, b) ==
          if LastWeight(es, a, b).Some? then LastWeight(es, a, b) else Lookup(g0.adj, a, b))
    && g0.nodes <= g.nodes
  }

  /** `Built`, and each new node joins the end of the node order when it is first met. */
  ghost predicate BuiltInOrder(g0: Graph, es: seq<Edge>, g: Graph) {
    Built(g0, es, g) && g.nodes == FirstOccurrences(g0.nodes + EndpointSeq(es))
  }

  lemma BuiltNothing(g0: Graph)
    requires WellFormed(g0)
    ensures Built(g0, [], g0)
  {
  }

  lemma BuiltInOrderNothing(g0: Graph)
    requires WellFormed(g0)
    ensures BuiltInOrder(g0, [], g0)
  {
    assert g0.nodes + EndpointSeq([]) == g0.nodes;
    FirstOccurrencesOfDistinct(g0.nodes);
  }

  /** One more `add_edge`. */
  lemma BuiltSnoc(g0: Graph, es: seq<Edge>, e: Edge, g: Graph)
    requires Built(g0, es, g)
    ensures Built(g0, es + [e], AddEdge(g, e.u, e.v, e.w))
  {
    AddEdgeWellFormed(g, e.u, e.v, e.w);
    EndpointsSnoc(es, e);
    AddEdgeLookups(g0, es, e, g);
    AddEdgeKeepsOrder(g0.nodes, g, e);
  }

  /** One more `add_edge`, keeping track of the node order. */
  lemma BuiltInOrderSnoc(g0: Graph, es: seq<Edge>, e: Edge, g: Graph)
    requires BuiltInOrder(g0, es, g)
    ensures BuiltInOrder(g0, es + [e], AddEdge(g, e.u, e.v, e.w))
  {
    BuiltSnoc(g0, es, e, g);
    AddEdgeOrder(g0, es, e, g);
  }

  /** `add_edge` for each edge of `es` in turn. */
  function AddEdges(g: Graph, es: seq<Edge>): Graph
    decreases |es|
  {
    if |es| == 0 then g
    else
      var e := es[|es| - 1];
      AddEdge(AddEdges(g, es[..|es| - 1]), e.u, e.v, e.w)
  }

  lemma AddEdgesSnoc(g: Graph, es: seq<Edge>, e: Edge)
    ensures AddEdges(g, es + [e]) == AddEdge(AddEdges(g, es), e.u, e.v, e.w)
  {
    assert (es + [e])[..|es|] == es;
  }

  /** Adding the edges one by one builds the graph `Built` describes. */
  lemma {:induction false} AddEdgesBuilt(g0: Graph, es: seq<Edge>)
    requires WellFormed(g0)
    ensures Built(g0, es, AddEdges(g0, es))
    decreases |es|
  {
    if |es| == 0 {
      BuiltNothing(g0);
    } else {
      var p, e := es[..|es| - 1], es[|es| - 1];
      assert p + [e] == es;
      AddEdgesBuilt(g0, p);
      AddEdgesSnoc(g0, p, e);
      BuiltSnoc(g0, p, e, AddEdges(g0, p));
    }
  }

  /** `add_edge` between two existing nodes leaves the node order as it is. */
  lemma AddEdgeBetweenNodes(g: Graph, u: string, v: string, w: nat)
    requires u in g.adj && v in g.adj
    ensures AddEdge(g, u, v, w).nodes == g.nodes
  {
  }

  /** `add_edge` never reorders the nodes already there. */
  lemma AddEdgeKeepsOrder(prefix: seq<string>, g: Graph, e: Edge)
    requires prefix <= g.nodes
    ensures prefix <= AddEdge(g, e.u, e.v, e.w).nodes
  {
    assert g.nodes <= AddNode(g, e.u).nodes <= AddEdge(g, e.u, e.v, e.w).nodes;
  }

  /** `add_edge` lists `u`, then `v`, at the end of the node order when new. */
  lemma AddEdgeOrder(g0: Graph, es: seq<Edge>, e: Edge, g: Graph)
    requires WellFormed(g) && g.nodes == FirstOccurrences(g0.nodes + EndpointSeq(es))
    ensures AddEdge(g, e.u, e.v, e.w).nodes == FirstOccurrences(g0.nodes + EndpointSeq(es + [e]))
  {
    var s := g0.nodes + EndpointSeq(es);
    EndpointSeqSnoc(es, e);
    assert g0.nodes + EndpointSeq(es + [e]) == s + [e.u] + [e.v];
    AddNodeOrder(g, s, e.u);
    AddNodeWellFormed(g, e.u);
    AddNodeOrder(AddNode(g, e.u), s + [e.u], e.v);
  }

  /** Built on a graph without edges: every pair carries the weight of the last
      record about it, and nothing else is an edge. */
  lemma BuiltOnNodes(g0: Graph, es: seq<Edge>, g: Graph)
    requires Built(g0, es, g)
    requires forall a, b :: Lookup(g0.adj, a, b).None?
    ensures WellFormed(g)
    ensures g.adj.Keys == g0.adj.Keys + Endpoints(es)
    ensures forall a, b :: Lookup(g.adj, a, b) == LastWeight(es, a, b)
  {
    forall a, b ensures Lookup(g.adj, a, b) == LastWeight(es, a, b) {
      assert Lookup(g0.adj, a, b).None?;
    }
  }

  /** The loop `for n in names: G.add_node(n)` on an empty graph: every name a
      node, in the order of its first occurrence, and no edges. */
  method AddNodes(names: seq<string>) returns (g: Graph)
    ensures WellFormed(g)
    ensures g.nodes == FirstOccurrences(names)
    ensures forall a, b :: Lookup(g.adj, a, b).None?
  {
    g := EmptyGraph;
    EmptyGraphWellFormed();
    for i := 0 to |names|
      invariant WellFormed(g)
      invariant g.nodes == FirstOccurrences(names[..i])
      invariant forall a, b :: Lookup(g.adj, a, b).None?
    {
      AddNodeWellFormed(g, names[i]);
      assert names[..i + 1][..i] == names[..i];
      g := AddNode(g, names[i]);
    }
    assert names[..|names|] == names;
  }
}
