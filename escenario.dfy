/** A worked example: the four-city diamond A-B (10), B-D (10), A-C (5), C-D (5),
    on which Dijkstra must take the cheaper branch through C. */
module Escenario {
  import opened Graphs
  import opened Reporting
  import opened ShortestPaths
  import opened AlgoritmosBusqueda

  const Rombo: Graph := Graph(["A", "B", "C", "D"],
                              map["A" := map["B" := 10, "C" := 5],
                                  "B" := map["A" := 10, "D" := 10],
                                  "C" := map["A" := 5, "D" := 5],
                                  "D" := map["B" := 10, "C" := 5]])

  lemma RomboWellFormed()
    ensures WellFormed(Rombo)
  {
    forall u, v | Adjacent(Rombo, u, v) ensures Adjacent(Rombo, v, u) && Weight(Rombo, v, u) == Weight(Rombo, u, v) {
      assert u in Rombo.adj.Keys;
      if u == "A" {
        assert v in {"B", "C"};
      } else if u == "B" {
        assert v in {"A", "D"};
      } else if u == "C" {
        assert v in {"A", "D"};
      } else {
        assert v in {"B", "C"};
      }
    }
  }

  /** Every edge of the diamond weighs at least 5, and A and D are not neighbours. */
  lemma RomboEdges()
    ensures forall u, v :: Adjacent(Rombo, u, v) ==> Weight(Rombo, u, v) >= 5
    ensures !Adjacent(Rombo, "A", "D")
  {
  }

  /** Every route from A to D has at least two edges, so it costs at least 10. */
  lemma AtLeastTen(q: seq<string>)
    requires IsPathBetween(Rombo, "A", "D", q)
    ensures |q| >= 3 && PathCost(Rombo, q) >= 10
  {
    RomboEdges();
    assert |q| != 2;
    var init := q[..|q| - 1];
    assert PathCost(Rombo, q) == PathCost(Rombo, init) + Weight(Rombo, q[|q| - 2], q[|q| - 1]);
    PathCostPrefix(Rombo, init, 2);
    assert init[..2] == q[..2];
    assert PathCost(Rombo, q[..2]) == Weight(Rombo, q[0], q[1]) by {
      assert q[..2][..1] == [q[0]];
    }
  }

  /** The only simple route from A to D costing at most 10 is A, C, D. */
  lemma OnlyCheapRoute(p: seq<string>)
    requires IsPathBetween(Rombo, "A", "D", p) && Distinct(p) && PathCost(Rombo, p) <= 10
    ensures p == ["A", "C", "D"]
  {
    RomboEdges();
    AtLeastTen(p);
    PathCostPrefix(Rombo, p, 3);
    assert PathCost(Rombo, p[..3]) == Weight(Rombo, p[0], p[1]) + Weight(Rombo, p[1], p[2]) by {
      assert p[..3][..2] == p[..2];
      assert p[..2][..1] == [p[0]];
    }
    assert p[1] == "C";
    assert p[2] == "D";
  }

  /** A, C, D is a shortest route, of cost 10. */
  lemma ViaCIsShortest()
    ensures Shortest(Rombo, "A", "D", ["A", "C", "D"])
    ensures PathCost(Rombo, ["A", "C", "D"]) == 10
  {
    var p := ["A", "C", "D"];
    assert p[..2][..1] == ["A"];
    assert p[..|p| - 1] == ["A", "C"];
    forall q | IsPathBetween(Rombo, "A", "D", q) ensures PathCost(Rombo, p) <= PathCost(Rombo, q) {
      AtLeastTen(q);
    }
  }

  /** `dijkstra(G, 'A', 'D')` on the diamond returns A, C, D with total 10 and its
      two segments, although A-B is the first edge of A. */
  method DijkstraEnElRombo() returns (r: Outcome)
    ensures r == Found(SearchResult(["A", "C", "D"], 10, [Segment("A", "C", 5), Segment("C", "D", 5)], DijkstraLabel))
  {
    RomboWellFormed();
    ViaCIsShortest();
    r := Dijkstra(Rombo, "A", "D");
    OnlyCheapRoute(r.result.ruta);
    assert |r.result.tramos| == 2;
    assert r.result.tramos[0] == Segment("A", "C", 5);
    assert r.result.tramos[1] == Segment("C", "D", 5);
  }
}
