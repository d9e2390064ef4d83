/** Weighted undirected graphs as networkx keeps them, and the paths over them. */
module Graphs {

  datatype Option<T> = None | Some(value: T)

  /** A (latitude, longitude) pair in decimal degrees. */
  datatype Coord = Coord(lat: real, lon: real)

  /** An undirected graph: the node names in insertion order (the order in which
      networkx's `G.nodes()` yields them) and, for each node, the map from each
      neighbour to the weight (km) of the edge between them. */
  datatype Graph = Graph(nodes: seq<string>, adj: map<string, map<string, nat>>)

  ghost predicate Distinct<T>(s: seq<T>) {
    forall i, j :: 0 <= i < j < |s| ==> s[i] != s[j]
  }

  predicate Adjacent(g: Graph, u: string, v: string) {
    u in g.adj && v in g.adj[u]
  }

  function Weight(g: Graph, u: string, v: string): nat
    requires Adjacent(g, u, v)
  {
    g.adj[u][v]
  }

  /** What an `nx.Graph` guarantees: each node listed once, the node list and the
      adjacency agree, and every edge is seen from both ends with one weight. */
  ghost predicate WellFormed(g: Graph) {
    && Distinct(g.nodes)
    && (forall n :: n in g.adj <==> n in g.nodes)
    && (forall u, v :: Adjacent(g, u, v) ==> Adjacent(g, v, u) && Weight(g, v, u) == Weight(g, u, v))
  }

  /** Consecutive nodes of `p` are joined by edges of `g`. */
  ghost predicate Linked(g: Graph, p: seq<string>) {
    forall i :: 0 <= i < |p| - 1 ==> Adjacent(g, p[i], p[i + 1])
  }

  /** `p` is a path of `g` from `s` to `t`. */
  ghost predicate IsPathBetween(g: Graph, s: string, t: string, p: seq<string>) {
    && |p| > 0 && p[0] == s && p[|p| - 1] == t
    && (forall i :: 0 <= i < |p| ==> p[i] in g.adj)
    && Linked(g, p)
  }

  ghost predicate Reachable(g: Graph, s: string, t: string) {
    exists p :: IsPathBetween(g, s, t, p)
  }

  /** The sum of the edge weights along `p`. */
  function PathCost(g: Graph, p: seq<string>): nat
    requires Linked(g, p)
    decreases |p|
  {
    if |p| <= 1 then 0
    else PathCost(g, p[..|p| - 1]) + Weight(g, p[|p| - 2], p[|p| - 1])
  }

  lemma LinkedPrefix(g: Graph, p: seq<string>, k: nat)
    requires Linked(g, p) && k <= |p|
    ensures Linked(g, p[..k])
  {
  }

  /** Extending a path by one edge adds that edge's weight. */
  lemma PathCostAppend(g: Graph, p: seq<string>, n: string)
    requires Linked(g, p) && |p| > 0 && Adjacent(g, p[|p| - 1], n)
    ensures Linked(g, p + [n])
    ensures PathCost(g, p + [n]) == PathCost(g, p) + Weight(g, p[|p| - 1], n)
  {
    var q := p + [n];
    assert forall i :: 0 <= i < |p| ==> q[i] == p[i];
    assert q[..|q| - 1] == p;
  }

  /** Weights are non-negative, so a prefix of a path never costs more than the path. */
  lemma {:induction false} PathCostPrefix(g: Graph, p: seq<string>, k: nat)
    requires Linked(g, p) && 1 <= k <= |p|
    ensures Linked(g, p[..k])
    ensures PathCost(g, p[..k]) <= PathCost(g, p)
    decreases |p| - k
  {
    LinkedPrefix(g, p, k);
    if k == |p| {
      assert p[..k] == p;
    } else {
      PathCostPrefix(g, p, k + 1);
      LinkedPrefix(g, p, k + 1);
      var q := p[..k + 1];
      assert q[..|q| - 1] == p[..k];
    }
  }

  /** A path of `g` that starts inside a set closed under adjacency never leaves it. */
  lemma {:induction false} StaysInClosedSet(g: Graph, c: set<string>, p: seq<string>, i: nat)
    requires |p| > 0 && p[0] in c && Linked(g, p) && i < |p|
    requires forall v, n :: v in c && Adjacent(g, v, n) ==> n in c
    ensures p[i] in c
  {
    if i > 0 {
      StaysInClosedSet(g, c, p, i - 1);
      assert Adjacent(g, p[i - 1], p[i]);
    }
  }

  /** No path leads from inside a closed set to a node outside it. */
  lemma ClosedSetUnreachable(g: Graph, c: set<string>, s: string, t: string)
    requires s in c && t !in c
    requires forall v, n :: v in c && Adjacent(g, v, n) ==> n in c
    ensures !Reachable(g, s, t)
  {
    forall p | IsPathBetween(g, s, t, p) ensures false {
      StaysInClosedSet(g, c, p, |p| - 1);
    }
  }

  /** Marking one more node visited leaves fewer nodes unvisited. */
  lemma FewerUnvisited(nodes: set<string>, visited: set<string>, x: string)
    requires x in nodes && x !in visited
    ensures |nodes - (visited + {x})| < |nodes - visited|
  {
    assert nodes - visited == (nodes - (visited + {x})) + {x};
  }

  /** A sequence that starts inside `c` and ends outside it crosses the border
      somewhere: some node in `c` is followed by one outside. */
  lemma {:induction false} LeavesSet(p: seq<string>, c: set<string>) returns (i: nat)
    requires |p| > 0 && p[0] in c && p[|p| - 1] !in c
    ensures 0 < i < |p| && p[i - 1] in c && p[i] !in c
    decreases |p|
  {
    if p[|p| - 2] in c {
      i := |p| - 1;
    } else {
      i := LeavesSet(p[..|p| - 1], c);
    }
  }
}
