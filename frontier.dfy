/** The priority-queue frontier shared by the searches: a list of
    `(priority, node, path, cost)` tuples, popped in Python's tuple order. */
module Frontier {
  import opened Graphs

  /** Python's `<` on `str`: lexicographic on code points, a proper prefix first. */
  predicate StrLess(a: string, b: string)
    decreases |a|
  {
    |b| > 0 && (|a| == 0 || a[0] < b[0] || (a[0] == b[0] && StrLess(a[1..], b[1..])))
  }

  /** Python's `<` on a list of `str`: lexicographic by `StrLess`, a proper prefix first. */
  predicate PathLess(a: seq<string>, b: seq<string>)
    decreases |a|
  {
    |b| > 0 && (|a| == 0 || StrLess(a[0], b[0]) || (a[0] == b[0] && PathLess(a[1..], b[1..])))
  }

  /** One frontier tuple `(prioridad, nodo, camino, distancia_acumulada)`. */
  datatype Entry = Entry(priority: nat, node: string, path: seq<string>, cost: nat)

  /** Python's `<` on 4-tuples: component by component. */
  predicate EntryLess(a: Entry, b: Entry) {
    || a.priority < b.priority
    || (a.priority == b.priority && StrLess(a.node, b.node))
    || (a.priority == b.priority && a.node == b.node && PathLess(a.path, b.path))
    || (a.priority == b.priority && a.node == b.node && a.path == b.path && a.cost < b.cost)
  }

  lemma {:induction false} StrLessIrreflexive(a: string)
    ensures !StrLess(a, a)
    decreases |a|
  {
    if |a| > 0 {
      StrLessIrreflexive(a[1..]);
    }
  }

  lemma {:induction false} StrLessTransitive(a: string, b: string, c: string)
    requires StrLess(a, b) && StrLess(b, c)
    ensures StrLess(a, c)
    decreases |a|
  {
    if |a| > 0 && a[0] == b[0] && b[0] == c[0] {
      StrLessTransitive(a[1..], b[1..], c[1..]);
    }
  }

  lemma {:induction false} StrLessTotal(a: string, b: string)
    requires a != b
    ensures StrLess(a, b) || StrLess(b, a)
    decreases |a|
  {
    if |a| > 0 && |b| > 0 && a[0] == b[0] {
      assert a == [a[0]] + a[1..] && b == [b[0]] + b[1..];
      StrLessTotal(a[1..], b[1..]);
    }
  }

  lemma {:induction false} PathLessIrreflexive(a: seq<string>)
    ensures !PathLess(a, a)
    decreases |a|
  {
    if |a| > 0 {
      StrLessIrreflexive(a[0]);
      PathLessIrreflexive(a[1..]);
    }
  }

  lemma {:induction false} PathLessTransitive(a: seq<string>, b: seq<string>, c: seq<string>)
    requires PathLess(a, b) && PathLess(b, c)
    ensures PathLess(a, c)
    decreases |a|
  {
    if |a| > 0 {
      if StrLess(a[0], b[0]) && StrLess(b[0], c[0]) {
        StrLessTransitive(a[0], b[0], c[0]);
      } else if a[0] == b[0] && b[0] == c[0] {
        PathLessTransitive(a[1..], b[1..], c[1..]);
      }
    }
  }

  lemma {:induction false} PathLessTotal(a: seq<string>, b: seq<string>)
    requires a != b
    ensures PathLess(a, b) || PathLess(b, a)
    decreases |a|
  {
    if |a| > 0 && |b| > 0 {
      if a[0] == b[0] {
        assert a == [a[0]] + a[1..] && b == [b[0]] + b[1..];
        PathLessTotal(a[1..], b[1..]);
      } else {
        StrLessTotal(a[0], b[0]);
      }
    }
  }

  lemma EntryLessIrreflexive(a: Entry)
    ensures !EntryLess(a, a)
  {
    StrLessIrreflexive(a.node);
    PathLessIrreflexive(a.path);
  }

  lemma EntryLessTransitive(a: Entry, b: Entry, c: Entry)
    requires EntryLess(a, b) && EntryLess(b, c)
    ensures EntryLess(a, c)
  {
    if a.priority == b.priority == c.priority {
      if StrLess(a.node, b.node) && StrLess(b.node, c.node) {
        StrLessTransitive(a.node, b.node, c.node);
      } else if a.node == b.node == c.node && PathLess(a.path, b.path) && PathLess(b.path, c.path) {
        PathLessTransitive(a.path, b.path, c.path);
      }
    }
  }

  /** Tuple order is total: two different entries are always ordered one way. */
  lemma EntryLessTotal(a: Entry, b: Entry)
    requires a != b
    ensures EntryLess(a, b) || EntryLess(b, a)
  {
    if a.priority == b.priority {
      if a.node != b.node {
        StrLessTotal(a.node, b.node);
      } else if a.path != b.path {
        PathLessTotal(a.path, b.path);
      }
    }
  }

  /** `heapq.heappop`: removes and returns the smallest tuple of the frontier. */
  method PopMin(frontera: seq<Entry>) returns (e: Entry, rest: seq<Entry>)
    requires |frontera| > 0
    ensures e in frontera
    ensures forall x :: x in frontera ==> !EntryLess(x, e)
    ensures |rest| == |frontera| - 1
    ensures multiset(rest) + multiset{e} == multiset(frontera)
    ensures forall x :: x in rest ==> x in frontera
    ensures forall x :: x in frontera && x != e ==> x in rest
  {
    var best := 0;
    var i := 1;
    EntryLessIrreflexive(frontera[0]);
    while i < |frontera|
      invariant 0 <= best < i <= |frontera|
      invariant forall j :: 0 <= j < i ==> !EntryLess(frontera[j], frontera[best])
    {
      if EntryLess(frontera[i], frontera[best]) {
        forall j | 0 <= j < i ensures !EntryLess(frontera[j], frontera[i]) {
          if EntryLess(frontera[j], frontera[i]) {
            EntryLessTransitive(frontera[j], frontera[i], frontera[best]);
          }
        }
        EntryLessIrreflexive(frontera[i]);
        best := i;
      }
      i := i + 1;
    }
    e := frontera[best];
    rest := frontera[..best] + frontera[best + 1..];
    assert frontera == frontera[..best] + [e] + frontera[best + 1..];
    forall x | x in frontera && x != e ensures x in rest {
      var k :| 0 <= k < |frontera| && frontera[k] == x;
      if k < best {
        assert x == rest[k];
      } else {
        assert x == rest[k - 1];
      }
    }
  }

  /** The smallest tuple is unique, so the entry `heappop` returns does not depend
      on how the heap happens to be laid out, nor on the order of the pushes. */
  lemma PopMinDeterministic(frontera: seq<Entry>, e1: Entry, e2: Entry)
    requires e1 in frontera && e2 in frontera
    requires forall x :: x in frontera ==> !EntryLess(x, e1)
    requires forall x :: x in frontera ==> !EntryLess(x, e2)
    ensures e1 == e2
  {
    if e1 != e2 {
      EntryLessTotal(e1, e2);
    }
  }

  /** Every tuple ever pushed carries a path of the graph from the origin to its
      node, and as its accumulated distance the cost of that path. */
  ghost predicate ValidEntry(g: Graph, origen: string, e: Entry) {
    IsPathBetween(g, origen, e.node, e.path) && e.cost == PathCost(g, e.path)
  }

  /** `camino + [vecino]` with `dist_acumulada + G[actual][vecino]['weight']`
      is again a valid tuple. */
  lemma ExtendEntry(g: Graph, origen: string, e: Entry, n: string, priority: nat)
    requires WellFormed(g) && ValidEntry(g, origen, e) && Adjacent(g, e.node, n)
    ensures ValidEntry(g, origen, Entry(priority, n, e.path + [n], e.cost + Weight(g, e.node, n)))
  {
    PathCostAppend(g, e.path, n);
    var q := e.path + [n];
    assert forall i :: 0 <= i < |e.path| ==> q[i] == e.path[i];
  }

  /** Some tuple for node `n` waits in the frontier. */
  ghost predicate Waiting(frontera: seq<Entry>, n: string) {
    exists e :: e in frontera && e.node == n
  }

  /** Pushing keeps every tuple that was waiting. */
  lemma WaitingGrows(frontera: seq<Entry>, frontera': seq<Entry>, n: string)
    requires Waiting(frontera, n)
    requires forall e :: e in frontera ==> e in frontera'
    ensures Waiting(frontera', n)
  {
  }

  /** A push keeps the old tuples in front and adds one to those pushed after them. */
  lemma PushKeepsFront(frontera0: seq<Entry>, frontera: seq<Entry>, e: Entry)
    requires |frontera0| <= |frontera| && frontera[..|frontera0|] == frontera0
    ensures |frontera0| <= |frontera + [e]| && (frontera + [e])[..|frontera0|] == frontera0
    ensures (frontera + [e])[|frontera0|..] == frontera[|frontera0|..] + [e]
  {
  }

  /** Popping the tuple of another node keeps the tuples of `n` waiting. */
  lemma WaitingAfterPop(frontera: seq<Entry>, rest: seq<Entry>, popped: Entry, n: string)
    requires Waiting(frontera, n) && popped.node != n
    requires forall x :: x in frontera && x != popped ==> x in rest
    ensures Waiting(rest, n)
  {
  }

  /** The nodes of `p` before its last one all lie in `visitados`. */
  ghost predicate PrefixVisited(p: seq<string>, visitados: set<string>) {
    forall k :: 0 <= k < |p| - 1 ==> p[k] in visitados
  }
}
