/**
 * The undirected graph the game mutates (a networkx `Graph` in the source),
 * as a value: a set of nodes and a set of edges, each edge stored in
 * canonical form (smaller id first, a self-loop as `(u, u)`).
 */
module Graphs {

  /** An edge as the source passes it around: a pair of node ids, in either orientation. */
  type Edge = (int, int)

  /** The canonical form of an edge: the same two ends, smaller id first. */
  function Canon(e: Edge): (c: Edge)
    ensures c.0 <= c.1
    ensures c.0 == e.0 || c.0 == e.1
    ensures c.1 == e.0 || c.1 == e.1
    ensures c.0 + c.1 == e.0 + e.1
  {
    if e.0 > e.1 then (e.1, e.0) else e
  }

  predicate IsCanonical(e: Edge) {
    e.0 <= e.1
  }

  /** The node ids 0 .. n-1 (`range(n)`). */
  function Range(n: int): (r: set<int>)
    ensures forall x :: x in r <==> 0 <= x < n
    ensures |r| == if n <= 0 then 0 else n
  {
    if n <= 0 then {} else Range(n - 1) + {n - 1}
  }

  /** Every node an edge of `s` touches. */
  function Endpoints(s: set<Edge>): (r: set<int>)
    ensures forall e :: e in s ==> e.0 in r && e.1 in r
  {
    (set e | e in s :: e.0) + (set e | e in s :: e.1)
  }

  /** The canonical forms of a set of edges. */
  function Normalize(s: set<Edge>): (r: set<Edge>)
    ensures forall e :: e in r ==> IsCanonical(e)
    ensures forall e :: e in s ==> Canon(e) in r
    ensures forall c :: c in r ==> exists e :: e in s && Canon(e) == c
  {
    set e | e in s :: Canon(e)
  }

  /** Every edge of `s` joins two of the nodes 0 .. n-1. */
  predicate InRange(s: set<Edge>, n: int) {
    forall e :: e in s ==> 0 <= e.0 < n && 0 <= e.1 < n
  }

  datatype Graph = Graph(nodes: set<int>, edges: set<Edge>)

  /** Every stored edge is canonical and joins two nodes of the graph. */
  ghost predicate Valid(g: Graph) {
    && (forall e :: e in g.edges ==> IsCanonical(e))
    && (forall e :: e in g.edges ==> e.0 in g.nodes && e.1 in g.nodes)
  }

  /** `nx.Graph()` with `range(n)` added as nodes and then the edges of `s`. */
  function FromEdges(n: int, s: set<Edge>): (g: Graph)
    ensures Valid(g)
    ensures g.nodes == Range(n) + Endpoints(s)
    ensures forall e :: e in s ==> HasEdge(g, e.0, e.1)
    ensures g.edges == Normalize(s)
  {
    Graph(Range(n) + Endpoints(s), Normalize(s))
  }

  /** The graph built from a set of pairs has exactly those pairs as edges, in either orientation. */
  lemma FromEdgesExactly(n: int, s: set<Edge>, u: int, v: int)
    ensures HasEdge(FromEdges(n, s), u, v) <==> (u, v) in s || (v, u) in s
  {
    if HasEdge(FromEdges(n, s), u, v) {
      var e :| e in s && Canon(e) == Canon((u, v));
      SameCanon(e, (u, v));
    }
  }

  /** Two pairs with the same canonical form are the same pair, or one is the other reversed. */
  lemma SameCanon(e: Edge, f: Edge)
    requires Canon(e) == Canon(f)
    ensures e == f || e == (f.1, f.0)
  {
  }

  /** `has_edge(u, v)`: symmetric in its two arguments. */
  predicate HasEdge(g: Graph, u: int, v: int) {
    Canon((u, v)) in g.edges
  }

  lemma HasEdgeSymmetric(g: Graph, u: int, v: int)
    ensures HasEdge(g, u, v) <==> HasEdge(g, v, u)
  {
  }

  /** `add_edge(u, v)`: both ends become nodes; the pair becomes present; nothing else changes. */
  function AddEdge(g: Graph, u: int, v: int): (r: Graph)
    ensures r.nodes == g.nodes + {u, v}
    ensures HasEdge(r, u, v)
    ensures forall e :: e != Canon((u, v)) ==> (e in r.edges <==> e in g.edges)
  {
    Graph(g.nodes + {u, v}, g.edges + {Canon((u, v))})
  }

  /** `remove_edge(u, v)`: networkx raises when the edge is absent, so the source only calls it on a present edge. */
  function RemoveEdge(g: Graph, u: int, v: int): (r: Graph)
    requires HasEdge(g, u, v)
    ensures r.nodes == g.nodes
    ensures !HasEdge(r, u, v)
    ensures forall e :: e != Canon((u, v)) ==> (e in r.edges <==> e in g.edges)
  {
    Graph(g.nodes, g.edges - {Canon((u, v))})
  }

  /** The graph with the presence of one pair flipped. */
  function Toggle(g: Graph, e: Edge): (r: Graph)
    ensures HasEdge(r, e.0, e.1) <==> !HasEdge(g, e.0, e.1)
    ensures forall c :: c != Canon(e) ==> (c in r.edges <==> c in g.edges)
  {
    if HasEdge(g, e.0, e.1) then RemoveEdge(g, e.0, e.1) else AddEdge(g, e.0, e.1)
  }

  /** Removing a present edge and adding it back, or adding an absent one and
      removing it again, restores the graph when both ends were already nodes. */
  lemma {:induction false} ToggleTwiceRestores(g: Graph, u: int, v: int)
    requires Valid(g) && u in g.nodes && v in g.nodes
    ensures HasEdge(g, u, v) ==> AddEdge(RemoveEdge(g, u, v), u, v) == g
    ensures !HasEdge(g, u, v) ==> RemoveEdge(AddEdge(g, u, v), u, v) == g
  {
    var c := Canon((u, v));
    if HasEdge(g, u, v) {
      assert (g.edges - {c}) + {c} == g.edges;
    } else {
      assert (g.edges + {c}) - {c} == g.edges;
    }
  }

  // ---------------------------------------------------------------------------
  // Applying a set of toggle requests (`Game.update_env`).
  // ---------------------------------------------------------------------------

  /** No two requests name the same pair in its two orientations. */
  predicate DistinctPairs(actions: set<Edge>) {
    forall a, b :: a in actions && b in actions && Canon(a) == Canon(b) ==> a == b
  }

  /** Pairs that a request adds: absent, and the request tuple is not forbidden. */
  function Added(g: Graph, actions: set<Edge>, impossible: set<Edge>): set<Edge> {
    set a | a in actions && !HasEdge(g, a.0, a.1) && a !in impossible :: Canon(a)
  }

  /** Pairs that a request removes: present, and the request tuple is not imposed. */
  function Removed(g: Graph, actions: set<Edge>, imposed: set<Edge>): set<Edge> {
    set a | a in actions && HasEdge(g, a.0, a.1) && a !in imposed :: Canon(a)
  }

  /** The graph after every request of `actions` has been handled as `update_env` does. */
  function Apply(g: Graph, actions: set<Edge>, impossible: set<Edge>, imposed: set<Edge>): Graph {
    var add := Added(g, actions, impossible);
    Graph(g.nodes + Endpoints(add), (g.edges - Removed(g, actions, imposed)) + add)
  }

  /** An empty request set leaves the graph as it is. */
  lemma ApplyNothing(g: Graph, impossible: set<Edge>, imposed: set<Edge>)
    ensures Apply(g, {}, impossible, imposed) == g
  {
    assert Added(g, {}, impossible) == {};
    assert Endpoints({}) == {};
  }

  /** One request handled on its own: the body of the loop in `update_env`. */
  function ApplyOne(g: Graph, a: Edge, impossible: set<Edge>, imposed: set<Edge>): (r: Graph)
    ensures HasEdge(r, a.0, a.1) <==> if HasEdge(g, a.0, a.1) then a in imposed else a !in impossible
    ensures forall c :: c != Canon(a) ==> (c in r.edges <==> c in g.edges)
    ensures r.nodes == if !HasEdge(g, a.0, a.1) && a !in impossible then g.nodes + {a.0, a.1} else g.nodes
  {
    if !HasEdge(g, a.0, a.1) && a !in impossible then AddEdge(g, a.0, a.1)
    else if HasEdge(g, a.0, a.1) && a !in imposed then RemoveEdge(g, a.0, a.1)
    else g
  }

  lemma AddedStep(g: Graph, done: set<Edge>, a: Edge, impossible: set<Edge>)
    ensures !HasEdge(g, a.0, a.1) && a !in impossible ==> Added(g, done + {a}, impossible) == Added(g, done, impossible) + {Canon(a)}
    ensures HasEdge(g, a.0, a.1) || a in impossible ==> Added(g, done + {a}, impossible) == Added(g, done, impossible)
  {
  }

  lemma RemovedStep(g: Graph, done: set<Edge>, a: Edge, imposed: set<Edge>)
    ensures HasEdge(g, a.0, a.1) && a !in imposed ==> Removed(g, done + {a}, imposed) == Removed(g, done, imposed) + {Canon(a)}
    ensures !HasEdge(g, a.0, a.1) || a in imposed ==> Removed(g, done + {a}, imposed) == Removed(g, done, imposed)
  {
  }

  /** A pair that no handled request names keeps its presence. */
  lemma UntouchedPair(g: Graph, done: set<Edge>, a: Edge, impossible: set<Edge>, imposed: set<Edge>)
    requires a !in done && DistinctPairs(done + {a})
    ensures Canon(a) !in Added(g, done, impossible) && Canon(a) !in Removed(g, done, imposed)
    ensures HasEdge(Apply(g, done, impossible, imposed), a.0, a.1) == HasEdge(g, a.0, a.1)
  {
  }

  lemma EndpointsAddOne(s: set<Edge>, c: Edge)
    ensures Endpoints(s + {c}) == Endpoints(s) + {c.0, c.1}
  {
  }

  /** Handling one more request, on a pair no earlier request touched, extends `Apply`. */
  lemma ApplyStep(g: Graph, done: set<Edge>, a: Edge, impossible: set<Edge>, imposed: set<Edge>)
    requires a !in done && DistinctPairs(done + {a})
    ensures Apply(g, done + {a}, impossible, imposed) == ApplyOne(Apply(g, done, impossible, imposed), a, impossible, imposed)
  {
    AddedStep(g, done, a, impossible);
    RemovedStep(g, done, a, imposed);
    UntouchedPair(g, done, a, impossible, imposed);
    var c := Canon(a);
    var add, rem := Added(g, done, impossible), Removed(g, done, imposed);
    var h := Apply(g, done, impossible, imposed);
    assert h == Graph(g.nodes + Endpoints(add), (g.edges - rem) + add);
    if !HasEdge(g, a.0, a.1) && a !in impossible {
      EndpointsAddOne(add, c);
      assert {c.0, c.1} == {a.0, a.1};
      assert ApplyOne(h, a, impossible, imposed) == Graph(h.nodes + {a.0, a.1}, h.edges + {c});
      assert (g.edges - rem) + (add + {c}) == h.edges + {c};
      assert Apply(g, done + {a}, impossible, imposed) == Graph(g.nodes + Endpoints(add + {c}), (g.edges - rem) + (add + {c}));
    } else if HasEdge(g, a.0, a.1) && a !in imposed {
      assert ApplyOne(h, a, impossible, imposed) == Graph(h.nodes, h.edges - {c});
      assert (g.edges - (rem + {c})) + add == h.edges - {c};
      assert Apply(g, done + {a}, impossible, imposed) == Graph(g.nodes + Endpoints(add), (g.edges - (rem + {c})) + add);
    } else {
      assert ApplyOne(h, a, impossible, imposed) == h;
      assert Apply(g, done + {a}, impossible, imposed) == Graph(g.nodes + Endpoints(add), (g.edges - rem) + add);
    }
  }

  /** `update_env` keeps the graph well formed. */
  lemma ApplyValid(g: Graph, actions: set<Edge>, impossible: set<Edge>, imposed: set<Edge>)
    requires Valid(g)
    ensures Valid(Apply(g, actions, impossible, imposed))
  {
  }

  /** A pair that no request names keeps its presence. */
  lemma {:induction false} ApplyLeavesOthers(g: Graph, actions: set<Edge>, impossible: set<Edge>, imposed: set<Edge>, u: int, v: int)
    requires forall a :: a in actions ==> Canon(a) != Canon((u, v))
    ensures HasEdge(Apply(g, actions, impossible, imposed), u, v) == HasEdge(g, u, v)
  {
    var c := Canon((u, v));
    assert c !in Added(g, actions, impossible);
    assert c !in Removed(g, actions, imposed);
  }

  /** What happens to the pair of one request: an absent pair is added unless the
      tuple is forbidden, a present one is removed unless the tuple is imposed. */
  lemma {:induction false} ApplyHandlesRequest(g: Graph, actions: set<Edge>, impossible: set<Edge>, imposed: set<Edge>, a: Edge)
    requires a in actions && DistinctPairs(actions)
    ensures !HasEdge(g, a.0, a.1) && a !in impossible ==> HasEdge(Apply(g, actions, impossible, imposed), a.0, a.1)
    ensures !HasEdge(g, a.0, a.1) && a in impossible ==> !HasEdge(Apply(g, actions, impossible, imposed), a.0, a.1)
    ensures HasEdge(g, a.0, a.1) && a !in imposed ==> !HasEdge(Apply(g, actions, impossible, imposed), a.0, a.1)
    ensures HasEdge(g, a.0, a.1) && a in imposed ==> HasEdge(Apply(g, actions, impossible, imposed), a.0, a.1)
  {
    var c := Canon(a);
    if !HasEdge(g, a.0, a.1) {
      assert c !in Removed(g, actions, imposed);
      if a !in impossible {
        assert c in Added(g, actions, impossible);
      } else {
        assert c !in Added(g, actions, impossible);
      }
    } else {
      assert c !in Added(g, actions, impossible);
      if a !in imposed {
        assert c in Removed(g, actions, imposed);
      } else {
        assert c !in Removed(g, actions, imposed);
      }
    }
  }

  /** Adding requested pairs only adds nodes that the requests name. */
  lemma AddedWithinNodes(g: Graph, actions: set<Edge>, impossible: set<Edge>, nodes: set<int>)
    requires forall a :: a in actions ==> a.0 in nodes && a.1 in nodes
    ensures Endpoints(Added(g, actions, impossible)) <= nodes
  {
    var add := Added(g, actions, impossible);
    forall x | x in Endpoints(add) ensures x in nodes {
      var c :| c in add && (x == c.0 || x == c.1);
    }
  }

  /** The round trip for one canonical pair. */
  lemma {:induction false} ApplyTwiceAt(g: Graph, actions: set<Edge>, impossible: set<Edge>, imposed: set<Edge>, e: Edge)
    requires IsCanonical(e) && DistinctPairs(actions)
    requires forall a :: a in actions ==> a !in impossible && a !in imposed
    ensures e in Apply(Apply(g, actions, impossible, imposed), actions, impossible, imposed).edges <==> e in g.edges
  {
    var h := Apply(g, actions, impossible, imposed);
    assert Canon(e) == e;
    if a :| a in actions && Canon(a) == e {
      ApplyHandlesRequest(g, actions, impossible, imposed, a);
      ApplyHandlesRequest(h, actions, impossible, imposed, a);
    } else {
      ApplyLeavesOthers(g, actions, impossible, imposed, e.0, e.1);
      ApplyLeavesOthers(h, actions, impossible, imposed, e.0, e.1);
    }
  }

  /** Toggle round trip: when no request is forbidden or imposed, handling the
      same requests twice gives back the original edges (and the original graph
      when every requested end was already a node). */
  lemma {:induction false} ApplyTwiceRestores(g: Graph, actions: set<Edge>, impossible: set<Edge>, imposed: set<Edge>)
    requires Valid(g) && DistinctPairs(actions)
    requires forall a :: a in actions ==> a !in impossible && a !in imposed
    ensures Apply(Apply(g, actions, impossible, imposed), actions, impossible, imposed).edges == g.edges
    ensures (forall a :: a in actions ==> a.0 in g.nodes && a.1 in g.nodes) ==>
              Apply(Apply(g, actions, impossible, imposed), actions, impossible, imposed) == g
  {
    var h := Apply(g, actions, impossible, imposed);
    var k := Apply(h, actions, impossible, imposed);
    ApplyValid(g, actions, impossible, imposed);
    ApplyValid(h, actions, impossible, imposed);
    forall e | e in k.edges || e in g.edges ensures e in k.edges <==> e in g.edges {
      ApplyTwiceAt(g, actions, impossible, imposed, e);
    }
    assert k.edges == g.edges;
    if forall a :: a in actions ==> a.0 in g.nodes && a.1 in g.nodes {
      AddedWithinNodes(g, actions, impossible, g.nodes);
      AddedWithinNodes(h, actions, impossible, g.nodes);
    }
  }

  /** With canonical requests, a forbidden pair never enters the graph. */
  lemma {:induction false} ApplyKeepsForbiddenOut(g: Graph, actions: set<Edge>, impossible: set<Edge>, imposed: set<Edge>)
    requires forall a :: a in actions ==> IsCanonical(a)
    requires g.edges !! impossible
    ensures Apply(g, actions, impossible, imposed).edges !! impossible
  {
    forall c | c in Added(g, actions, impossible) ensures c !in impossible {
      var a :| a in actions && !HasEdge(g, a.0, a.1) && a !in impossible && Canon(a) == c;
    }
  }

  /** With canonical requests, a present imposed pair is never removed. */
  lemma {:induction false} ApplyKeepsImposed(g: Graph, actions: set<Edge>, impossible: set<Edge>, imposed: set<Edge>)
    requires forall a :: a in actions ==> IsCanonical(a)
    ensures forall c :: c in imposed && c in g.edges ==> c in Apply(g, actions, impossible, imposed).edges
  {
    forall c | c in Removed(g, actions, imposed) ensures c !in imposed {
      var a :| a in actions && HasEdge(g, a.0, a.1) && a !in imposed && Canon(a) == c;
    }
  }
}
