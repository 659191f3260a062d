/**
 The part of the graph library that the helpers lean on, fixed as a value model.

 A graph is a kind (a directed graph, an undirected simple graph or an undirected
 multigraph), its nodes in insertion order and its edges in insertion order.
 Three behaviours of the library are taken as given:
 - adding an edge first adds whichever endpoint is missing (u before v);
 - a directed graph keeps at most one edge u -> v, an undirected simple graph at
   most one edge {u, v}, while a multigraph keeps every parallel edge;
 - the degree of a node is the number of edge ends at it (a self-loop counts
   twice), which for a directed graph is its in-degree plus its out-degree.

 The class `Graph` is the mutable object the helpers receive and change; each of
 its methods is proved against the pure operation on `Snapshot` that it performs.
 */
module Graphs {

  datatype Kind = Directed | Undirected | Multi

  /** The whole observable content of a graph. */
  datatype Snapshot<N> = Snapshot(kind: Kind, nodes: seq<N>, edges: seq<(N, N)>)

  predicate Distinct<T(==)>(s: seq<T>)
  {
    forall i, j | 0 <= i < j < |s| :: s[i] != s[j]
  }

  /** Whether edge `e` joins `u` to `v` in a graph of this kind. */
  predicate Links<N(==)>(kind: Kind, e: (N, N), u: N, v: N)
  {
    e == (u, v) || (kind != Directed && e == (v, u))
  }

  predicate HasEdge<N(==)>(kind: Kind, edges: seq<(N, N)>, u: N, v: N)
  {
    exists i | 0 <= i < |edges| :: Links(kind, edges[i], u, v)
  }

  /** No two edges join the same endpoints. */
  predicate Simple<N(==)>(kind: Kind, edges: seq<(N, N)>)
  {
    forall i, j | 0 <= i < j < |edges| :: !Links(kind, edges[j], edges[i].0, edges[i].1)
  }

  /** Whether `x` is an endpoint of some edge of `es`. */
  predicate Touches<N(==)>(es: seq<(N, N)>, x: N)
  {
    exists i | 0 <= i < |es| :: es[i].0 == x || es[i].1 == x
  }

  /** What every graph the library hands out satisfies. */
  ghost predicate WellFormed<N>(s: Snapshot<N>)
  {
    && Distinct(s.nodes)
    && (forall i | 0 <= i < |s.edges| :: s.edges[i].0 in s.nodes && s.edges[i].1 in s.nodes)
    && (s.kind != Multi ==> Simple(s.kind, s.edges))
  }

  /** The node list after adding `n`: unchanged if present, else `n` at the end. */
  function Include<N(==)>(nodes: seq<N>, n: N): (r: seq<N>)
    ensures nodes <= r && n in r
    ensures forall x | x in r :: x in nodes || x == n
    ensures Distinct(nodes) ==> Distinct(r)
  {
    if n in nodes then nodes else nodes + [n]
  }

  function WithNode<N(==)>(s: Snapshot<N>, n: N): Snapshot<N>
  {
    s.(nodes := Include(s.nodes, n))
  }

  function WithNodes<N(==)>(s: Snapshot<N>, ns: seq<N>): Snapshot<N>
  {
    if ns == [] then s else WithNode(WithNodes(s, ns[..|ns| - 1]), ns[|ns| - 1])
  }

  /** Adding the edge u -> v: missing endpoints are created, and a simple graph
      ignores an edge it already has. */
  function WithEdge<N(==)>(s: Snapshot<N>, u: N, v: N): Snapshot<N>
  {
    var nodes := Include(Include(s.nodes, u), v);
    if s.kind != Multi && HasEdge(s.kind, s.edges, u, v) then s.(nodes := nodes)
    else s.(nodes := nodes, edges := s.edges + [(u, v)])
  }

  function WithEdges<N(==)>(s: Snapshot<N>, es: seq<(N, N)>): Snapshot<N>
  {
    if es == [] then s
    else
      var last := es[|es| - 1];
      WithEdge(WithEdges(s, es[..|es| - 1]), last.0, last.1)
  }

  function OutDegree<N(==)>(edges: seq<(N, N)>, n: N): nat
  {
    if edges == [] then 0
    else OutDegree(edges[..|edges| - 1], n) + (if edges[|edges| - 1].0 == n then 1 else 0)
  }

  function InDegree<N(==)>(edges: seq<(N, N)>, n: N): nat
  {
    if edges == [] then 0
    else InDegree(edges[..|edges| - 1], n) + (if edges[|edges| - 1].1 == n then 1 else 0)
  }

  /** The number of edge ends at `n`. */
  function Degree<N(==)>(edges: seq<(N, N)>, n: N): nat
  {
    OutDegree(edges, n) + InDegree(edges, n)
  }

  /** The sum of the degrees of the nodes in `ns`. */
  function SumDegrees<N(==)>(edges: seq<(N, N)>, ns: seq<N>): nat
  {
    if ns == [] then 0 else SumDegrees(edges, ns[..|ns| - 1]) + Degree(edges, ns[|ns| - 1])
  }

  /** How often `x` occurs in `ns`. */
  function Occurrences<N(==)>(ns: seq<N>, x: N): nat
  {
    if ns == [] then 0 else Occurrences(ns[..|ns| - 1], x) + (if ns[|ns| - 1] == x then 1 else 0)
  }

  // ---------------------------------------------------------------------------
  // Adding nodes and edges

  lemma PrefixTransitive<T>(a: seq<T>, b: seq<T>, c: seq<T>)
    requires a <= b && b <= c
    ensures a <= c
  {
    assert forall i | 0 <= i < |a| :: a[i] == b[i] == c[i];
  }

  lemma SplitLast<T>(s: seq<T>)
    requires s != []
    ensures s == s[..|s| - 1] + [s[|s| - 1]]
  {
  }

  /** Adding nodes keeps the old nodes as a prefix and adds exactly the new ones. */
  lemma ConcatSplitLast<T>(a: seq<T>, b: seq<T>)
    requires b != []
    ensures a + b == (a + b[..|b| - 1]) + [b[|b| - 1]]
  {
    SplitLast(b);
  }

  lemma {:induction false} WithNodesSpec<N>(s: Snapshot<N>, ns: seq<N>)
    requires WellFormed(s)
    ensures var r := WithNodes(s, ns);
      && WellFormed(r) && r.kind == s.kind && r.edges == s.edges && s.nodes <= r.nodes
      && (forall x :: x in r.nodes <==> x in s.nodes || x in ns)
  {
    if ns != [] {
      WithNodesSpec(s, ns[..|ns| - 1]);
      assert ns == ns[..|ns| - 1] + [ns[|ns| - 1]];
    }
  }

  /** Adding nodes that are new and pairwise distinct appends them in order. */
  lemma {:induction false} WithNodesAppends<N>(s: Snapshot<N>, ns: seq<N>)
    requires Distinct(ns)
    requires forall i | 0 <= i < |ns| :: ns[i] !in s.nodes
    ensures WithNodes(s, ns) == s.(nodes := s.nodes + ns)
  {
    if ns != [] {
      var init := ns[..|ns| - 1];
      WithNodesAppends(s, init);
      assert ns[|ns| - 1] !in s.nodes + init;
      assert s.nodes + init + [ns[|ns| - 1]] == s.nodes + ns;
    }
  }

  /** After appending e, the joined pairs are the old ones and those e joins. */
  lemma HasEdgeSnoc<N>(kind: Kind, es: seq<(N, N)>, e: (N, N), a: N, b: N)
    ensures HasEdge(kind, es + [e], a, b) <==> HasEdge(kind, es, a, b) || Links(kind, e, a, b)
  {
    if HasEdge(kind, es + [e], a, b) {
      var i :| 0 <= i < |es + [e]| && Links(kind, (es + [e])[i], a, b);
      if i < |es| { assert Links(kind, es[i], a, b); }
    }
    if HasEdge(kind, es, a, b) {
      var i :| 0 <= i < |es| && Links(kind, es[i], a, b);
      assert Links(kind, (es + [e])[i], a, b);
    }
    if Links(kind, e, a, b) {
      assert Links(kind, (es + [e])[|es|], a, b);
    }
  }

  /** Joining is symmetric in undirected graphs, so an edge that links u to v
      links every pair that (u, v) links. */
  lemma LinkedAlready<N>(kind: Kind, es: seq<(N, N)>, u: N, v: N, a: N, b: N)
    requires HasEdge(kind, es, u, v) && Links(kind, (u, v), a, b)
    ensures HasEdge(kind, es, a, b)
  {
    var i :| 0 <= i < |es| && Links(kind, es[i], u, v);
    assert Links(kind, es[i], a, b);
  }

  /** One edge addition adds exactly the endpoints that were missing. */
  lemma WithEdgeNodes<N>(s: Snapshot<N>, u: N, v: N)
    ensures var r := WithEdge(s, u, v);
      && r.kind == s.kind && s.nodes <= r.nodes && s.edges <= r.edges
      && (Distinct(s.nodes) ==> Distinct(r.nodes))
      && (forall x :: x in r.nodes <==> x in s.nodes || x == u || x == v)
      && (s.kind == Multi ==> r.edges == s.edges + [(u, v)])
  {
  }

  /** The same, for one node x. */
  lemma WithEdgeNode<N>(s: Snapshot<N>, u: N, v: N, x: N)
    ensures s.nodes <= WithEdge(s, u, v).nodes
    ensures x in WithEdge(s, u, v).nodes <==> x in s.nodes || x == u || x == v
  {
  }

  /** After adding u -> v, the joined pairs are the old ones plus those (u, v) joins. */
  lemma WithEdgeLinks<N>(s: Snapshot<N>, u: N, v: N, a: N, b: N)
    ensures HasEdge(s.kind, WithEdge(s, u, v).edges, a, b) <==>
      HasEdge(s.kind, s.edges, a, b) || Links(s.kind, (u, v), a, b)
  {
    if s.kind != Multi && HasEdge(s.kind, s.edges, u, v) {
      if Links(s.kind, (u, v), a, b) {
        LinkedAlready(s.kind, s.edges, u, v, a, b);
      }
    } else {
      HasEdgeSnoc(s.kind, s.edges, (u, v), a, b);
    }
  }

  /** One edge addition keeps a graph well formed. */
  lemma WithEdgeWellFormed<N>(s: Snapshot<N>, u: N, v: N)
    requires WellFormed(s)
    ensures WellFormed(WithEdge(s, u, v))
  {
    var r := WithEdge(s, u, v);
    var joined := s.kind != Multi && HasEdge(s.kind, s.edges, u, v);
    assert r.edges == if joined then s.edges else s.edges + [(u, v)];
    forall i | 0 <= i < |r.edges| ensures r.edges[i].0 in r.nodes && r.edges[i].1 in r.nodes
    {
      WithEdgeNode(s, u, v, r.edges[i].0);
      WithEdgeNode(s, u, v, r.edges[i].1);
      if i < |s.edges| {
        assert r.edges[i] == s.edges[i];
      }
    }
    if s.kind != Multi && !joined {
      forall i, j | 0 <= i < j < |r.edges| ensures !Links(s.kind, r.edges[j], r.edges[i].0, r.edges[i].1)
      {
        assert r.edges[i] == s.edges[i];
        if j == |s.edges| && Links(s.kind, (u, v), s.edges[i].0, s.edges[i].1) {
          assert Links(s.kind, s.edges[i], u, v);
        }
      }
    }
  }

  /** One edge addition: the graph stays well formed, exactly the missing endpoints
      are added, and afterwards u and v are joined and nothing else is newly joined. */
  lemma WithEdgeSpec<N>(s: Snapshot<N>, u: N, v: N)
    requires WellFormed(s)
    ensures var r := WithEdge(s, u, v);
      && WellFormed(r) && r.kind == s.kind && s.nodes <= r.nodes && s.edges <= r.edges
      && (forall x :: x in r.nodes <==> x in s.nodes || x == u || x == v)
      && (forall a, b :: HasEdge(r.kind, r.edges, a, b) <==>
            HasEdge(s.kind, s.edges, a, b) || Links(s.kind, (u, v), a, b))
      && (s.kind == Multi ==> r.edges == s.edges + [(u, v)])
  {
    WithEdgeNodes(s, u, v);
    WithEdgeWellFormed(s, u, v);
    forall a, b
      ensures HasEdge(s.kind, WithEdge(s, u, v).edges, a, b) <==>
        HasEdge(s.kind, s.edges, a, b) || Links(s.kind, (u, v), a, b)
    {
      WithEdgeLinks(s, u, v, a, b);
    }
  }

  lemma TouchesSnoc<N>(es: seq<(N, N)>, e: (N, N), x: N)
    ensures Touches(es + [e], x) <==> Touches(es, x) || e.0 == x || e.1 == x
  {
    if Touches(es + [e], x) {
      var i :| 0 <= i < |es + [e]| && ((es + [e])[i].0 == x || (es + [e])[i].1 == x);
      if i < |es| { assert es[i] == (es + [e])[i]; }
    }
    if Touches(es, x) {
      var i :| 0 <= i < |es| && (es[i].0 == x || es[i].1 == x);
      assert es[i] == (es + [e])[i];
    }
    if e.0 == x || e.1 == x {
      assert (es + [e])[|es|] == e;
    }
  }

  /** Adding edges keeps a graph well formed and of its kind. */
  lemma {:induction false} WithEdgesWellFormed<N>(s: Snapshot<N>, es: seq<(N, N)>)
    requires WellFormed(s)
    ensures WellFormed(WithEdges(s, es)) && WithEdges(s, es).kind == s.kind
  {
    if es != [] {
      var init, last := es[..|es| - 1], es[|es| - 1];
      var t := WithEdges(s, init);
      assert WithEdges(s, es) == WithEdge(t, last.0, last.1);
      WithEdgesWellFormed(s, init);
      WithEdgeWellFormed(t, last.0, last.1);
    }
  }

  /** Adding edges keeps the old nodes as a prefix, and a multigraph simply
      appends `es` to its edges. */
  lemma {:induction false} WithEdgesGrows<N>(s: Snapshot<N>, es: seq<(N, N)>)
    ensures var r := WithEdges(s, es);
      && r.kind == s.kind && s.nodes <= r.nodes
      && (s.kind == Multi ==> r.edges == s.edges + es)
  {
    if es != [] {
      var init, last := es[..|es| - 1], es[|es| - 1];
      var t := WithEdges(s, init);
      var r := WithEdge(t, last.0, last.1);
      assert WithEdges(s, es) == r;
      WithEdgesGrows(s, init);
      WithEdgeNodes(t, last.0, last.1);
      PrefixTransitive(s.nodes, t.nodes, r.nodes);
      if s.kind == Multi {
        SplitLast(es);
        assert r.edges == s.edges + init + [last];
      }
    }
  }

  /** The nodes after adding edges are the old ones and the endpoints of `es`. */
  lemma {:induction false} WithEdgesNodes<N>(s: Snapshot<N>, es: seq<(N, N)>, x: N)
    ensures x in WithEdges(s, es).nodes <==> x in s.nodes || Touches(es, x)
  {
    if es != [] {
      var init, last := es[..|es| - 1], es[|es| - 1];
      var t := WithEdges(s, init);
      assert WithEdges(s, es) == WithEdge(t, last.0, last.1);
      WithEdgesNodes(s, init, x);
      WithEdgeNodes(t, last.0, last.1);
      SplitLast(es);
      TouchesSnoc(init, last, x);
    }
  }

  /** The pairs joined after adding edges are the old ones and those `es` joins. */
  lemma {:induction false} WithEdgesLinks<N>(s: Snapshot<N>, es: seq<(N, N)>, a: N, b: N)
    ensures WithEdges(s, es).kind == s.kind
    ensures HasEdge(s.kind, WithEdges(s, es).edges, a, b) <==>
      HasEdge(s.kind, s.edges, a, b) || HasEdge(s.kind, es, a, b)
  {
    if es != [] {
      var init, last := es[..|es| - 1], es[|es| - 1];
      var t := WithEdges(s, init);
      assert WithEdges(s, es) == WithEdge(t, last.0, last.1);
      WithEdgesLinks(s, init, a, b);
      WithEdgeLinks(t, last.0, last.1, a, b);
      SplitLast(es);
      HasEdgeSnoc(s.kind, init, last, a, b);
    }
  }

  /** Adding a sequence of edges: the graph stays well formed, the endpoints are
      the only new nodes, the joined pairs are the old ones plus those of `es`,
      and a multigraph simply appends `es`. */
  lemma WithEdgesSpec<N>(s: Snapshot<N>, es: seq<(N, N)>)
    requires WellFormed(s)
    ensures var r := WithEdges(s, es);
      && WellFormed(r) && r.kind == s.kind && s.nodes <= r.nodes
      && (forall x :: x in r.nodes <==> x in s.nodes || Touches(es, x))
      && (forall a, b :: HasEdge(r.kind, r.edges, a, b) <==>
            HasEdge(s.kind, s.edges, a, b) || HasEdge(s.kind, es, a, b))
      && (s.kind == Multi ==> r.edges == s.edges + es)
  {
    WithEdgesWellFormed(s, es);
    WithEdgesGrows(s, es);
    forall x ensures x in WithEdges(s, es).nodes <==> x in s.nodes || Touches(es, x)
    {
      WithEdgesNodes(s, es, x);
    }
    forall a, b ensures HasEdge(s.kind, WithEdges(s, es).edges, a, b) <==>
      HasEdge(s.kind, s.edges, a, b) || HasEdge(s.kind, es, a, b)
    {
      WithEdgesLinks(s, es, a, b);
    }
  }

  lemma WithEdgesSnoc<N>(s: Snapshot<N>, es: seq<(N, N)>, e: (N, N))
    ensures WithEdges(s, es + [e]) == WithEdge(WithEdges(s, es), e.0, e.1)
  {
    assert (es + [e])[..|es|] == es;
  }

  /** Adding a + b edge by edge is adding a, then b. */
  lemma {:induction false} WithEdgesConcat<N>(s: Snapshot<N>, a: seq<(N, N)>, b: seq<(N, N)>)
    ensures WithEdges(s, a + b) == WithEdges(WithEdges(s, a), b)
  {
    if b == [] {
      assert a + b == a;
    } else {
      var init, last := b[..|b| - 1], b[|b| - 1];
      WithEdgesConcat(s, a, init);
      ConcatSplitLast(a, b);
      WithEdgesSnoc(s, a + init, last);
    }
  }

  /** In a directed graph, simple means that no edge occurs twice. */
  lemma DirectedSimple<N>(es: seq<(N, N)>)
    ensures Simple(Directed, es) <==> Distinct(es)
  {
  }

  /** Adding edges with known endpoints that join no pair joined before, nor any
      pair twice, appends them unchanged. */
  lemma {:induction false} WithEdgesAppends<N>(s: Snapshot<N>, es: seq<(N, N)>)
    requires WellFormed(s)
    requires forall i | 0 <= i < |es| :: es[i].0 in s.nodes && es[i].1 in s.nodes
    requires s.kind != Multi ==> Simple(s.kind, s.edges + es)
    ensures WithEdges(s, es) == s.(edges := s.edges + es)
  {
    if es != [] {
      var init, last := es[..|es| - 1], es[|es| - 1];
      var all := s.edges + es;
      assert all == (s.edges + init) + [last];
      if s.kind != Multi {
        assert Simple(s.kind, s.edges + init) by {
          forall i, j | 0 <= i < j < |s.edges + init|
            ensures !Links(s.kind, (s.edges + init)[j], (s.edges + init)[i].0, (s.edges + init)[i].1)
          {
            assert (s.edges + init)[i] == all[i] && (s.edges + init)[j] == all[j];
          }
        }
      }
      WithEdgesAppends(s, init);
      var t := WithEdges(s, init);
      if s.kind != Multi {
        forall i | 0 <= i < |t.edges| ensures !Links(s.kind, t.edges[i], last.0, last.1)
        {
          assert t.edges[i] == all[i] && all[|all| - 1] == last;
          if Links(s.kind, t.edges[i], last.0, last.1) {
            assert Links(s.kind, all[|all| - 1], all[i].0, all[i].1);
          }
        }
      }
    }
  }

  /** On a simple graph adding an edge that is already there, between nodes that are
      already there, changes nothing. */
  lemma WithEdgePresent<N>(s: Snapshot<N>, u: N, v: N)
    requires s.kind != Multi && u in s.nodes && v in s.nodes && HasEdge(s.kind, s.edges, u, v)
    ensures WithEdge(s, u, v) == s
  {
  }

  /** On a simple graph, adding edges whose pairs are all joined already and whose
      endpoints are all present changes nothing. */
  lemma {:induction false} WithEdgesPresent<N>(s: Snapshot<N>, es: seq<(N, N)>)
    requires s.kind != Multi
    requires forall i | 0 <= i < |es| :: es[i].0 in s.nodes && es[i].1 in s.nodes
    requires forall i | 0 <= i < |es| :: HasEdge(s.kind, s.edges, es[i].0, es[i].1)
    ensures WithEdges(s, es) == s
  {
    if es != [] {
      var last := es[|es| - 1];
      WithEdgesPresent(s, es[..|es| - 1]);
      WithEdgePresent(s, last.0, last.1);
    }
  }

  // ---------------------------------------------------------------------------
  // Degrees

  lemma {:induction false} DegreesOfConcat<N>(a: seq<(N, N)>, b: seq<(N, N)>, n: N)
    ensures OutDegree(a + b, n) == OutDegree(a, n) + OutDegree(b, n)
    ensures InDegree(a + b, n) == InDegree(a, n) + InDegree(b, n)
    ensures Degree(a + b, n) == Degree(a, n) + Degree(b, n)
  {
    if b == [] {
      assert a + b == a;
    } else {
      var init := b[..|b| - 1];
      assert (a + b)[..|a + b| - 1] == a + init;
      DegreesOfConcat(a, init, n);
    }
  }

  lemma DegreesOfOne<N>(e: (N, N), n: N)
    ensures OutDegree([e], n) == (if e.0 == n then 1 else 0)
    ensures InDegree([e], n) == (if e.1 == n then 1 else 0)
  {
    assert [e][..0] == [];
  }

  lemma {:induction false} SumDegreesNoEdges<N>(ns: seq<N>)
    ensures SumDegrees([], ns) == 0
  {
    if ns != [] {
      SumDegreesNoEdges(ns[..|ns| - 1]);
    }
  }

  lemma {:induction false} SumDegreesSnoc<N>(edges: seq<(N, N)>, e: (N, N), ns: seq<N>)
    ensures SumDegrees(edges + [e], ns) == SumDegrees(edges, ns) + Occurrences(ns, e.0) + Occurrences(ns, e.1)
  {
    if ns != [] {
      SumDegreesSnoc(edges, e, ns[..|ns| - 1]);
      assert (edges + [e])[..|edges + [e]| - 1] == edges;
    }
  }

  lemma {:induction false} OccurrencesInDistinct<N>(ns: seq<N>, x: N)
    requires Distinct(ns)
    ensures Occurrences(ns, x) == if x in ns then 1 else 0
  {
    if ns != [] {
      var init := ns[..|ns| - 1];
      OccurrencesInDistinct(init, x);
      assert ns == init + [ns[|ns| - 1]];
    }
  }

  /** Handshake: when every endpoint is one of the distinct nodes `ns`, their
      degrees add up to twice the number of edges. */
  lemma {:induction false} SumOfDegrees<N>(edges: seq<(N, N)>, ns: seq<N>)
    requires Distinct(ns)
    requires forall i | 0 <= i < |edges| :: edges[i].0 in ns && edges[i].1 in ns
    ensures SumDegrees(edges, ns) == 2 * |edges|
  {
    if edges == [] {
      SumDegreesNoEdges(ns);
    } else {
      var init, last := edges[..|edges| - 1], edges[|edges| - 1];
      assert edges == init + [last];
      SumOfDegrees(init, ns);
      SumDegreesSnoc(init, last, ns);
      OccurrencesInDistinct(ns, last.0);
      OccurrencesInDistinct(ns, last.1);
    }
  }

  /** The degrees of a well-formed graph's nodes add up to twice its edge count. */
  lemma HandshakeOfGraph<N>(s: Snapshot<N>)
    requires WellFormed(s)
    ensures SumDegrees(s.edges, s.nodes) == 2 * |s.edges|
  {
    SumOfDegrees(s.edges, s.nodes);
  }

  // ---------------------------------------------------------------------------
  // The mutable graph object

  class Graph<N(==)> {
    var kind: Kind
    var nodes: seq<N>
    var edges: seq<(N, N)>

    function Value(): Snapshot<N>
      reads this
    {
      Snapshot(kind, nodes, edges)
    }

    ghost predicate Valid()
      reads this
    {
      WellFormed(Value())
    }

    /** An empty graph of the given kind. */
    constructor (kind: Kind)
      ensures Valid() && Value() == Snapshot(kind, [], [])
    {
      this.kind := kind;
      nodes := [];
      edges := [];
    }

    method AddNode(n: N)
      requires Valid()
      modifies this
      ensures Valid() && Value() == WithNode(old(Value()), n)
    {
      if n !in nodes {
        nodes := nodes + [n];
      }
    }

    method AddNodesFrom(ns: seq<N>)
      requires Valid()
      modifies this
      ensures Valid() && Value() == WithNodes(old(Value()), ns)
    {
      for i := 0 to |ns|
        invariant Valid() && Value() == WithNodes(old(Value()), ns[..i])
      {
        assert ns[..i + 1][..i] == ns[..i];
        AddNode(ns[i]);
      }
      assert ns[..|ns|] == ns;
    }

    method AddEdge(u: N, v: N)
      requires Valid()
      modifies this
      ensures Valid() && Value() == WithEdge(old(Value()), u, v)
    {
      WithEdgeSpec(Value(), u, v);
      var joined := HasEdge(kind, edges, u, v);
      if u !in nodes {
        nodes := nodes + [u];
      }
      if v !in nodes {
        nodes := nodes + [v];
      }
      if kind == Multi || !joined {
        edges := edges + [(u, v)];
      }
    }

    method AddEdgesFrom(es: seq<(N, N)>)
      requires Valid()
      modifies this
      ensures Valid() && Value() == WithEdges(old(Value()), es)
    {
      for i := 0 to |es|
        invariant Valid() && Value() == WithEdges(old(Value()), es[..i])
      {
        assert es[..i + 1][..i] == es[..i];
        AddEdge(es[i].0, es[i].1);
      }
      assert es[..|es|] == es;
    }
  }
}
