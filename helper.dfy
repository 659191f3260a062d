/**
 The graph-building and partitioning logic of the network-analysis teaching helpers:
 - the parity digraph (nodes 0..19, an edge i -> i + 1 for every even i);
 - the five-node multigraph and the four fixed edges added to it in place;
 - the node -> degree table;
 - the two lists of friends of the anchor members 0 and 33, read off an edge enumeration;
 - the split of the members by their 'club' attribute;
 - the friend-of-friend digraph grown from a dictionary of friend lists.
 Drawing, layout and the data sets themselves are outside this module.
 */
module Helper {
  import opened Graphs

  /** The nodes 0, 1, ..., n - 1 in order. */
  function Range(n: nat): (r: seq<int>)
    ensures |r| == n && Distinct(r)
    ensures forall i | 0 <= i < n :: r[i] == i
  {
    seq(n, i => i)
  }

  lemma InRange(n: nat)
    ensures forall x :: x in Range(n) <==> 0 <= x < n
  {
    forall x | 0 <= x < n ensures x in Range(n)
    {
      assert Range(n)[x] == x;
    }
  }

  // ===========================================================================
  // get_circular_dg

  const CircularOrder: nat := 20

  /** The pairs (idx, idx + 1) for the even idx among i, i + 1, ..., n - 1, in order. */
  function ParityFrom(i: nat, n: nat): seq<(int, int)>
    decreases n - i
  {
    if i >= n then []
    else ParityStep(i) + ParityFrom(i + 1, n)
  }

  /** What index i contributes to the comprehension. */
  function ParityStep(i: nat): seq<(int, int)>
  {
    if i % 2 == 0 then [(i as int, i + 1)] else []
  }

  /** The edge list of the parity digraph of order n. */
  function ParityEdges(n: nat): seq<(int, int)>
  {
    ParityFrom(0, n)
  }

  lemma {:induction false} ParityFromLength(i: nat, n: nat)
    requires i <= n
    ensures |ParityFrom(i, n)| == (n + 1) / 2 - (i + 1) / 2
    decreases n - i
  {
    if i < n {
      ParityFromLength(i + 1, n);
    }
  }

  /** Every pair from index i on is (x, x + 1) with x even and i <= x < n, and the
      first components strictly increase. */
  lemma {:induction false} ParityFromShape(i: nat, n: nat)
    ensures forall k | 0 <= k < |ParityFrom(i, n)| ::
      var e := ParityFrom(i, n)[k]; i <= e.0 < n && e.0 % 2 == 0 && e.1 == e.0 + 1
    ensures forall k, l | 0 <= k < l < |ParityFrom(i, n)| :: ParityFrom(i, n)[k].0 < ParityFrom(i, n)[l].0
    decreases n - i
  {
    if i < n {
      ParityFromShape(i + 1, n);
      var head, rest := ParityStep(i), ParityFrom(i + 1, n);
      var r := head + rest;
      assert ParityFrom(i, n) == r;
      forall k | 0 <= k < |r| ensures i <= r[k].0 < n && r[k].0 % 2 == 0 && r[k].1 == r[k].0 + 1
      {
        if k < |head| {
          assert i % 2 == 0 && r[k] == (i as int, i + 1);
        } else {
          assert r[k] == rest[k - |head|];
        }
      }
      forall k, l | 0 <= k < l < |r| ensures r[k].0 < r[l].0
      {
        assert r[l] == rest[l - |head|];
        if k < |head| {
          assert r[k] == (i as int, i + 1);
        } else {
          assert r[k] == rest[k - |head|];
        }
      }
    }
  }

  /** Every even x with i <= x < n contributes its pair. */
  lemma {:induction false} ParityFromComplete(i: nat, n: nat, x: int)
    requires i <= x < n && x % 2 == 0
    ensures (x, x + 1) in ParityFrom(i, n)
    decreases n - i
  {
    var head, rest := ParityStep(i), ParityFrom(i + 1, n);
    assert ParityFrom(i, n) == head + rest;
    if x == i {
      assert (head + rest)[0] == (x, x + 1);
    } else {
      ParityFromComplete(i + 1, n, x);
      assert (head + rest)[|head| + 0..] == rest;
    }
  }

  /** The comprehension yields exactly the pairs (i, i + 1) with i even and below n,
      each once, in increasing order; there are (n + 1) / 2 of them. */
  lemma ParityEdgesSpec(n: nat)
    ensures var r := ParityEdges(n);
      && |r| == (n + 1) / 2
      && Distinct(r)
      && (forall a, b :: (a, b) in r <==> 0 <= a < n && a % 2 == 0 && b == a + 1)
  {
    ParityFromLength(0, n);
    ParityFromShape(0, n);
    var r := ParityEdges(n);
    forall a, b ensures (a, b) in r <==> 0 <= a < n && a % 2 == 0 && b == a + 1
    {
      if 0 <= a < n && a % 2 == 0 && b == a + 1 {
        ParityFromComplete(0, n, a);
      }
    }
  }

  /** For an even order every endpoint is a node 0..n-1, so adding the edges creates
      no node; for an odd order the comprehension also yields (n - 1, n), whose
      target n lies outside 0..n-1. */
  lemma ParityEdgesEndpoints(n: nat)
    ensures n % 2 == 0 ==> forall i | 0 <= i < |ParityEdges(n)| ::
      0 <= ParityEdges(n)[i].0 < n && 0 <= ParityEdges(n)[i].1 < n
    ensures n % 2 == 1 ==> (n - 1, n) in ParityEdges(n)
  {
    ParityFromShape(0, n);
    if n % 2 == 1 {
      ParityFromComplete(0, n, n - 1);
    }
  }

  lemma {:induction false} ParityFromDegrees(i: nat, n: nat, x: int)
    ensures OutDegree(ParityFrom(i, n), x) == if i <= x < n && x % 2 == 0 then 1 else 0
    ensures InDegree(ParityFrom(i, n), x) == if i < x <= n && x % 2 == 1 then 1 else 0
    decreases n - i
  {
    if i < n {
      ParityFromDegrees(i + 1, n, x);
      DegreesOfConcat(ParityStep(i), ParityFrom(i + 1, n), x);
      if i % 2 == 0 {
        DegreesOfOne((i as int, i + 1), x);
      }
    }
  }

  /** In the parity digraph every even node has out-degree 1 and in-degree 0, and
      every odd node in-degree 1 and out-degree 0. */
  lemma ParityDegrees(n: nat, x: int)
    requires 0 <= x < n
    ensures x % 2 == 0 ==> OutDegree(ParityEdges(n), x) == 1 && InDegree(ParityEdges(n), x) == 0
    ensures x % 2 == 1 ==> InDegree(ParityEdges(n), x) == 1 && OutDegree(ParityEdges(n), x) == 0
  {
    ParityFromDegrees(0, n, x);
  }

  /** get_circular_dg: a fresh digraph whose nodes are exactly 0..19 in order and
      whose edges are exactly the comprehension's pairs, in order. */
  method GetCircularDg() returns (dg: Graph<int>)
    ensures fresh(dg) && dg.Valid()
    ensures dg.Value() == Snapshot(Directed, Range(CircularOrder), ParityEdges(CircularOrder))
  {
    dg := new Graph(Directed);
    var nodes := Range(CircularOrder);
    WithNodesAppends(dg.Value(), nodes);
    dg.AddNodesFrom(nodes);
    assert [] + nodes == nodes;
    assert dg.Value() == Snapshot(Directed, nodes, []);
    var edgs := ParityEdges(|nodes|);
    ParityEdgesFit(|nodes|);
    dg.AddEdgesFrom(edgs);
  }

  /** For an even order n, the parity edges can be appended to the digraph on 0..n-1
      as they are: no endpoint is new and no pair repeats. */
  lemma ParityEdgesFit(n: nat)
    requires n % 2 == 0
    ensures WithEdges(Snapshot(Directed, Range(n), []), ParityEdges(n)) == Snapshot(Directed, Range(n), ParityEdges(n))
  {
    var s := Snapshot(Directed, Range(n), []);
    var es := ParityEdges(n);
    ParityEdgesSpec(n);
    ParityEdgesEndpoints(n);
    InRange(n);
    assert s.edges + es == es;
    DirectedSimple(es);
    WithEdgesAppends(s, es);
  }

  /** From an even start i, the k-th pair is (i + 2k, i + 2k + 1). */
  lemma {:induction false} ParityFromAt(i: nat, n: nat, k: nat)
    requires i % 2 == 0 && k < |ParityFrom(i, n)|
    ensures ParityFrom(i, n)[k] == (i + 2 * k, i + 2 * k + 1)
    decreases n - i
  {
    assert ParityFrom(i, n) == [(i as int, i + 1)] + ParityFrom(i + 1, n);
    if k > 0 {
      if i + 1 < n {
        assert ParityFrom(i + 1, n) == ParityFrom(i + 2, n);
      }
      ParityFromAt(i + 2, n, k - 1);
    }
  }

  /** For an even order n there are n/2 parity edges, the k-th being (2k, 2k + 1); for
      get_circular_dg's order 20, ten edges (0, 1), (2, 3), ..., (18, 19). */
  lemma ParityEdgesShape(n: nat)
    requires n % 2 == 0
    ensures |ParityEdges(n)| == n / 2
    ensures forall k | 0 <= k < n / 2 :: ParityEdges(n)[k] == (2 * k, 2 * k + 1)
  {
    ParityFromLength(0, n);
    forall k | 0 <= k < n / 2 ensures ParityEdges(n)[k] == (2 * k, 2 * k + 1)
    {
      ParityFromAt(0, n, k);
    }
  }

  // ===========================================================================
  // get_multigraph, add_edges

  const MultigraphOrder: nat := 5

  /** The edges add_edges adds, in the order it adds them. */
  const FixedEdges: seq<(int, int)> := [(0, 2), (4, 0), (2, 4), (1, 3)]

  /** get_multigraph: a fresh multigraph with the isolated nodes 0..4. */
  method GetMultigraph() returns (mg: Graph<int>)
    ensures fresh(mg) && mg.Valid()
    ensures mg.Value() == Snapshot(Multi, Range(MultigraphOrder), [])
  {
    mg := new Graph(Multi);
    WithNodesAppends(mg.Value(), Range(MultigraphOrder));
    mg.AddNodesFrom(Range(MultigraphOrder));
  }

  /** The graph after the four add_edge calls of add_edges. */
  function AfterAddEdges(s: Snapshot<int>): Snapshot<int>
  {
    WithEdge(WithEdge(WithEdge(WithEdge(s, 0, 2), 4, 0), 2, 4), 1, 3)
  }

  /** add_edges: adds (0, 2), (4, 0), (2, 4), (1, 3) to the graph it is given, in
      place, and hands back that same graph. */
  method AddEdges(mg: Graph<int>) returns (r: Graph<int>)
    requires mg.Valid()
    modifies mg
    ensures r == mg
    ensures mg.Valid() && mg.Value() == AfterAddEdges(old(mg.Value()))
  {
    mg.AddEdge(0, 2);
    mg.AddEdge(4, 0);
    mg.AddEdge(2, 4);
    mg.AddEdge(1, 3);
    r := mg;
  }

  /** add_edges adds exactly those of the nodes 0..4 that were missing. */
  lemma AddEdgesNodes(s: Snapshot<int>, x: int)
    ensures x in AfterAddEdges(s).nodes <==> x in s.nodes || 0 <= x < MultigraphOrder
  {
    var s1 := WithEdge(s, 0, 2);
    var s2 := WithEdge(s1, 4, 0);
    var s3 := WithEdge(s2, 2, 4);
    WithEdgeNode(s, 0, 2, x);
    WithEdgeNode(s1, 4, 0, x);
    WithEdgeNode(s2, 2, 4, x);
    WithEdgeNode(s3, 1, 3, x);
    assert x in s3.nodes <==> x in s.nodes || x == 0 || x == 2 || x == 4;
    assert 0 <= x < MultigraphOrder <==> x == 0 || x == 1 || x == 2 || x == 3 || x == 4;
  }

  /** add_edges keeps the existing nodes in their order, appending any new ones. */
  lemma AddEdgesKeepsNodes(s: Snapshot<int>)
    ensures s.nodes <= AfterAddEdges(s).nodes
  {
    var s1 := WithEdge(s, 0, 2);
    var s2 := WithEdge(s1, 4, 0);
    var s3 := WithEdge(s2, 2, 4);
    WithEdgeNode(s, 0, 2, 0);
    WithEdgeNode(s1, 4, 0, 0);
    WithEdgeNode(s2, 2, 4, 0);
    WithEdgeNode(s3, 1, 3, 0);
    PrefixTransitive(s.nodes, s1.nodes, s2.nodes);
    PrefixTransitive(s.nodes, s2.nodes, s3.nodes);
    PrefixTransitive(s.nodes, s3.nodes, AfterAddEdges(s).nodes);
  }

  /** add_edges keeps every kind of graph well formed. */
  lemma AddEdgesWellFormed(s: Snapshot<int>)
    requires WellFormed(s)
    ensures WellFormed(AfterAddEdges(s)) && AfterAddEdges(s).kind == s.kind
  {
    var s1 := WithEdge(s, 0, 2);
    var s2 := WithEdge(s1, 4, 0);
    var s3 := WithEdge(s2, 2, 4);
    WithEdgeWellFormed(s, 0, 2);
    WithEdgeWellFormed(s1, 4, 0);
    WithEdgeWellFormed(s2, 2, 4);
    WithEdgeWellFormed(s3, 1, 3);
  }

  /** On a multigraph, add_edges appends exactly the four edges; a graph that already
      has the nodes 0..4 keeps its node list. */
  lemma AddEdgesOnMultigraph(s: Snapshot<int>)
    requires s.kind == Multi
    ensures AfterAddEdges(s).edges == s.edges + FixedEdges
    ensures (forall x | 0 <= x < MultigraphOrder :: x in s.nodes) ==> AfterAddEdges(s).nodes == s.nodes
  {
    var s1 := WithEdge(s, 0, 2);
    var s2 := WithEdge(s1, 4, 0);
    var s3 := WithEdge(s2, 2, 4);
    assert s1.edges == s.edges + [(0, 2)];
    assert s2.edges == s.edges + [(0, 2), (4, 0)];
    assert s3.edges == s.edges + [(0, 2), (4, 0), (2, 4)];
    assert AfterAddEdges(s).edges == s.edges + [(0, 2), (4, 0), (2, 4), (1, 3)];
    if forall x | 0 <= x < MultigraphOrder :: x in s.nodes {
      assert 0 in s.nodes && 1 in s.nodes && 2 in s.nodes && 3 in s.nodes && 4 in s.nodes;
    }
  }

  /** What add_edges adds to the degree of node x: 2 for 0, 2 and 4, 1 for 1 and 3. */
  function FixedGain(x: int): nat
  {
    if x == 0 || x == 2 || x == 4 then 2
    else if x == 1 || x == 3 then 1
    else 0
  }

  lemma FixedEdgesDegree(x: int)
    ensures Degree(FixedEdges, x) == FixedGain(x)
  {
    var e1, e2, e3 := (0, 2), (4, 0), (2, 4);
    DegreesOfConcat([e1], [e2], x);
    DegreesOfConcat([e1, e2], [e3], x);
    DegreesOfConcat([e1, e2, e3], [(1, 3)], x);
    DegreesOfOne(e1, x);
    DegreesOfOne(e2, x);
    DegreesOfOne(e3, x);
    DegreesOfOne((1, 3), x);
    assert [e1] + [e2] == [e1, e2] && [e1, e2] + [e3] == [e1, e2, e3];
    assert FixedEdges == [e1, e2, e3] + [(1, 3)];
  }

  /** On any multigraph, add_edges raises the degree of 0, 2 and 4 by 2 and of 1 and 3
      by 1, and leaves every other degree alone. */
  lemma AddEdgesDegrees(s: Snapshot<int>, x: int)
    requires s.kind == Multi
    ensures Degree(AfterAddEdges(s).edges, x) == Degree(s.edges, x) + FixedGain(x)
  {
    AddEdgesOnMultigraph(s);
    DegreesOfConcat(s.edges, FixedEdges, x);
    FixedEdgesDegree(x);
  }

  /** add_edges is not idempotent on a multigraph: a second call appends four more
      parallel edges and raises the degrees again. */
  lemma AddEdgesTwiceOnMultigraph(s: Snapshot<int>, x: int)
    requires s.kind == Multi
    ensures |AfterAddEdges(AfterAddEdges(s)).edges| == |s.edges| + 8
    ensures Degree(AfterAddEdges(AfterAddEdges(s)).edges, x) == Degree(s.edges, x) + 2 * FixedGain(x)
    ensures AfterAddEdges(AfterAddEdges(s)) != AfterAddEdges(s)
  {
    var once := AfterAddEdges(s);
    var twice := AfterAddEdges(once);
    AddEdgesOnMultigraph(s);
    assert once.kind == Multi;
    AddEdgesOnMultigraph(once);
    assert |once.edges| == |s.edges| + 4;
    assert |twice.edges| == |once.edges| + 4;
    AddEdgesDegrees(s, x);
    AddEdgesDegrees(once, x);
    assert twice.edges != once.edges;
  }

  /** On a simple graph (a digraph or an undirected graph), by contrast, a second
      add_edges changes nothing. */
  lemma AddEdgesTwiceOnSimpleGraph(s: Snapshot<int>)
    requires s.kind != Multi
    ensures AfterAddEdges(AfterAddEdges(s)) == AfterAddEdges(s)
  {
    var s1 := WithEdge(s, 0, 2);
    var s2 := WithEdge(s1, 4, 0);
    var s3 := WithEdge(s2, 2, 4);
    var s4 := WithEdge(s3, 1, 3);
    WithEdgeLinks(s, 0, 2, 0, 2);
    WithEdgeLinks(s1, 4, 0, 0, 2);
    WithEdgeLinks(s1, 4, 0, 4, 0);
    WithEdgeLinks(s2, 2, 4, 0, 2);
    WithEdgeLinks(s2, 2, 4, 4, 0);
    WithEdgeLinks(s2, 2, 4, 2, 4);
    WithEdgeLinks(s3, 1, 3, 0, 2);
    WithEdgeLinks(s3, 1, 3, 4, 0);
    WithEdgeLinks(s3, 1, 3, 2, 4);
    WithEdgeLinks(s3, 1, 3, 1, 3);
    forall x | 0 <= x < MultigraphOrder ensures x in s4.nodes {
      AddEdgesNodes(s, x);
    }
    WithEdgePresent(s4, 0, 2);
    WithEdgePresent(s4, 4, 0);
    WithEdgePresent(s4, 2, 4);
    WithEdgePresent(s4, 1, 3);
  }

  /** get_multigraph followed by add_edges: the nodes stay 0..4 and the edges are the
      four fixed ones, so the degrees are those FixedEdgesDegree gives. */
  lemma MultigraphAfterAddEdges()
    ensures AfterAddEdges(Snapshot(Multi, Range(MultigraphOrder), [])).nodes == Range(MultigraphOrder)
    ensures AfterAddEdges(Snapshot(Multi, Range(MultigraphOrder), [])).edges == FixedEdges
  {
    var s := Snapshot(Multi, Range(MultigraphOrder), []);
    InRange(MultigraphOrder);
    AddEdgesOnMultigraph(s);
    assert [] + FixedEdges == FixedEdges;
  }

  // ===========================================================================
  // get_degree

  /** The sum of the table's entries for the nodes `ns`. */
  function Total<N>(table: map<N, nat>, ns: seq<N>): nat
    requires forall i | 0 <= i < |ns| :: ns[i] in table
  {
    if ns == [] then 0 else Total(table, ns[..|ns| - 1]) + table[ns[|ns| - 1]]
  }

  lemma {:induction false} TotalOfDegrees<N>(table: map<N, nat>, edges: seq<(N, N)>, ns: seq<N>)
    requires forall i | 0 <= i < |ns| :: ns[i] in table && table[ns[i]] == Degree(edges, ns[i])
    ensures Total(table, ns) == SumDegrees(edges, ns)
  {
    if ns != [] {
      TotalOfDegrees(table, edges, ns[..|ns| - 1]);
    }
  }

  /** get_degree: a table with one entry per node of the graph, holding the number
      of edge ends at that node; on a well-formed graph the entries add up to twice
      the number of edges. */
  method GetDegree<N(==)>(graph: Graph<N>) returns (result: map<N, nat>)
    ensures forall n :: n in result <==> n in graph.nodes
    ensures forall n | n in result :: result[n] == Degree(graph.edges, n)
    ensures graph.Valid() ==> Total(result, graph.nodes) == 2 * |graph.edges|
  {
    result := map[];
    for i := 0 to |graph.nodes|
      invariant forall n :: n in result <==> n in graph.nodes[..i]
      invariant forall n | n in result :: result[n] == Degree(graph.edges, n)
    {
      var node := graph.nodes[i];
      result := result[node := Degree(graph.edges, node)];
      assert graph.nodes[..i + 1] == graph.nodes[..i] + [node];
    }
    assert graph.nodes[..|graph.nodes|] == graph.nodes;
    if graph.Valid() {
      TotalOfDegrees(result, graph.edges, graph.nodes);
      HandshakeOfGraph(graph.Value());
    }
  }

  // ===========================================================================
  // draw_graph_friends: the lists of friends of members 0 and 33

  const Anchor0: int := 0
  const Anchor33: int := 33

  /** The second endpoints of the edges whose first endpoint is `a`, in enumeration order. */
  function TargetsFrom<N(==)>(edges: seq<(N, N)>, a: N): seq<N>
  {
    if edges == [] then []
    else
      var last := edges[|edges| - 1];
      TargetsFrom(edges[..|edges| - 1], a) + (if last.0 == a then [last.1] else [])
  }

  /** The first endpoints of the edges whose second endpoint is `b`, in enumeration order. */
  function SourcesInto<N(==)>(edges: seq<(N, N)>, b: N): seq<N>
  {
    if edges == [] then []
    else
      var last := edges[|edges| - 1];
      SourcesInto(edges[..|edges| - 1], b) + (if last.1 == b then [last.0] else [])
  }

  /** The other endpoint of every edge at `a`, whichever way round it is enumerated. */
  function Neighbours<N(==)>(edges: seq<(N, N)>, a: N): seq<N>
  {
    if edges == [] then []
    else
      var last := edges[|edges| - 1];
      Neighbours(edges[..|edges| - 1], a)
        + (if last.0 == a then [last.1] else if last.1 == a then [last.0] else [])
  }

  /** The list for an anchor read as first endpoint has one entry per edge leaving it,
      and holds exactly the nodes it has an edge to. */
  lemma {:induction false} TargetsFromSpec<N>(edges: seq<(N, N)>, a: N)
    ensures |TargetsFrom(edges, a)| == OutDegree(edges, a)
    ensures forall x :: x in TargetsFrom(edges, a) <==> (a, x) in edges
  {
    if edges != [] {
      var init := edges[..|edges| - 1];
      TargetsFromSpec(init, a);
      SplitLast(edges);
    }
  }

  /** The list for an anchor read as second endpoint has one entry per edge entering it,
      and holds exactly the nodes with an edge to it. */
  lemma {:induction false} SourcesIntoSpec<N>(edges: seq<(N, N)>, b: N)
    ensures |SourcesInto(edges, b)| == InDegree(edges, b)
    ensures forall x :: x in SourcesInto(edges, b) <==> (x, b) in edges
  {
    if edges != [] {
      var init := edges[..|edges| - 1];
      SourcesIntoSpec(init, b);
      SplitLast(edges);
    }
  }

  /** The anchor-adjacency loop: nodes_0 is 0 followed by the second endpoint of every
      enumerated edge leaving 0, nodes_33 is 33 followed by the first endpoint of every
      enumerated edge entering 33, both in enumeration order. */
  method AnchorPartition(edges: seq<(int, int)>) returns (nodes0: seq<int>, nodes33: seq<int>)
    ensures nodes0 == [Anchor0] + TargetsFrom(edges, Anchor0)
    ensures nodes33 == [Anchor33] + SourcesInto(edges, Anchor33)
    ensures |nodes0| == 1 + OutDegree(edges, Anchor0) && |nodes33| == 1 + InDegree(edges, Anchor33)
    ensures forall x :: x in nodes0[1..] <==> (Anchor0, x) in edges
    ensures forall x :: x in nodes33[1..] <==> (x, Anchor33) in edges
  {
    nodes0 := [Anchor0];
    nodes33 := [Anchor33];
    for i := 0 to |edges|
      invariant nodes0 == [Anchor0] + TargetsFrom(edges[..i], Anchor0)
      invariant nodes33 == [Anchor33] + SourcesInto(edges[..i], Anchor33)
    {
      var edge := edges[i];
      assert edges[..i + 1][..i] == edges[..i];
      if edge.0 == Anchor0 {
        nodes0 := nodes0 + [edge.1];
      }
      if edge.1 == Anchor33 {
        nodes33 := nodes33 + [edge.0];
      }
    }
    assert edges[..|edges|] == edges;
    TargetsFromSpec(edges, Anchor0);
    SourcesIntoSpec(edges, Anchor33);
  }

  /** When the enumeration lists every edge at `a` with `a` first, the list read as
      first endpoint is exactly the neighbour list. */
  lemma {:induction false} TargetsAreNeighbours<N>(edges: seq<(N, N)>, a: N)
    requires forall i | 0 <= i < |edges| :: edges[i].1 == a ==> edges[i].0 == a
    ensures TargetsFrom(edges, a) == Neighbours(edges, a)
  {
    if edges != [] {
      TargetsAreNeighbours(edges[..|edges| - 1], a);
    }
  }

  /** When the enumeration lists every edge at `b` with `b` second, the list read as
      second endpoint is exactly the neighbour list. */
  lemma {:induction false} SourcesAreNeighbours<N>(edges: seq<(N, N)>, b: N)
    requires forall i | 0 <= i < |edges| :: edges[i].0 == b ==> edges[i].1 == b
    ensures SourcesInto(edges, b) == Neighbours(edges, b)
  {
    if edges != [] {
      SourcesAreNeighbours(edges[..|edges| - 1], b);
    }
  }

  /** The anchor test is direction dependent: an edge enumerated as (1, 0) puts 1 on no list
      although 1 is a neighbour of 0, while (0, 1), (2, 33) gives [0, 1] and [33, 2]. */
  lemma AnchorDirectionMatters()
    ensures TargetsFrom([(1, 0)], Anchor0) == [] && Neighbours([(1, 0)], Anchor0) == [1]
    ensures [Anchor0] + TargetsFrom([(0, 1), (2, 33)], Anchor0) == [0, 1]
    ensures [Anchor33] + SourcesInto([(0, 1), (2, 33)], Anchor33) == [33, 2]
  {
    assert [(0, 1), (2, 33)][..1] == [(0, 1)];
  }

  // ===========================================================================
  // draw_graph_split: the members of each club

  const ClubKey := "club"
  const MrHi := "Mr. Hi"
  const Officer := "Officer"

  /** Each node's attribute record. */
  type Attributes<N> = map<N, map<string, string>>

  /** Whether looking up the node's 'club' attribute succeeds. */
  predicate HasClub<N>(attrs: Attributes<N>, n: N)
  {
    n in attrs && ClubKey in attrs[n]
  }

  /** Either the two club lists, or the first node whose 'club' lookup fails. */
  datatype Split<N> = Split(hi: seq<N>, officer: seq<N>) | MissingClub(node: N)

  /** The nodes whose club is `club`, in node order. */
  function Members<N>(nodes: seq<N>, attrs: Attributes<N>, club: string): seq<N>
    requires forall i | 0 <= i < |nodes| :: HasClub(attrs, nodes[i])
  {
    if nodes == [] then []
    else
      var last := nodes[|nodes| - 1];
      assert HasClub(attrs, last);
      Members(nodes[..|nodes| - 1], attrs, club) + (if attrs[last][ClubKey] == club then [last] else [])
  }

  /** The positions in `nodes` of the members of `club`. */
  function MemberPositions<N>(nodes: seq<N>, attrs: Attributes<N>, club: string): seq<nat>
    requires forall i | 0 <= i < |nodes| :: HasClub(attrs, nodes[i])
  {
    if nodes == [] then []
    else
      var last := nodes[|nodes| - 1];
      assert HasClub(attrs, last);
      MemberPositions(nodes[..|nodes| - 1], attrs, club)
        + (if attrs[last][ClubKey] == club then [|nodes| - 1] else [])
  }

  /** A club list holds exactly the nodes with that club. */
  lemma {:induction false} MembersMembership<N>(nodes: seq<N>, attrs: Attributes<N>, club: string, x: N)
    requires forall i | 0 <= i < |nodes| :: HasClub(attrs, nodes[i])
    ensures x in Members(nodes, attrs, club) <==> x in nodes && HasClub(attrs, x) && attrs[x][ClubKey] == club
  {
    if nodes != [] {
      var init, last := nodes[..|nodes| - 1], nodes[|nodes| - 1];
      MembersMembership(init, attrs, club, x);
      SplitLast(nodes);
      assert x in nodes <==> x in init || x == last;
    }
  }

  /** A club list is in node order: its k-th entry sits at position p[k] of `nodes`,
      and the positions strictly increase. */
  lemma {:induction false} MembersInOrder<N>(nodes: seq<N>, attrs: Attributes<N>, club: string)
    requires forall i | 0 <= i < |nodes| :: HasClub(attrs, nodes[i])
    ensures |MemberPositions(nodes, attrs, club)| == |Members(nodes, attrs, club)|
    ensures forall k | 0 <= k < |MemberPositions(nodes, attrs, club)| ::
      MemberPositions(nodes, attrs, club)[k] < |nodes|
      && nodes[MemberPositions(nodes, attrs, club)[k]] == Members(nodes, attrs, club)[k]
    ensures forall k, l | 0 <= k < l < |MemberPositions(nodes, attrs, club)| ::
      MemberPositions(nodes, attrs, club)[k] < MemberPositions(nodes, attrs, club)[l]
  {
    if nodes != [] {
      var init := nodes[..|nodes| - 1];
      MembersInOrder(init, attrs, club);
      var p0, m0 := MemberPositions(init, attrs, club), Members(init, attrs, club);
      var p, m := MemberPositions(nodes, attrs, club), Members(nodes, attrs, club);
      assert forall k | 0 <= k < |p0| :: p[k] == p0[k] && m[k] == m0[k] && nodes[p0[k]] == init[p0[k]];
    }
  }

  /** No node is in both club lists, so together they are no longer than the node list. */
  lemma {:induction false} ClubsDisjoint<N>(nodes: seq<N>, attrs: Attributes<N>)
    requires forall i | 0 <= i < |nodes| :: HasClub(attrs, nodes[i])
    ensures forall x :: !(x in Members(nodes, attrs, MrHi) && x in Members(nodes, attrs, Officer))
    ensures |Members(nodes, attrs, MrHi)| + |Members(nodes, attrs, Officer)| <= |nodes|
  {
    forall x
      ensures !(x in Members(nodes, attrs, MrHi) && x in Members(nodes, attrs, Officer))
    {
      MembersMembership(nodes, attrs, MrHi, x);
      MembersMembership(nodes, attrs, Officer, x);
    }
    if nodes != [] {
      ClubsDisjoint(nodes[..|nodes| - 1], attrs);
    }
  }

  /** The club loop: a node goes to list_hi exactly when its club is 'Mr. Hi' and to
      list_of exactly when it is 'Officer', in node order; the first node without a
      'club' attribute stops the loop with a lookup failure. */
  method ClubPartition<N(==)>(nodes: seq<N>, attrs: Attributes<N>) returns (r: Split<N>)
    ensures r.MissingClub? <==> exists i | 0 <= i < |nodes| :: !HasClub(attrs, nodes[i])
    ensures r.MissingClub? ==> exists i | 0 <= i < |nodes| ::
      nodes[i] == r.node && !HasClub(attrs, nodes[i]) && forall j | 0 <= j < i :: HasClub(attrs, nodes[j])
    ensures r.Split? ==> r.hi == Members(nodes, attrs, MrHi) && r.officer == Members(nodes, attrs, Officer)
  {
    var listHi, listOf := [], [];
    for i := 0 to |nodes|
      invariant forall j | 0 <= j < i :: HasClub(attrs, nodes[j])
      invariant listHi == Members(nodes[..i], attrs, MrHi)
      invariant listOf == Members(nodes[..i], attrs, Officer)
    {
      var node := nodes[i];
      if !HasClub(attrs, node) {
        return MissingClub(node);
      }
      assert nodes[..i + 1][..i] == nodes[..i];
      if attrs[node][ClubKey] == MrHi {
        listHi := listHi + [node];
      }
      if attrs[node][ClubKey] == Officer {
        listOf := listOf + [node];
      }
    }
    assert nodes[..|nodes|] == nodes;
    return Split(listHi, listOf);
  }

  // ===========================================================================
  // create_digraph

  /** A dictionary from a member to the list of their friends, in insertion order. */
  type FriendLists<K> = seq<(K, seq<K>)>

  /** The dictionary's keys, in its iteration order. */
  function Keys<K>(d: FriendLists<K>): seq<K>
  {
    seq(|d|, i requires 0 <= i < |d| => d[i].0)
  }

  /** `fof in ids2ids` holds exactly for the keys that own an entry. */
  lemma KeysSpec<K>(d: FriendLists<K>, k: K)
    ensures k in Keys(d) <==> exists i | 0 <= i < |d| :: d[i].0 == k
  {
    if exists i | 0 <= i < |d| :: d[i].0 == k {
      var i :| 0 <= i < |d| && d[i].0 == k;
      assert Keys(d)[i] == k;
    }
  }

  /** The pairs (id, fof) for the friends fof of id that are keys, in list order. */
  function Kept<K(==)>(id: K, friends: seq<K>, keys: seq<K>): seq<(K, K)>
  {
    if friends == [] then []
    else
      var fof := friends[|friends| - 1];
      Kept(id, friends[..|friends| - 1], keys) + (if fof in keys then [(id, fof)] else [])
  }

  /** The edges the nested loops add, in the order they add them. */
  function Candidates<K(==)>(entries: FriendLists<K>, keys: seq<K>): seq<(K, K)>
  {
    if entries == [] then []
    else
      var last := entries[|entries| - 1];
      Candidates(entries[..|entries| - 1], keys) + Kept(last.0, last.1, keys)
  }

  /** The digraph create_digraph builds. */
  function FriendGraph<K(==)>(d: FriendLists<K>, startNode: K): Snapshot<K>
  {
    WithEdges(Snapshot(Directed, [startNode], []), Candidates(d, Keys(d)))
  }

  /** Whether some entry of the dictionary has key a and lists b as a friend. */
  predicate Listed<K(==)>(entries: FriendLists<K>, a: K, b: K)
  {
    exists i | 0 <= i < |entries| :: entries[i].0 == a && b in entries[i].1
  }

  lemma ListedSnoc<K>(entries: FriendLists<K>, a: K, b: K)
    requires entries != []
    ensures Listed(entries, a, b) <==>
      Listed(entries[..|entries| - 1], a, b)
      || (entries[|entries| - 1].0 == a && b in entries[|entries| - 1].1)
  {
    var init := entries[..|entries| - 1];
    if Listed(entries, a, b) {
      var i :| 0 <= i < |entries| && entries[i].0 == a && b in entries[i].1;
      if i < |init| {
        assert init[i] == entries[i];
      }
    }
    if Listed(init, a, b) {
      var i :| 0 <= i < |init| && init[i].0 == a && b in init[i].1;
      assert entries[i] == init[i];
    }
  }

  lemma KeptSnoc<K>(id: K, friends: seq<K>, j: nat, keys: seq<K>)
    requires j < |friends|
    ensures friends[j] in keys ==> Kept(id, friends[..j + 1], keys) == Kept(id, friends[..j], keys) + [(id, friends[j])]
    ensures friends[j] !in keys ==> Kept(id, friends[..j + 1], keys) == Kept(id, friends[..j], keys)
  {
    assert friends[..j + 1][..j] == friends[..j];
    assert Kept(id, friends[..j], keys) + [] == Kept(id, friends[..j], keys);
  }

  lemma CandidatesSnoc<K>(entries: FriendLists<K>, i: nat, keys: seq<K>)
    requires i < |entries|
    ensures Candidates(entries[..i + 1], keys)
      == Candidates(entries[..i], keys) + Kept(entries[i].0, entries[i].1, keys)
  {
    assert entries[..i + 1][..i] == entries[..i];
  }

  /** id's kept pairs are exactly (id, b) for the friends b of id that are keys. */
  lemma {:induction false} KeptSpec<K>(id: K, friends: seq<K>, keys: seq<K>, a: K, b: K)
    ensures (a, b) in Kept(id, friends, keys) <==> a == id && b in friends && b in keys
  {
    if friends != [] {
      KeptSpec(id, friends[..|friends| - 1], keys, a, b);
      SplitLast(friends);
    }
  }

  /** The loops add the edge a -> b exactly when b is on a's friend list and is a key. */
  lemma {:induction false} CandidatesSpec<K>(entries: FriendLists<K>, keys: seq<K>, a: K, b: K)
    ensures (a, b) in Candidates(entries, keys) <==> Listed(entries, a, b) && b in keys
  {
    if entries != [] {
      var init, last := entries[..|entries| - 1], entries[|entries| - 1];
      CandidatesSpec(init, keys, a, b);
      KeptSpec(last.0, last.1, keys, a, b);
      ListedSnoc(entries, a, b);
    }
  }

  lemma DirectedHasEdge<N>(es: seq<(N, N)>, a: N, b: N)
    ensures HasEdge(Directed, es, a, b) <==> (a, b) in es
  {
    if (a, b) in es {
      var i :| 0 <= i < |es| && es[i] == (a, b);
      assert Links(Directed, es[i], a, b);
    }
  }

  lemma SameEdgesTouchSame<N>(e1: seq<(N, N)>, e2: seq<(N, N)>, x: N)
    requires forall a, b :: (a, b) in e1 ==> (a, b) in e2
    ensures Touches(e1, x) ==> Touches(e2, x)
  {
    if Touches(e1, x) {
      var i :| 0 <= i < |e1| && (e1[i].0 == x || e1[i].1 == x);
      assert e1[i] in e2;
      var j :| 0 <= j < |e2| && e2[j] == e1[i];
    }
  }

  /** create_digraph: start_node is always the first node; an edge a -> b exists
      exactly when b is on a's friend list and b is itself a key, so both ends are
      keys; every node is start_node or an edge endpoint; and no edge occurs twice,
      however often a friend is repeated. */
  lemma FriendGraphSpec<K>(d: FriendLists<K>, startNode: K)
    ensures WellFormed(FriendGraph(d, startNode)) && FriendGraph(d, startNode).kind == Directed
    ensures Distinct(FriendGraph(d, startNode).edges)
    ensures |FriendGraph(d, startNode).nodes| > 0 && FriendGraph(d, startNode).nodes[0] == startNode
    ensures forall a, b :: (a, b) in FriendGraph(d, startNode).edges <==> Listed(d, a, b) && b in Keys(d)
    ensures forall a, b :: (a, b) in FriendGraph(d, startNode).edges ==> a in Keys(d) && b in Keys(d)
    ensures forall x :: x in FriendGraph(d, startNode).nodes <==>
      x == startNode || Touches(FriendGraph(d, startNode).edges, x)
  {
    var s := Snapshot(Directed, [startNode], []);
    var cs := Candidates(d, Keys(d));
    var g := FriendGraph(d, startNode);
    WithEdgesWellFormed(s, cs);
    WithEdgesGrows(s, cs);
    forall a, b ensures (a, b) in g.edges <==> (a, b) in cs
    {
      WithEdgesLinks(s, cs, a, b);
      DirectedHasEdge(g.edges, a, b);
      DirectedHasEdge(cs, a, b);
      DirectedHasEdge(s.edges, a, b);
    }
    forall a, b ensures (a, b) in g.edges <==> Listed(d, a, b) && b in Keys(d)
    {
      CandidatesSpec(d, Keys(d), a, b);
    }
    forall a, b | (a, b) in g.edges ensures a in Keys(d)
    {
      var i :| 0 <= i < |d| && d[i].0 == a && b in d[i].1;
      KeysSpec(d, a);
    }
    forall x ensures x in g.nodes <==> x == startNode || Touches(g.edges, x)
    {
      WithEdgesNodes(s, cs, x);
      SameEdgesTouchSame(g.edges, cs, x);
      SameEdgesTouchSame(cs, g.edges, x);
    }
    DirectedSimple(g.edges);
  }

  /** The inner loop of create_digraph: for each friend fof of id, in list order, the
      edge id -> fof is added when fof is a key. */
  method AddKept<K(==)>(dg: Graph<K>, id: K, friends: seq<K>, keys: seq<K>)
    requires dg.Valid()
    modifies dg
    ensures dg.Valid() && dg.Value() == WithEdges(old(dg.Value()), Kept(id, friends, keys))
  {
    ghost var t := dg.Value();
    assert friends[..0] == [];
    for j := 0 to |friends|
      invariant dg.Valid() && dg.Value() == WithEdges(t, Kept(id, friends[..j], keys))
    {
      var fof := friends[j];
      KeptSnoc(id, friends, j, keys);
      if fof in keys {
        WithEdgesSnoc(t, Kept(id, friends[..j], keys), (id, fof));
        dg.AddEdge(id, fof);
      }
    }
    assert friends[..|friends|] == friends;
  }

  /** create_digraph: a fresh digraph holding start_node and every edge id -> fof for
      a friend fof of id that is itself a key, added in iteration order. */
  method CreateDigraph<K(==)>(ids2ids: FriendLists<K>, startNode: K) returns (dg: Graph<K>)
    ensures fresh(dg) && dg.Valid()
    ensures dg.Value() == FriendGraph(ids2ids, startNode)
  {
    dg := new Graph(Directed);
    dg.AddNode(startNode);
    ghost var s := dg.Value();
    assert s == Snapshot(Directed, [startNode], []);
    var keys := Keys(ids2ids);
    for i := 0 to |ids2ids|
      invariant dg.Valid() && dg.Value() == WithEdges(s, Candidates(ids2ids[..i], keys))
    {
      AddKept(dg, ids2ids[i].0, ids2ids[i].1, keys);
      WithEdgesConcat(s, Candidates(ids2ids[..i], keys), Kept(ids2ids[i].0, ids2ids[i].1, keys));
      CandidatesSnoc(ids2ids, i, keys);
    }
    assert ids2ids[..|ids2ids|] == ids2ids;
  }

  /** The friend lists {A: [B, C], B: [A]} from start A: C is pruned, since it has no
      list of its own, and both A -> B and B -> A are kept. */
  lemma FriendGraphExample()
    ensures FriendGraph([("A", ["B", "C"]), ("B", ["A"])], "A")
      == Snapshot(Directed, ["A", "B"], [("A", "B"), ("B", "A")])
  {
    ExampleCandidates();
    ExampleEdges();
  }

  lemma ExampleCandidates()
    ensures Candidates([("A", ["B", "C"]), ("B", ["A"])], Keys([("A", ["B", "C"]), ("B", ["A"])]))
      == [("A", "B"), ("B", "A")]
  {
    var d := [("A", ["B", "C"]), ("B", ["A"])];
    var keys := ["A", "B"];
    assert Keys(d) == keys;
    assert "C" != "A" && "C" != "B" by {
      assert "C"[0] != "A"[0] && "C"[0] != "B"[0];
    }
    assert "A" in keys && "B" in keys && "C" !in keys;
    KeptSnoc("A", ["B", "C"], 0, keys);
    KeptSnoc("A", ["B", "C"], 1, keys);
    assert ["B", "C"][..0] == [] && ["B", "C"][..2] == ["B", "C"];
    assert Kept("A", ["B", "C"], keys) == [("A", "B")];
    KeptSnoc("B", ["A"], 0, keys);
    assert ["A"][..0] == [] && ["A"][..1] == ["A"];
    assert Kept("B", ["A"], keys) == [("B", "A")];
    CandidatesSnoc(d, 0, keys);
    CandidatesSnoc(d, 1, keys);
    assert d[..0] == [] && d[..2] == d;
  }

  lemma ExampleEdges()
    ensures WithEdges(Snapshot(Directed, ["A"], []), [("A", "B"), ("B", "A")])
      == Snapshot(Directed, ["A", "B"], [("A", "B"), ("B", "A")])
  {
    var s := Snapshot(Directed, ["A"], []);
    var cs := [("A", "B"), ("B", "A")];
    WithEdgesSnoc(s, [], ("A", "B"));
    WithEdgesSnoc(s, [("A", "B")], ("B", "A"));
    assert [] + [("A", "B")] == [("A", "B")] && [("A", "B")] + [("B", "A")] == cs;
    ExampleFirstEdge();
    ExampleSecondEdge();
  }

  lemma ExampleFirstEdge()
    ensures WithEdge(Snapshot(Directed, ["A"], []), "A", "B") == Snapshot(Directed, ["A", "B"], [("A", "B")])
  {
    assert "A" != "B" by {
      assert "A"[0] != "B"[0];
    }
  }

  lemma ExampleSecondEdge()
    ensures WithEdge(Snapshot(Directed, ["A", "B"], [("A", "B")]), "B", "A")
      == Snapshot(Directed, ["A", "B"], [("A", "B"), ("B", "A")])
  {
    assert "A" != "B" by {
      assert "A"[0] != "B"[0];
    }
    assert !HasEdge(Directed, [("A", "B")], "B", "A");
  }
}
