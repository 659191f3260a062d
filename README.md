# Network-analysis helpers: graph construction and partitioning

This project models the parts of `helper.py` that have logic of their own. Those
helpers build and classify small teaching graphs:

- `get_circular_dg` builds the parity digraph: nodes 0..19 and an edge i -> i + 1 for every even i.
- `get_multigraph` builds a multigraph on the five isolated nodes 0..4.
- `add_edges` adds the four fixed edges (0, 2), (4, 0), (2, 4), (1, 3) to the graph it receives, in place.
- `get_degree` builds a node -> degree table.
- The loop inside `draw_graph_friends` reads the edge enumeration and collects two lists: 0 followed by the second endpoint of each edge enumerated from 0, and 33 followed by the first endpoint of each edge enumerated into 33.
- The loop inside `draw_graph_split` splits the members by their `'club'` attribute into `'Mr. Hi'` and `'Officer'`.
- `create_digraph` grows the friend-of-friend digraph from a dictionary of friend lists. It keeps an edge only when its target also has a list.

`graphs.dfy` (module `Graphs`) fixes the behaviour of the graph library that these helpers call:

- A graph is a `Snapshot`: a kind (directed, undirected simple, or multigraph), its nodes and its edges. The nodes are a sequence in the graph's iteration order, which the model takes to be the order of insertion. The edges are a sequence in the order they were first inserted; this is not the order in which the library enumerates them.
- Adding an edge first adds each missing endpoint, u before v.
- A directed graph keeps one edge u -> v and an undirected simple graph one edge {u, v}. A multigraph keeps every parallel edge.
- A node's degree is the number of edge ends at it. A self-loop counts twice. For a digraph this is in-degree plus out-degree.

`Graphs.Graph` is the mutable graph object. Each of its methods (`AddNode`, `AddNodesFrom`, `AddEdge`, `AddEdgesFrom`) is proved to perform one pure operation on `Snapshot` (`WithNode`, `WithNodes`, `WithEdge`, `WithEdges`). It also keeps the invariant `Valid`:

- nodes are distinct;
- every edge endpoint is a node;
- a simple graph has no duplicate edges.

`helper.dfy` (module `Helper`) holds the helpers. `get_circular_dg`, `get_multigraph`, `add_edges`, `get_degree`, the two partition loops and `create_digraph` are methods, and each is proved against a specification function. The properties the source promises are lemmas about those functions.

A Python dictionary is a sequence of (key, value) pairs in the dictionary's iteration order. The club attributes are a `map` from node to attribute record. A failed `'club'` lookup (a `KeyError` in Python) is the result `MissingClub(node)`, naming the first node in iteration order whose lookup fails.

Two consequences of the code are worth spelling out:

- **The parity digraph for odd n.** The comprehension over `range(dg.order())` takes every even index, so for an odd order n it would also yield (n - 1, n), and adding that edge would create node n. `ParityEdgesSpec` proves there are (n + 1) / 2 pairs and `ParityEdgesEndpoints` exhibits (n - 1, n). `get_circular_dg` fixes the order at 20, so this never happens there (`ParityEdgesFit`).
- **Friends in both directions.** From {A: [B, C], B: [A]} and start A the code adds both A -> B and B -> A, and prunes C, which has no list of its own (`FriendGraphExample`).

## Model

| member | source | states |
|---|---|---|
| Graphs.Graph.constructor | helper.py:20 | a new graph of the given kind is empty and valid |
| Graphs.Graph.AddNode | helper.py:230 | adding a node appends it only when it is missing; edges and kind are untouched; validity is kept |
| Graphs.Graph.AddNodesFrom | helper.py:21 | adding a node sequence in place performs `WithNodes` on the old graph and keeps validity |
| Graphs.Graph.AddEdge | helper.py:99 | adding an edge in place performs `WithEdge`: the missing endpoints are created, a simple graph ignores an edge it already has, a multigraph appends; validity is kept |
| Graphs.Graph.AddEdgesFrom | helper.py:23 | adding an edge sequence in place performs `WithEdges` on the old graph and keeps validity |
| Graphs.WithNodesSpec | helper.py:21 | after adding nodes: still well formed, edges unchanged, old nodes kept as a prefix, a node is present iff it was already or was added |
| Graphs.WithNodesAppends | helper.py:21 | adding pairwise-distinct new nodes appends them in order |
| Graphs.WithEdgeSpec | helper.py:99 | one edge addition keeps the graph well formed and of its kind. Exactly u and v may be new nodes. The joined pairs afterwards are the old ones plus those (u, v) joins. A multigraph gains exactly (u, v) |
| Graphs.WithEdgesSpec | helper.py:23 | after adding a sequence of edges: well formed, old nodes a prefix, a node is present iff it was already or is an endpoint, a pair is joined iff it was already or some added edge joins it |
| Graphs.WithEdgesAppends | helper.py:23 | edges whose endpoints exist and that repeat no joined pair are appended as they are, nodes unchanged |
| Graphs.WithEdgesPresent | helper.py:99-102 | on a simple graph, re-adding edges that are all present between existing nodes changes nothing |
| Graphs.WithEdgesConcat | helper.py:232-235 | adding a + b edge by edge is adding a and then b |
| Graphs.DirectedSimple | helper.py:235 | in a digraph, having no repeated joined pair is the same as having no repeated edge |
| Graphs.DegreesOfConcat | helper.py:143 | out-, in- and total degree over a concatenation of edge lists are the sums of the parts |
| Graphs.SumOfDegrees | helper.py:143 | handshake: when the nodes are distinct and hold every endpoint, the degrees sum to twice the edge count |
| Graphs.HandshakeOfGraph | helper.py:143 | in every well-formed graph the degrees of its nodes sum to twice its edge count |
| Helper.Range | helper.py:21 | `range(n)` is n distinct integers, the i-th being i |
| Helper.InRange | helper.py:21 | x is in `range(n)` iff 0 <= x < n |
| Helper.ParityEdgesSpec | helper.py:22 | the comprehension yields (n + 1) / 2 distinct pairs, and (a, b) is one of them iff 0 <= a < n, a is even and b = a + 1 |
| Helper.ParityEdgesEndpoints | helper.py:22 | for even n every endpoint lies in 0..n-1; for odd n the pair (n - 1, n) is produced |
| Helper.ParityEdgesShape | helper.py:22 | for even n there are n / 2 pairs and the k-th is (2k, 2k + 1); for n = 20, ten pairs (0, 1) .. (18, 19) |
| Helper.ParityDegrees | helper.py:22-23 | every even node below n has out-degree 1 and in-degree 0, every odd one in-degree 1 and out-degree 0 |
| Helper.ParityEdgesFit | helper.py:21-23 | for even n, adding the parity edges to the digraph on 0..n-1 creates no node and drops no edge |
| Helper.GetCircularDg | helper.py:20-25 | the result is a fresh valid digraph whose nodes are exactly 0..19 in order and whose edges are exactly the comprehension's pairs in order |
| Helper.GetMultigraph | helper.py:61-64 | the result is a fresh valid multigraph on the nodes 0..4 with no edges |
| Helper.AddEdges | helper.py:99-104 | the graph passed in is changed in place to `AfterAddEdges` of its old value, stays valid, and is itself returned |
| Helper.AddEdgesNodes | helper.py:99-102 | after add_edges a node is present iff it was already or is one of 0..4 |
| Helper.AddEdgesKeepsNodes | helper.py:99-102 | add_edges keeps the old node list as a prefix |
| Helper.AddEdgesWellFormed | helper.py:99-102 | add_edges keeps any well-formed graph well formed and of its kind |
| Helper.AddEdgesOnMultigraph | helper.py:99-102 | on a multigraph add_edges appends exactly (0, 2), (4, 0), (2, 4), (1, 3); when 0..4 already exist the node list is unchanged |
| Helper.FixedEdgesDegree | helper.py:99-102 | the four fixed edges give nodes 0, 2, 4 degree 2, nodes 1, 3 degree 1 and every other node 0 |
| Helper.AddEdgesDegrees | helper.py:99-102 | on a multigraph add_edges raises each degree by exactly that amount |
| Helper.AddEdgesTwiceOnMultigraph | helper.py:99-102 | add_edges is not idempotent on a multigraph: a second call adds four more edges (eight in all), raises the degrees a second time, and gives a different graph |
| Helper.AddEdgesTwiceOnSimpleGraph | helper.py:99-102 | on a digraph or undirected simple graph a second add_edges changes nothing |
| Graphs.WithEdgePresent | helper.py:99 | on a simple graph, adding an edge that is present between existing nodes changes nothing |
| Helper.MultigraphAfterAddEdges | helper.py:99-102 | get_multigraph then add_edges: nodes stay exactly 0..4 and the edges are exactly the four fixed ones |
| Helper.TotalOfDegrees | helper.py:140-145 | a table holding each node's degree adds up to the sum of the degrees |
| Helper.GetDegree | helper.py:140-145 | the table's keys are exactly the graph's nodes, each value is that node's degree, and on a valid graph the values sum to twice the edge count |
| Helper.TargetsFromSpec | helper.py:167-169 | the list read as first endpoint has one entry per edge leaving the anchor and holds exactly the nodes it has an edge to |
| Helper.SourcesIntoSpec | helper.py:170-171 | the list read as second endpoint has one entry per edge entering the anchor and holds exactly the nodes with an edge to it |
| Helper.AnchorPartition | helper.py:164-171 | nodes_0 is 0 followed by the second endpoints of the edges whose first endpoint is 0, and nodes_33 is 33 followed by the first endpoints of the edges whose second endpoint is 33. Both keep enumeration order, with lengths 1 + out-degree of 0 and 1 + in-degree of 33 |
| Helper.TargetsAreNeighbours | helper.py:168-169 | when every edge at the anchor is enumerated with the anchor first, the first-endpoint list is exactly its neighbour list |
| Helper.SourcesAreNeighbours | helper.py:170-171 | when every edge at the anchor is enumerated with the anchor second, the second-endpoint list is exactly its neighbour list |
| Helper.AnchorDirectionMatters | helper.py:168-171 | an edge enumerated as (1, 0) puts 1 on no list although 1 is a neighbour of 0; (0, 1), (2, 33) gives [0, 1] and [33, 2] |
| Helper.MembersMembership | helper.py:204-208 | a node is in a club list iff it is a node whose club is that club |
| Helper.MembersInOrder | helper.py:204-208 | each club list is in node order: its k-th entry sits at a strictly increasing position of the node sequence |
| Helper.ClubsDisjoint | helper.py:205-208 | no node is on both lists, so together they are no longer than the node sequence |
| Helper.ClubPartition | helper.py:201-208 | the loop fails iff some node has no 'club' entry, and then names the first such node; otherwise list_hi and list_of are the 'Mr. Hi' and 'Officer' members in node order |
| Helper.KeysSpec | helper.py:234 | `fof in ids2ids` holds exactly when some entry of the dictionary has the key fof |
| Helper.KeptSpec | helper.py:233-235 | (a, b) is kept for id iff a is id, b is a friend of id and b is a key |
| Helper.CandidatesSpec | helper.py:232-235 | the loops propose a -> b iff some entry has key a and lists b, and b is a key |
| Helper.FriendGraphSpec | helper.py:229-237 | the digraph is well formed, start_node is its first node, and a -> b is an edge iff b is on a's list and b is a key, so both ends are keys. No edge is repeated, however often a friend is. A node is present iff it is start_node or an edge endpoint |
| Helper.AddKept | helper.py:233-235 | the inner loop adds, in list order, the edge id -> fof for every friend fof that is a key |
| Helper.CreateDigraph | helper.py:229-237 | the result is a fresh valid digraph equal to `FriendGraph` of the dictionary and start node |
| Helper.FriendGraphExample | helper.py:229-237 | {A: [B, C], B: [A]} from A gives nodes [A, B] and edges [A -> B, B -> A]: C is pruned, both directions are kept |

## Left out

- Drawing is not modelled: `draw_circular_dg`, `draw_multigraph`, `draw_graph`, `draw_social_graph`, and the plotting calls inside `draw_graph_friends` and `draw_graph_split`. It is rendering through matplotlib, seaborn and networkx.
- `nx.spring_layout` is not modelled. It is a randomised floating-point layout.
- The order in which the graph library enumerates edges is not modelled, for any kind of graph. The edge sequence of a `Snapshot` is insertion order, so the edge lists stated by `GetCircularDg`, `CreateDigraph`, `FriendGraphExample`, `AddEdgesOnMultigraph`, `MultigraphAfterAddEdges` and `WithEdgesAppends` are in insertion order, not in enumeration order. The edge sets, the edge multiplicities and the degrees do not depend on this order. The anchor loop takes the enumeration as an input sequence, and `TargetsAreNeighbours` and `SourcesAreNeighbours` state what follows when it lists the anchor first or second.
- The graph library itself is fixed by the assumptions above, not derived: node and edge storage, deduplication, and degree. Its internal dictionaries and its other operations are not part of this model.
- Zachary's Karate Club data set and the network fetch that produces the friend lists for `create_digraph` are not modelled. Both are inputs from outside the code.
- The node-attribute view `graph.node[node]` is a map from node to attribute record. The library's storage of attributes is not modelled.
- `create_digraph`'s default `start_node` value ('348785149') is not modelled. The start node is always an explicit parameter.
- Node order: the graph library and the Python dictionaries of this code (written against the networkx 1.x interface, `nodes_iter` and `graph.node`) are not assumed to iterate in insertion order, but the model does assume it. The results that depend on order rest on that assumption: `FriendGraphSpec`'s "start_node is the first node", the node order in `GetCircularDg`, `GetMultigraph`, `WithNodesAppends` and `AddEdgesKeepsNodes`, and the order of the club lists (`MembersInOrder`). The anchor lists follow the edge enumeration, which is an input. The set of nodes, the set of edges, the degrees and the list memberships do not depend on it.
