# Graph: a Dafny model of `Graph` in tdd_code.cpp

This project models the graph class of a small C++ test-driven-development exercise.
A `Graph` keeps two vectors. `nodeList` holds nodes, each with an id and a colour.
`edgeList` holds edges, each an ordered pair of node ids `(a, b)`. Every operation is a
linear scan over those vectors:

- `addNode` and `getNode` add or look up a node.
- `addEdge` and `addMultipleEdges` add edges, creating missing endpoints as they go.
- `containsEdge`, `removeNode`, `removeEdge`, `nodeCount`, `edgeCount`, `nodeDegree`
  and `graphDegree` query, remove, count and measure.
- `coloring` hands out colours round-robin, and `clear` empties the graph.

Two modules:

- `GraphModel` (graph_model.dfy) holds the values and the graph invariant. The values
  are `NodeRec(id, color)`, `Edge(a, b)`, `Option` for a null pointer and `Result` for
  a thrown `std::out_of_range` with its message. `WellFormed` is the invariant: unique
  node ids, every edge endpoint a present node, no self-loops and no duplicate edges.
  The module also holds the specification functions: the filters that `removeNode` and
  `removeEdge` build, the degree counted by `nodeDegree`'s nested loop, `graphDegree`'s
  scan and `coloring`'s colour sequence. The lemmas about them are here too.
- `Graphs` (graph.dfy) holds `class Graph`. Its fields `nodeList: seq<NodeRec>` and
  `edgeList: seq<Edge>` are reassigned by the methods, with the same loops, early
  returns and order of checks as the C++.

No method requires the invariant, because the C++ works on any state. Every mutator
ensures `old(Valid()) ==> Valid()`.

Assumptions about code that is not part of this model:

- The `Edge` struct and its `operator==` / `operator!=` live in tdd_code.h, which is
  not part of this model. Edge equality is taken to be structural on `(a, b)`, so
  `(1, 2)` and `(2, 1)` are different edges here. If the header compares edges without
  regard to direction, "duplicate edge" means more in the C++ than in this model.
- The `Node` struct is also declared in tdd_code.h. Its id is taken to be a `size_t`
  (modelled as `nat`) and its colour an `int` (modelled as `int`). The `size_t` id is
  consistent with `nodeDegree(size_t)` and `getNode(size_t)` in tdd_code.cpp. The `int`
  colour is consistent with `coloring` assigning its `int` counter to `node->color`.
- `new Node{nodeId}` is taken to value-initialise the colour to 0 (`InitialColor`).

## Model

| member | source | states |
|---|---|---|
| `Graphs.Graph.constructor` | tdd_code.cpp:19 | a new graph has no nodes and no edges and satisfies the invariant |
| `Graphs.Graph.AddNode` | tdd_code.cpp:37-51 | a taken id returns None (nullptr) and changes nothing; a new id appends exactly one node with that id and colour 0, returns it, and grows the node count by 1; the edges are untouched; the invariant is kept |
| `Graphs.Graph.GetNode` | tdd_code.cpp:79-87 | returns None exactly when no node has the id; otherwise the first node in the list with that id |
| `Graphs.Graph.ContainsEdge` | tdd_code.cpp:89-97 | true exactly when an equal edge is in the edge list |
| `Graphs.Graph.AddEdge` | tdd_code.cpp:53-71 | returns true exactly when the edge is new and not a self-loop; when it returns false nothing changes; when it returns true both endpoints are present nodes, old nodes are kept in order, and the edge is appended; the invariant is kept |
| `Graphs.Graph.AddMultipleEdges` | tdd_code.cpp:73-77 | the state is addEdge applied to each edge in turn; afterwards every non-loop edge of the batch is in the graph; the invariant is kept |
| `Graphs.Graph.RemoveNode` | tdd_code.cpp:99-126 | an absent id throws "Node is not found" and changes nothing; otherwise the node and every edge touching it go, the rest stay in order; the edge count drops by the node's incident-edge count and, under the invariant, the node count drops by 1; the invariant is kept |
| `Graphs.Graph.RemoveEdge` | tdd_code.cpp:128-143 | an edge that is not contained throws "Edge is not found" and changes nothing; otherwise every equal edge goes, the rest stay in order, and under the invariant the edge count drops by exactly 1; nodes are untouched |
| `Graphs.Graph.NodeCount` | tdd_code.cpp:145-148 | the node list's length, which under the invariant is the number of distinct node ids |
| `Graphs.Graph.EdgeCount` | tdd_code.cpp:150-153 | the edge list's length, which under the invariant is the number of distinct edges |
| `Graphs.Graph.NodeDegree` | tdd_code.cpp:155-172 | the nested loop's total, and an out_of_range throw when it is 0; under the invariant it succeeds exactly when the node exists and touches an edge, and then returns the number of edges incident to it |
| `Graphs.Graph.GraphDegree` | tdd_code.cpp:174-184 | throws exactly when some node has degree 0; otherwise returns the maximum node degree, which is 0 when there are no nodes and is reached by some node otherwise |
| `Graphs.Graph.Coloring` | tdd_code.cpp:186-198 | when graphDegree throws, the same exception with no change; otherwise node k gets colour `ColorAt(k, graphDegree()+1)` and keeps its id, every colour lies in 1 .. graphDegree()+1, and edges are untouched |
| `Graphs.Graph.Recolor` | tdd_code.cpp:190-197 | coloring's loop on its own: node k gets `ColorAt(k, maxColor)` and keeps its id, the node count and the edges are unchanged, every colour lies in 1 .. maxColor when maxColor is at least 2, and the invariant is kept |
| `Graphs.Graph.Clear` | tdd_code.cpp:200-207 | both lists are empty afterwards, so both counts are 0, and the invariant holds |
| `GraphModel.WithNode` | tdd_code.cpp:39-49 | the node list after addNode(id): the old list is a prefix of it, it grows by exactly one node unless the id was already present, and otherwise it is unchanged |
| `GraphModel.WithNodeGrows` | tdd_code.cpp:37-51 | after adding a node the id is present, every previously present id stays present, and the old list is a prefix of the new one |
| `GraphModel.AddNodePreserves` | tdd_code.cpp:39-49 | adding a node keeps the invariant |
| `GraphModel.AddEdgeStep` | tdd_code.cpp:53-71 | the state after addEdge(e): both lists only grow, by at most two nodes; the edge list grows by one exactly when e is new and not a self-loop, and e is then in it; a refused edge leaves the state unchanged |
| `GraphModel.AddEdgeStepPreserves` | tdd_code.cpp:53-71 | addEdge keeps the invariant; an accepted edge grows the edge count by 1 and leaves both endpoints present |
| `GraphModel.AddEdges` | tdd_code.cpp:73-77 | the state after addMultipleEdges(es): addEdge on each edge in order; neither list shrinks, the edge list grows by at most one per edge and the node list by at most two |
| `GraphModel.AddEdgesContains` | tdd_code.cpp:73-77 | adding a batch only appends to both lists, and every non-loop edge of the batch ends up in the edge list |
| `GraphModel.AddEdgesPreserves` | tdd_code.cpp:73-77 | adding a batch keeps the invariant |
| `GraphModel.NodesOtherThan` | tdd_code.cpp:115-123 | the node list removeNode rebuilds, never longer than the old one (membership and order are stated by the lemmas below) |
| `GraphModel.EdgesAvoiding` | tdd_code.cpp:105-113 | the edge list removeNode rebuilds, never longer than the old one |
| `GraphModel.EdgesOtherThan` | tdd_code.cpp:132-139 | the edge list removeEdge rebuilds, never longer than the old one |
| `GraphModel.NodesOtherThanMembers` | tdd_code.cpp:115-123 | the rebuilt node list holds exactly the nodes with another id |
| `GraphModel.EdgesAvoidingMembers` | tdd_code.cpp:105-113 | the rebuilt edge list holds exactly the edges not touching the removed node |
| `GraphModel.EdgesOtherThanMembers` | tdd_code.cpp:132-139 | the rebuilt edge list holds exactly the edges different from the removed one |
| `GraphModel.NodesOtherThanConcat` | tdd_code.cpp:115-123 | filtering nodes distributes over concatenation, so kept nodes stay in their original order |
| `GraphModel.EdgesAvoidingConcat` | tdd_code.cpp:105-113 | filtering out incident edges distributes over concatenation, so kept edges stay in order |
| `GraphModel.EdgesOtherThanConcat` | tdd_code.cpp:132-139 | filtering out one edge distributes over concatenation, so kept edges stay in order |
| `GraphModel.NodesOtherThanUnique` | tdd_code.cpp:115-123 | removing nodes keeps ids unique |
| `GraphModel.NoDuplicatesAvoiding` | tdd_code.cpp:105-113 | removing incident edges introduces no duplicates |
| `GraphModel.NoDuplicatesOtherThan` | tdd_code.cpp:132-139 | removing an edge introduces no duplicates |
| `GraphModel.RemoveNodePreserves` | tdd_code.cpp:99-126 | removeNode keeps the invariant: no remaining edge refers to the removed node |
| `GraphModel.RemoveEdgePreserves` | tdd_code.cpp:128-143 | removeEdge keeps the invariant |
| `GraphModel.NodesOtherThanCount` | tdd_code.cpp:115-123 | with unique ids, removing a present id drops exactly one node, and an absent id drops none |
| `GraphModel.EdgesOtherThanCount` | tdd_code.cpp:128-143 | without duplicates, removing a present edge drops exactly one edge, and an absent edge drops none |
| `GraphModel.IncidentCount` | tdd_code.cpp:162-166 | the number of edges with the id at either end, at most the number of edges |
| `GraphModel.IncidentCountSplit` | tdd_code.cpp:105-113 | the incident edges and the edges that removeNode keeps add up to all edges, so removeNode drops exactly the node's degree |
| `GraphModel.MatchedDegree` | tdd_code.cpp:157-168 | nodeDegree's nested loop total: 0 when no node has the id or no edge touches it |
| `GraphModel.Degree` | tdd_code.cpp:155-168 | nodeDegree(id) before its zero check: 0 for an absent id or one that touches no edge |
| `GraphModel.DegreeIsIncidentCount` | tdd_code.cpp:155-172 | with unique ids, the nested loop counts the incident edges of a present node once, and 0 for an absent id |
| `GraphModel.DegreeScanIsMax` | tdd_code.cpp:174-184 | the scan throws exactly when a scanned node has degree 0, with nodeDegree's message; otherwise it yields the maximum degree, 0 over no nodes |
| `GraphModel.DegreeScan` | tdd_code.cpp:176-183 | graphDegree's loop over the first k nodes: a failure carries nodeDegree's message, and a success over at least one node is at least 1 |
| `GraphModel.GraphDegree` | tdd_code.cpp:174-184 | graphDegree(): 0 for a graph without nodes, a failure carries nodeDegree's message, and a success on a graph with nodes is at least 1 |
| `GraphModel.NextColor` | tdd_code.cpp:193-196 | coloring's counter update keeps a colour in 1 .. maxColor within 2 .. maxColor when maxColor is at least 2 |
| `GraphModel.ColorAt` | tdd_code.cpp:188-197 | the colour node k receives; with maxColor at least 2 it lies in 1 .. maxColor |
| `GraphModel.ColorAtFirstPass` | tdd_code.cpp:188-197 | the first maxColor nodes get colours 1, 2, ..., maxColor |
| `GraphModel.ColorAtPeriodic` | tdd_code.cpp:193-196 | after the first node the colours repeat with period maxColor-1 and never return to 1, because a wrap resets the counter to 1 and then increments it |
| `GraphModel.RecolorPreserves` | tdd_code.cpp:191-197 | changing only colours keeps the invariant |
| `GraphModel.UniqueIdsCount` | tdd_code.cpp:145-148 | with unique ids, the node list is as long as its set of ids |
| `GraphModel.NoDuplicatesCount` | tdd_code.cpp:150-153 | without duplicates, the edge list is as long as its set of edges |

## Left out

- The red-black tree (red_black_tree.h) and the hash map (white_box_code.h): this model
  covers only class `Graph` in tdd_code.cpp. Those headers are not part of this model.
- The gtest suites black_box_tests.cpp and white_box_tests.cpp: they are tests of the
  classes above, not behaviour of `Graph`.
- Heap management. Nodes are values, not pointers, so `new Node`, the unreachable
  `nullptr` check after it (tdd_code.cpp:45-46), `free` in `removeNode` and `delete` in
  `clear` are not modelled. So is the `free`/`new` mismatch.
- Aliasing through node pointers. `getNode` and `addNode` return a copy of the node. A
  caller that writes to the returned `Node*` changes the graph in C++ but not here.
- `nodes()` and `edges()` (tdd_code.cpp:23-35) return copies of the two vectors. Here
  the fields `nodeList` and `edgeList` are read directly.
- C++ exceptions: a `std::out_of_range` throw is the `OutOfRange(message)` result.
- Graphs.Graph.NodeDegree: integers are unbounded. The model does not capture overflow
  of `nodeDegree`'s `int` counter or of the `size_t` in `graphDegree() + 1`.
- Graphs.Graph.Coloring: the colour counter is unbounded too. Under the assumption
  that the colour is an `int`, the comparison `node->color >= maxColor` converts it to
  `size_t`. It is modelled as a comparison of integers, which is the same here because
  the counter is always positive.
- Edge equality is an assumption (see above), not a verified fact about tdd_code.h.
