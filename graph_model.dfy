/**
 * Values, invariants and specification functions of the graph kept by
 * class Graph in tdd_code.cpp: a list of nodes (id, colour) and a list of
 * edges, each an ordered pair (a, b) of node ids, searched and rebuilt by
 * linear scans. Edges are compared as ordered pairs; only incidence (degree,
 * removeNode) looks at both ends without regard to direction.
 */
module GraphModel {

  /** A node of the graph; the source keeps it behind a pointer, here it is a value. */
  datatype NodeRec = NodeRec(id: nat, color: int)

  /** An edge between the nodes with ids a and b. Equality is structural on (a, b). */
  datatype Edge = Edge(a: nat, b: nat)

  /** A null pointer (None) or a node (Some). */
  datatype Option<T> = None | Some(value: T)

  /** A value, or the std::out_of_range the source throws, with its message. */
  datatype Result<T> = Ok(value: T) | OutOfRange(message: string)

  /** The two fields of the graph, nodeList and edgeList, taken together. */
  datatype GraphState = GraphState(nodes: seq<NodeRec>, edges: seq<Edge>)

  /** Colour of a freshly created node: `Node{nodeId}` value-initialises the colour. */
  const InitialColor: int := 0

  const NodeNotFound: string := "Node is not found"
  const EdgeNotFound: string := "Edge is not found"

  // ---------------------------------------------------------------------------
  // Basic predicates
  // ---------------------------------------------------------------------------

  predicate HasNode(nodes: seq<NodeRec>, id: nat) {
    exists i :: 0 <= i < |nodes| && nodes[i].id == id
  }

  predicate Incident(e: Edge, id: nat) {
    e.a == id || e.b == id
  }

  // ---------------------------------------------------------------------------
  // The graph invariant
  // ---------------------------------------------------------------------------

  predicate UniqueIds(nodes: seq<NodeRec>) {
    forall i, j :: 0 <= i < j < |nodes| ==> nodes[i].id != nodes[j].id
  }

  predicate EndpointsPresent(s: GraphState) {
    forall e :: e in s.edges ==> HasNode(s.nodes, e.a) && HasNode(s.nodes, e.b)
  }

  predicate NoSelfLoops(edges: seq<Edge>) {
    forall e :: e in edges ==> e.a != e.b
  }

  predicate NoDuplicateEdges(edges: seq<Edge>) {
    forall i, j :: 0 <= i < j < |edges| ==> edges[i] != edges[j]
  }

  /** What every mutator of Graph keeps: unique ids, edges between present nodes, no loops, no duplicates. */
  predicate WellFormed(s: GraphState) {
    UniqueIds(s.nodes) && EndpointsPresent(s) && NoSelfLoops(s.edges) && NoDuplicateEdges(s.edges)
  }

  lemma HasNodeAppend(nodes: seq<NodeRec>, n: NodeRec, id: nat)
    ensures HasNode(nodes + [n], id) <==> HasNode(nodes, id) || n.id == id
  {
    if HasNode(nodes, id) {
      var i :| 0 <= i < |nodes| && nodes[i].id == id;
      assert (nodes + [n])[i].id == id;
    }
    if n.id == id {
      assert (nodes + [n])[|nodes|].id == id;
    }
    if HasNode(nodes + [n], id) {
      var i :| 0 <= i < |nodes + [n]| && (nodes + [n])[i].id == id;
      if i < |nodes| { assert nodes[i].id == id; }
    }
  }

  /** In a list with unique ids, the last node's id does not occur before it. */
  lemma UniqueLast(nodes: seq<NodeRec>)
    requires UniqueIds(nodes) && nodes != []
    ensures UniqueIds(nodes[..|nodes| - 1])
    ensures !HasNode(nodes[..|nodes| - 1], nodes[|nodes| - 1].id)
    ensures forall n :: n in nodes[..|nodes| - 1] ==> n.id != nodes[|nodes| - 1].id
  {
    var k := |nodes| - 1;
    forall j | 0 <= j < k ensures nodes[..k][j].id != nodes[k].id {
      assert nodes[..k][j] == nodes[j];
    }
  }

  /** In a list without duplicates, the last edge does not occur before it. */
  lemma DistinctLast(edges: seq<Edge>)
    requires NoDuplicateEdges(edges) && edges != []
    ensures NoDuplicateEdges(edges[..|edges| - 1])
    ensures edges[|edges| - 1] !in edges[..|edges| - 1]
  {
    var k := |edges| - 1;
    forall j | 0 <= j < k ensures edges[..k][j] != edges[k] {
      assert edges[..k][j] == edges[j];
    }
  }

  lemma HasNodeIn(nodes: seq<NodeRec>, n: NodeRec)
    requires n in nodes
    ensures HasNode(nodes, n.id)
  {
    var i :| 0 <= i < |nodes| && nodes[i] == n;
  }

  // ---------------------------------------------------------------------------
  // addNode and addEdge
  // ---------------------------------------------------------------------------

  /** The node list after addNode(id) was called only if no node had that id. */
  function WithNode(nodes: seq<NodeRec>, id: nat): (r: seq<NodeRec>)
    ensures nodes <= r
    ensures |r| == |nodes| <==> HasNode(nodes, id)
    ensures |r| <= |nodes| + 1
  {
    if HasNode(nodes, id) then nodes else nodes + [NodeRec(id, InitialColor)]
  }

  /** After addNode(id) the id is present, every present id stays present, and nothing is reordered. */
  lemma WithNodeGrows(nodes: seq<NodeRec>, id: nat)
    ensures HasNode(WithNode(nodes, id), id)
    ensures forall k :: HasNode(nodes, k) ==> HasNode(WithNode(nodes, id), k)
    ensures nodes <= WithNode(nodes, id)
  {
    if !HasNode(nodes, id) {
      var n := NodeRec(id, InitialColor);
      forall k | HasNode(nodes, k) ensures HasNode(nodes + [n], k) {
        HasNodeAppend(nodes, n, k);
      }
      HasNodeAppend(nodes, n, id);
    }
  }

  /** Adding a node with a new id keeps the invariant. */
  lemma AddNodePreserves(s: GraphState, id: nat)
    requires WellFormed(s)
    ensures WellFormed(GraphState(WithNode(s.nodes, id), s.edges))
  {
    WithNodeGrows(s.nodes, id);
  }

  /** addEdge accepts an edge that is not yet in the list and is not a self-loop. */
  predicate AcceptsEdge(edges: seq<Edge>, e: Edge) {
    e !in edges && e.a != e.b
  }

  /** The state after addEdge(e): unchanged when refused, otherwise endpoints added and e appended. */
  function AddEdgeStep(s: GraphState, e: Edge): (r: GraphState)
    ensures s.nodes <= r.nodes && |r.nodes| <= |s.nodes| + 2
    ensures s.edges <= r.edges
    ensures |r.edges| == |s.edges| + 1 <==> AcceptsEdge(s.edges, e)
    ensures AcceptsEdge(s.edges, e) ==> e in r.edges
    ensures !AcceptsEdge(s.edges, e) ==> r == s
  {
    if AcceptsEdge(s.edges, e) then
      GraphState(WithNode(WithNode(s.nodes, e.a), e.b), s.edges + [e])
    else
      s
  }

  /** addEdge keeps the invariant, and an accepted edge is then present with both endpoints. */
  lemma AddEdgeStepPreserves(s: GraphState, e: Edge)
    requires WellFormed(s)
    ensures WellFormed(AddEdgeStep(s, e))
    ensures AcceptsEdge(s.edges, e) ==>
      |AddEdgeStep(s, e).edges| == |s.edges| + 1 &&
      HasNode(AddEdgeStep(s, e).nodes, e.a) && HasNode(AddEdgeStep(s, e).nodes, e.b)
  {
    if AcceptsEdge(s.edges, e) {
      var s1 := GraphState(WithNode(s.nodes, e.a), s.edges);
      AddNodePreserves(s, e.a);
      AddNodePreserves(s1, e.b);
      WithNodeGrows(s.nodes, e.a);
      WithNodeGrows(s1.nodes, e.b);
      var t := AddEdgeStep(s, e);
      assert t.nodes == WithNode(s1.nodes, e.b);
      forall i, j | 0 <= i < j < |t.edges| ensures t.edges[i] != t.edges[j] {
        if j == |s.edges| {
          assert t.edges[i] == s.edges[i];
        }
      }
    }
  }

  /** The state after addMultipleEdges(es): addEdge applied to each edge in order. */
  function AddEdges(s: GraphState, es: seq<Edge>): (r: GraphState)
    ensures |s.nodes| <= |r.nodes| <= |s.nodes| + 2 * |es|
    ensures |s.edges| <= |r.edges| <= |s.edges| + |es|
    decreases |es|
  {
    if es == [] then s else AddEdgeStep(AddEdges(s, es[..|es| - 1]), es[|es| - 1])
  }

  /**
   * addMultipleEdges only appends to both lists, and afterwards every edge of
   * the batch that is not a self-loop is in the graph.
   */
  lemma {:induction false} AddEdgesContains(s: GraphState, es: seq<Edge>)
    ensures s.nodes <= AddEdges(s, es).nodes && s.edges <= AddEdges(s, es).edges
    ensures forall e :: e in es && e.a != e.b ==> e in AddEdges(s, es).edges
    decreases |es|
  {
    if es != [] {
      var init, last := es[..|es| - 1], es[|es| - 1];
      AddEdgesContains(s, init);
      assert es == init + [last];
      forall e | e in es && e.a != e.b ensures e in AddEdges(s, es).edges {
        if e != last {
          assert e in init;
        }
      }
    }
  }

  /** addMultipleEdges keeps the invariant. */
  lemma {:induction false} AddEdgesPreserves(s: GraphState, es: seq<Edge>)
    requires WellFormed(s)
    ensures WellFormed(AddEdges(s, es))
    decreases |es|
  {
    if es != [] {
      AddEdgesPreserves(s, es[..|es| - 1]);
      AddEdgeStepPreserves(AddEdges(s, es[..|es| - 1]), es[|es| - 1]);
    }
  }

  // ---------------------------------------------------------------------------
  // Filters built by removeNode and removeEdge
  // ---------------------------------------------------------------------------

  /** The nodes whose id differs from id, in their original order. */
  function NodesOtherThan(nodes: seq<NodeRec>, id: nat): (r: seq<NodeRec>)
    ensures |r| <= |nodes|
    decreases |nodes|
  {
    if nodes == [] then []
    else
      var k := |nodes| - 1;
      NodesOtherThan(nodes[..k], id) + (if nodes[k].id != id then [nodes[k]] else [])
  }

  /** The edges not incident to id, in their original order. */
  function EdgesAvoiding(edges: seq<Edge>, id: nat): (r: seq<Edge>)
    ensures |r| <= |edges|
    decreases |edges|
  {
    if edges == [] then []
    else
      var k := |edges| - 1;
      EdgesAvoiding(edges[..k], id) + (if !Incident(edges[k], id) then [edges[k]] else [])
  }

  /** The edges different from e, in their original order. */
  function EdgesOtherThan(edges: seq<Edge>, e: Edge): (r: seq<Edge>)
    ensures |r| <= |edges|
    decreases |edges|
  {
    if edges == [] then []
    else
      var k := |edges| - 1;
      EdgesOtherThan(edges[..k], e) + (if edges[k] != e then [edges[k]] else [])
  }

  /** removeNode keeps exactly the nodes with another id. */
  lemma {:induction false} NodesOtherThanMembers(nodes: seq<NodeRec>, id: nat)
    ensures forall n :: n in NodesOtherThan(nodes, id) <==> n in nodes && n.id != id
    decreases |nodes|
  {
    if nodes != [] {
      var k := |nodes| - 1;
      assert nodes == nodes[..k] + [nodes[k]];
      NodesOtherThanMembers(nodes[..k], id);
    }
  }

  /** removeNode keeps exactly the edges that do not touch the node. */
  lemma {:induction false} EdgesAvoidingMembers(edges: seq<Edge>, id: nat)
    ensures forall e :: e in EdgesAvoiding(edges, id) <==> e in edges && !Incident(e, id)
    decreases |edges|
  {
    if edges != [] {
      var k := |edges| - 1;
      assert edges == edges[..k] + [edges[k]];
      EdgesAvoidingMembers(edges[..k], id);
    }
  }

  /** removeEdge keeps exactly the edges different from the removed one. */
  lemma {:induction false} EdgesOtherThanMembers(edges: seq<Edge>, e: Edge)
    ensures forall f :: f in EdgesOtherThan(edges, e) <==> f in edges && f != e
    decreases |edges|
  {
    if edges != [] {
      var k := |edges| - 1;
      assert edges == edges[..k] + [edges[k]];
      EdgesOtherThanMembers(edges[..k], e);
    }
  }

  /** Filtering distributes over concatenation: the kept edges stay in their original order. */
  lemma {:induction false} EdgesAvoidingConcat(s: seq<Edge>, t: seq<Edge>, id: nat)
    ensures EdgesAvoiding(s + t, id) == EdgesAvoiding(s, id) + EdgesAvoiding(t, id)
    decreases |t|
  {
    if t != [] {
      var k := |t| - 1;
      assert (s + t)[..|s + t| - 1] == s + t[..k];
      EdgesAvoidingConcat(s, t[..k], id);
    } else {
      assert s + t == s;
    }
  }

  /** Removing the edges different from e keeps the others in their original order. */
  lemma {:induction false} EdgesOtherThanConcat(s: seq<Edge>, t: seq<Edge>, e: Edge)
    ensures EdgesOtherThan(s + t, e) == EdgesOtherThan(s, e) + EdgesOtherThan(t, e)
    decreases |t|
  {
    if t != [] {
      var k := |t| - 1;
      assert (s + t)[..|s + t| - 1] == s + t[..k];
      EdgesOtherThanConcat(s, t[..k], e);
    } else {
      assert s + t == s;
    }
  }

  /** Removing the nodes with one id keeps the others in their original order. */
  lemma {:induction false} NodesOtherThanConcat(s: seq<NodeRec>, t: seq<NodeRec>, id: nat)
    ensures NodesOtherThan(s + t, id) == NodesOtherThan(s, id) + NodesOtherThan(t, id)
    decreases |t|
  {
    if t != [] {
      var k := |t| - 1;
      assert (s + t)[..|s + t| - 1] == s + t[..k];
      NodesOtherThanConcat(s, t[..k], id);
    } else {
      assert s + t == s;
    }
  }

  lemma {:induction false} NodesOtherThanUnique(nodes: seq<NodeRec>, id: nat)
    requires UniqueIds(nodes)
    ensures UniqueIds(NodesOtherThan(nodes, id))
    decreases |nodes|
  {
    if nodes != [] {
      var k := |nodes| - 1;
      var init := nodes[..k];
      UniqueLast(nodes);
      NodesOtherThanUnique(init, id);
      NodesOtherThanMembers(init, id);
      var r := NodesOtherThan(init, id);
      if nodes[k].id != id {
        forall i | 0 <= i < |r| ensures r[i].id != nodes[k].id {
          assert r[i] in init;
        }
      }
    }
  }

  lemma {:induction false} NoDuplicatesAvoiding(edges: seq<Edge>, id: nat)
    requires NoDuplicateEdges(edges)
    ensures NoDuplicateEdges(EdgesAvoiding(edges, id))
    decreases |edges|
  {
    if edges != [] {
      var k := |edges| - 1;
      var init := edges[..k];
      DistinctLast(edges);
      NoDuplicatesAvoiding(init, id);
      EdgesAvoidingMembers(init, id);
      var r := EdgesAvoiding(init, id);
      if !Incident(edges[k], id) {
        forall i | 0 <= i < |r| ensures r[i] != edges[k] {
          assert r[i] in init;
        }
      }
    }
  }

  lemma {:induction false} NoDuplicatesOtherThan(edges: seq<Edge>, e: Edge)
    requires NoDuplicateEdges(edges)
    ensures NoDuplicateEdges(EdgesOtherThan(edges, e))
    decreases |edges|
  {
    if edges != [] {
      var k := |edges| - 1;
      var init := edges[..k];
      DistinctLast(edges);
      NoDuplicatesOtherThan(init, e);
      EdgesOtherThanMembers(init, e);
      var r := EdgesOtherThan(init, e);
      if edges[k] != e {
        forall i | 0 <= i < |r| ensures r[i] != edges[k] {
          assert r[i] in init;
        }
      }
    }
  }

  /** removeNode keeps the invariant: the node goes together with every edge touching it. */
  lemma RemoveNodePreserves(s: GraphState, id: nat)
    requires WellFormed(s)
    ensures WellFormed(GraphState(NodesOtherThan(s.nodes, id), EdgesAvoiding(s.edges, id)))
  {
    var t := GraphState(NodesOtherThan(s.nodes, id), EdgesAvoiding(s.edges, id));
    NodesOtherThanUnique(s.nodes, id);
    NoDuplicatesAvoiding(s.edges, id);
    NodesOtherThanMembers(s.nodes, id);
    EdgesAvoidingMembers(s.edges, id);
    forall e | e in t.edges ensures HasNode(t.nodes, e.a) && HasNode(t.nodes, e.b) {
      var i :| 0 <= i < |s.nodes| && s.nodes[i].id == e.a;
      var j :| 0 <= j < |s.nodes| && s.nodes[j].id == e.b;
      HasNodeIn(t.nodes, s.nodes[i]);
      HasNodeIn(t.nodes, s.nodes[j]);
    }
  }

  /** removeEdge keeps the invariant. */
  lemma RemoveEdgePreserves(s: GraphState, e: Edge)
    requires WellFormed(s)
    ensures WellFormed(GraphState(s.nodes, EdgesOtherThan(s.edges, e)))
  {
    NoDuplicatesOtherThan(s.edges, e);
    EdgesOtherThanMembers(s.edges, e);
  }

  /** With unique ids, removing a present id drops exactly one node. */
  lemma {:induction false} NodesOtherThanCount(nodes: seq<NodeRec>, id: nat)
    requires UniqueIds(nodes)
    ensures |NodesOtherThan(nodes, id)| == if HasNode(nodes, id) then |nodes| - 1 else |nodes|
    decreases |nodes|
  {
    if nodes != [] {
      var k := |nodes| - 1;
      var init := nodes[..k];
      assert nodes == init + [nodes[k]];
      UniqueLast(nodes);
      NodesOtherThanCount(init, id);
      HasNodeAppend(init, nodes[k], id);
    }
  }

  /** Without duplicates, removing a present edge drops exactly one edge. */
  lemma {:induction false} EdgesOtherThanCount(edges: seq<Edge>, e: Edge)
    requires NoDuplicateEdges(edges)
    ensures |EdgesOtherThan(edges, e)| == if e in edges then |edges| - 1 else |edges|
    decreases |edges|
  {
    if edges != [] {
      var k := |edges| - 1;
      var init := edges[..k];
      assert edges == init + [edges[k]];
      DistinctLast(edges);
      EdgesOtherThanCount(init, e);
    }
  }

  // ---------------------------------------------------------------------------
  // Degrees
  // ---------------------------------------------------------------------------

  /** The number of edges incident to id. */
  function IncidentCount(edges: seq<Edge>, id: nat): (r: nat)
    ensures r <= |edges|
    decreases |edges|
  {
    if edges == [] then 0
    else IncidentCount(edges[..|edges| - 1], id) + (if Incident(edges[|edges| - 1], id) then 1 else 0)
  }

  /** removeNode drops exactly the incident edges: the degree plus what stays is the edge count. */
  lemma {:induction false} IncidentCountSplit(edges: seq<Edge>, id: nat)
    ensures IncidentCount(edges, id) + |EdgesAvoiding(edges, id)| == |edges|
    decreases |edges|
  {
    if edges != [] {
      IncidentCountSplit(edges[..|edges| - 1], id);
    }
  }

  /**
   * What nodeDegree's nested loop adds up: for every node with that id,
   * the number of edges incident to the id.
   */
  function MatchedDegree(nodes: seq<NodeRec>, edges: seq<Edge>, id: nat): (r: nat)
    ensures IncidentCount(edges, id) == 0 ==> r == 0
    ensures !HasNode(nodes, id) ==> r == 0
    decreases |nodes|
  {
    if nodes == [] then 0
    else
      MatchedDegree(nodes[..|nodes| - 1], edges, id)
      + (if nodes[|nodes| - 1].id == id then IncidentCount(edges, id) else 0)
  }

  /** nodeDegree(id): 0 for an absent id or an id that touches no edge. */
  function Degree(s: GraphState, id: nat): (r: nat)
    ensures IncidentCount(s.edges, id) == 0 ==> r == 0
    ensures !HasNode(s.nodes, id) ==> r == 0
  {
    MatchedDegree(s.nodes, s.edges, id)
  }

  /** With unique ids, the nested loop counts the incident edges of a present node once, and nothing for an absent one. */
  lemma {:induction false} DegreeIsIncidentCount(nodes: seq<NodeRec>, edges: seq<Edge>, id: nat)
    requires UniqueIds(nodes)
    ensures MatchedDegree(nodes, edges, id) == if HasNode(nodes, id) then IncidentCount(edges, id) else 0
    decreases |nodes|
  {
    if nodes != [] {
      var k := |nodes| - 1;
      var init := nodes[..k];
      assert nodes == init + [nodes[k]];
      UniqueLast(nodes);
      DegreeIsIncidentCount(init, edges, id);
      HasNodeAppend(init, nodes[k], id);
    }
  }

  function Max(x: nat, y: nat): nat {
    if x >= y then x else y
  }

  /**
   * graphDegree's loop over the first k nodes: the largest nodeDegree seen,
   * or the exception nodeDegree throws for a node of degree 0.
   */
  function DegreeScan(s: GraphState, k: nat): (r: Result<nat>)
    requires k <= |s.nodes|
    ensures r.OutOfRange? ==> r.message == NodeNotFound
    ensures r.Ok? && k > 0 ==> r.value >= 1
  {
    if k == 0 then Ok(0)
    else
      match DegreeScan(s, k - 1)
      case OutOfRange(msg) => OutOfRange(msg)
      case Ok(m) =>
        var d := Degree(s, s.nodes[k - 1].id);
        if d == 0 then OutOfRange(NodeNotFound) else Ok(Max(m, d))
  }

  /**
   * The scan fails exactly when one of the first k nodes has degree 0, and
   * otherwise yields the largest of their degrees (0 when k is 0).
   */
  lemma {:induction false} DegreeScanIsMax(s: GraphState, k: nat)
    requires k <= |s.nodes|
    ensures DegreeScan(s, k).OutOfRange? <==> exists i :: 0 <= i < k && Degree(s, s.nodes[i].id) == 0
    ensures DegreeScan(s, k).OutOfRange? ==> DegreeScan(s, k).message == NodeNotFound
    ensures DegreeScan(s, k).Ok? ==> forall i :: 0 <= i < k ==> Degree(s, s.nodes[i].id) <= DegreeScan(s, k).value
    ensures DegreeScan(s, k).Ok? && k == 0 ==> DegreeScan(s, k).value == 0
    ensures DegreeScan(s, k).Ok? && k > 0 ==> exists i :: 0 <= i < k && Degree(s, s.nodes[i].id) == DegreeScan(s, k).value
  {
    if k > 0 {
      DegreeScanIsMax(s, k - 1);
    }
  }

  /** graphDegree: the maximum degree over all nodes, 0 for no nodes, an error if some node is isolated. */
  function GraphDegree(s: GraphState): (r: Result<nat>)
    ensures |s.nodes| == 0 ==> r == Ok(0)
    ensures r.OutOfRange? ==> r.message == NodeNotFound
    ensures r.Ok? && |s.nodes| > 0 ==> r.value >= 1
  {
    DegreeScan(s, |s.nodes|)
  }

  // ---------------------------------------------------------------------------
  // Colouring
  // ---------------------------------------------------------------------------

  /** The counter update in coloring's loop: back to 1 at maxColor, then one up. */
  function NextColor(c: int, maxColor: int): (r: int)
    ensures maxColor >= 2 && 1 <= c <= maxColor ==> 2 <= r <= maxColor
  {
    (if c >= maxColor then 1 else c) + 1
  }

  /** The colour coloring gives to the node at position k. */
  function ColorAt(k: nat, maxColor: int): (r: int)
    ensures maxColor >= 2 ==> 1 <= r <= maxColor
  {
    if k == 0 then 1 else NextColor(ColorAt(k - 1, maxColor), maxColor)
  }

  /** On the first pass the colours are 1, 2, ..., maxColor in node order. */
  lemma {:induction false} ColorAtFirstPass(k: nat, maxColor: int)
    requires k < maxColor
    ensures ColorAt(k, maxColor) == k + 1
  {
    if k > 0 {
      ColorAtFirstPass(k - 1, maxColor);
    }
  }

  /**
   * After the first node the colours repeat with period maxColor - 1: a wrap
   * resets the counter to 1 and then increments it, so colour 1 is not reused.
   */
  lemma {:induction false} ColorAtPeriodic(k: nat, maxColor: int)
    requires maxColor >= 2 && k >= 1
    ensures ColorAt(k + maxColor - 1, maxColor) == ColorAt(k, maxColor)
    ensures ColorAt(k, maxColor) >= 2
  {
    if k == 1 {
      ColorAtFirstPass(maxColor - 1, maxColor);
    } else {
      ColorAtPeriodic(k - 1, maxColor);
    }
  }

  /** Recolouring nodes in place keeps the invariant: it only looks at ids. */
  lemma RecolorPreserves(s: GraphState, nodes: seq<NodeRec>)
    requires WellFormed(s)
    requires |nodes| == |s.nodes|
    requires forall j :: 0 <= j < |nodes| ==> nodes[j].id == s.nodes[j].id
    ensures WellFormed(GraphState(nodes, s.edges))
  {
    forall e | e in s.edges ensures HasNode(nodes, e.a) && HasNode(nodes, e.b) {
      var i :| 0 <= i < |s.nodes| && s.nodes[i].id == e.a;
      var j :| 0 <= j < |s.nodes| && s.nodes[j].id == e.b;
      assert nodes[i].id == e.a && nodes[j].id == e.b;
    }
  }

  // ---------------------------------------------------------------------------
  // Counts
  // ---------------------------------------------------------------------------

  function IdSet(nodes: seq<NodeRec>): set<nat> {
    set n | n in nodes :: n.id
  }

  function EdgeSet(edges: seq<Edge>): set<Edge> {
    set e | e in edges
  }

  /** With unique ids, nodeCount is the number of distinct node ids. */
  lemma {:induction false} UniqueIdsCount(nodes: seq<NodeRec>)
    requires UniqueIds(nodes)
    ensures |IdSet(nodes)| == |nodes|
    decreases |nodes|
  {
    if nodes != [] {
      var k := |nodes| - 1;
      var init := nodes[..k];
      assert nodes == init + [nodes[k]];
      UniqueLast(nodes);
      UniqueIdsCount(init);
      assert IdSet(nodes) == IdSet(init) + {nodes[k].id};
    }
  }

  /** Without duplicates, edgeCount is the number of distinct edges. */
  lemma {:induction false} NoDuplicatesCount(edges: seq<Edge>)
    requires NoDuplicateEdges(edges)
    ensures |EdgeSet(edges)| == |edges|
    decreases |edges|
  {
    if edges != [] {
      var k := |edges| - 1;
      var init := edges[..k];
      assert edges == init + [edges[k]];
      DistinctLast(edges);
      NoDuplicatesCount(init);
      assert EdgeSet(edges) == EdgeSet(init) + {edges[k]};
    }
  }
}
