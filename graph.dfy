/**
 * Class Graph of tdd_code.cpp: the node and edge lists are fields that the
 * methods scan, append to and rebuild, as the C++ methods do with their
 * vectors. Nodes are values here; see GraphModel for the specification.
 */
module Graphs {
  import opened GraphModel

  class Graph {
    var nodeList: seq<NodeRec>
    var edgeList: seq<Edge>

    function State(): GraphState
      reads this
    {
      GraphState(nodeList, edgeList)
    }

    /** The invariant every mutator keeps (it is never required by them). */
    ghost predicate Valid()
      reads this
    {
      WellFormed(State())
    }

    constructor ()
      ensures nodeList == [] && edgeList == []
      ensures Valid()
    {
      nodeList := [];
      edgeList := [];
    }

    /** addNode: None (nullptr) when the id is taken; otherwise appends a new node and returns it. */
    method AddNode(nodeId: nat) returns (r: Option<NodeRec>)
      modifies this
      ensures edgeList == old(edgeList)
      ensures HasNode(old(nodeList), nodeId) ==> r == None && nodeList == old(nodeList)
      ensures !HasNode(old(nodeList), nodeId) ==>
        r == Some(NodeRec(nodeId, InitialColor)) &&
        nodeList == old(nodeList) + [NodeRec(nodeId, InitialColor)] &&
        |nodeList| == old(|nodeList|) + 1
      ensures nodeList == WithNode(old(nodeList), nodeId)
      ensures old(Valid()) ==> Valid()
    {
      ghost var s := State();
      var i := 0;
      while i < |nodeList|
        invariant 0 <= i <= |nodeList|
        invariant forall j :: 0 <= j < i ==> nodeList[j].id != nodeId
      {
        if nodeList[i].id == nodeId {
          return None;
        }
        i := i + 1;
      }
      var node := NodeRec(nodeId, InitialColor);
      nodeList := nodeList + [node];
      r := Some(node);
      if WellFormed(s) {
        AddNodePreserves(s, nodeId);
      }
    }

    /** getNode: the first node with that id, or None (nullptr) when there is none. */
    method GetNode(nodeId: nat) returns (r: Option<NodeRec>)
      ensures r.None? <==> !HasNode(nodeList, nodeId)
      ensures r.Some? ==>
        exists i :: 0 <= i < |nodeList| && nodeList[i] == r.value && r.value.id == nodeId &&
          !HasNode(nodeList[..i], nodeId)
    {
      var i := 0;
      while i < |nodeList|
        invariant 0 <= i <= |nodeList|
        invariant !HasNode(nodeList[..i], nodeId)
      {
        if nodeList[i].id == nodeId {
          return Some(nodeList[i]);
        }
        HasNodeAppend(nodeList[..i], nodeList[i], nodeId);
        assert nodeList[..i + 1] == nodeList[..i] + [nodeList[i]];
        i := i + 1;
      }
      assert nodeList[..i] == nodeList;
      r := None;
    }

    /** containsEdge: whether an equal edge is in the edge list. */
    method ContainsEdge(edge: Edge) returns (r: bool)
      ensures r <==> edge in edgeList
    {
      var i := 0;
      while i < |edgeList|
        invariant 0 <= i <= |edgeList|
        invariant edge !in edgeList[..i]
      {
        if edgeList[i] == edge {
          return true;
        }
        assert edgeList[..i + 1] == edgeList[..i] + [edgeList[i]];
        i := i + 1;
      }
      assert edgeList[..i] == edgeList;
      r := false;
    }

    /**
     * addEdge: false with no change for an edge already present or a self-loop;
     * otherwise adds the missing endpoints, appends the edge and returns true.
     */
    method AddEdge(edge: Edge) returns (ok: bool)
      modifies this
      ensures ok <==> AcceptsEdge(old(edgeList), edge)
      ensures !ok ==> nodeList == old(nodeList) && edgeList == old(edgeList)
      ensures ok ==>
        edgeList == old(edgeList) + [edge] &&
        HasNode(nodeList, edge.a) && HasNode(nodeList, edge.b) &&
        old(nodeList) <= nodeList
      ensures State() == AddEdgeStep(old(State()), edge)
      ensures old(Valid()) ==> Valid()
    {
      ghost var s := State();
      var i := 0;
      while i < |edgeList|
        invariant 0 <= i <= |edgeList|
        invariant edge !in edgeList[..i]
        invariant State() == s
      {
        if edgeList[i] == edge {
          return false;
        }
        assert edgeList[..i + 1] == edgeList[..i] + [edgeList[i]];
        i := i + 1;
      }
      assert edgeList[..i] == edgeList;
      if edge.a == edge.b {
        return false;
      }

      var na := GetNode(edge.a);
      if na == None {
        var _ := AddNode(edge.a);
      }
      var nb := GetNode(edge.b);
      if nb == None {
        var _ := AddNode(edge.b);
      }
      WithNodeGrows(s.nodes, edge.a);
      WithNodeGrows(WithNode(s.nodes, edge.a), edge.b);

      edgeList := edgeList + [edge];
      ok := true;
      if WellFormed(s) {
        AddEdgeStepPreserves(s, edge);
      }
    }

    /** addMultipleEdges: addEdge for each edge in order; refused edges are skipped. */
    method AddMultipleEdges(edges: seq<Edge>)
      modifies this
      ensures State() == AddEdges(old(State()), edges)
      ensures forall e :: e in edges && e.a != e.b ==> e in edgeList
      ensures old(Valid()) ==> Valid()
    {
      ghost var s := State();
      var i := 0;
      while i < |edges|
        invariant 0 <= i <= |edges|
        invariant State() == AddEdges(s, edges[..i])
      {
        assert edges[..i + 1][..i] == edges[..i];
        var _ := AddEdge(edges[i]);
        i := i + 1;
      }
      assert edges[..i] == edges;
      AddEdgesContains(s, edges);
      if WellFormed(s) {
        AddEdgesPreserves(s, edges);
      }
    }

    /**
     * removeNode: out_of_range when no node has the id; otherwise drops that
     * node and every edge touching it, keeping the rest in order.
     */
    method RemoveNode(nodeId: nat) returns (r: Result<()>)
      modifies this
      ensures !HasNode(old(nodeList), nodeId) ==>
        r == OutOfRange(NodeNotFound) && nodeList == old(nodeList) && edgeList == old(edgeList)
      ensures HasNode(old(nodeList), nodeId) ==>
        r == Ok(()) &&
        nodeList == NodesOtherThan(old(nodeList), nodeId) &&
        edgeList == EdgesAvoiding(old(edgeList), nodeId)
      ensures HasNode(old(nodeList), nodeId) ==>
        |edgeList| == old(|edgeList|) - IncidentCount(old(edgeList), nodeId)
      ensures HasNode(old(nodeList), nodeId) && old(Valid()) ==>
        |nodeList| == old(|nodeList|) - 1
      ensures old(Valid()) ==> Valid()
    {
      ghost var s := State();
      var nodePtr := GetNode(nodeId);
      if nodePtr == None {
        return OutOfRange(NodeNotFound);
      }

      var updatedEdges: seq<Edge> := [];
      var i := 0;
      while i < |edgeList|
        invariant 0 <= i <= |edgeList|
        invariant edgeList == s.edges
        invariant updatedEdges == EdgesAvoiding(edgeList[..i], nodeId)
      {
        var edge := edgeList[i];
        assert edgeList[..i + 1][..i] == edgeList[..i];
        assert EdgesAvoiding(edgeList[..i + 1], nodeId) ==
          updatedEdges + (if !Incident(edge, nodeId) then [edge] else []);
        if edge.a != nodeId && edge.b != nodeId {
          updatedEdges := updatedEdges + [edge];
        }
        i := i + 1;
      }
      assert edgeList[..i] == edgeList;
      edgeList := updatedEdges;

      var updatedNodes: seq<NodeRec> := [];
      var j := 0;
      while j < |nodeList|
        invariant 0 <= j <= |nodeList|
        invariant nodeList == s.nodes
        invariant updatedNodes == NodesOtherThan(nodeList[..j], nodeId)
      {
        var node := nodeList[j];
        assert nodeList[..j + 1][..j] == nodeList[..j];
        assert NodesOtherThan(nodeList[..j + 1], nodeId) ==
          updatedNodes + (if node.id != nodeId then [node] else []);
        if node.id != nodeId {
          updatedNodes := updatedNodes + [node];
        }
        j := j + 1;
      }
      assert nodeList[..j] == nodeList;
      nodeList := updatedNodes;
      r := Ok(());

      IncidentCountSplit(s.edges, nodeId);
      if WellFormed(s) {
        RemoveNodePreserves(s, nodeId);
        NodesOtherThanCount(s.nodes, nodeId);
      }
    }

    /**
     * removeEdge: out_of_range when containsEdge is false; otherwise drops every
     * equal edge, keeping the rest in order.
     */
    method RemoveEdge(edge: Edge) returns (r: Result<()>)
      modifies this
      ensures nodeList == old(nodeList)
      ensures edge !in old(edgeList) ==> r == OutOfRange(EdgeNotFound) && edgeList == old(edgeList)
      ensures edge in old(edgeList) ==> r == Ok(()) && edgeList == EdgesOtherThan(old(edgeList), edge)
      ensures edge in old(edgeList) && old(Valid()) ==> |edgeList| == old(|edgeList|) - 1
      ensures old(Valid()) ==> Valid()
    {
      ghost var s := State();
      var found := ContainsEdge(edge);
      if found {
        var edges: seq<Edge> := [];
        var i := 0;
        while i < |edgeList|
          invariant 0 <= i <= |edgeList|
          invariant edgeList == s.edges
          invariant edges == EdgesOtherThan(edgeList[..i], edge)
        {
          if edgeList[i] != edge {
            edges := edges + [edgeList[i]];
          }
          assert edgeList[..i + 1][..i] == edgeList[..i];
          i := i + 1;
        }
        assert edgeList[..i] == edgeList;
        edgeList := edges;
        r := Ok(());
        if WellFormed(s) {
          RemoveEdgePreserves(s, edge);
          EdgesOtherThanCount(s.edges, edge);
        }
      } else {
        r := OutOfRange(EdgeNotFound);
      }
    }

    /** nodeCount: the length of the node list, which under the invariant is the number of distinct ids. */
    method NodeCount() returns (n: nat)
      ensures n == |nodeList|
      ensures Valid() ==> n == |IdSet(nodeList)|
    {
      n := |nodeList|;
      if Valid() {
        UniqueIdsCount(nodeList);
      }
    }

    /** edgeCount: the length of the edge list, which under the invariant is the number of distinct edges. */
    method EdgeCount() returns (n: nat)
      ensures n == |edgeList|
      ensures Valid() ==> n == |EdgeSet(edgeList)|
    {
      n := |edgeList|;
      if Valid() {
        NoDuplicatesCount(edgeList);
      }
    }

    /**
     * nodeDegree: for each node with the id, count the edges touching the id;
     * out_of_range when the total is 0 (an isolated node or an absent id).
     */
    method NodeDegree(nodeId: nat) returns (r: Result<nat>)
      ensures Degree(State(), nodeId) == 0 ==> r == OutOfRange(NodeNotFound)
      ensures Degree(State(), nodeId) > 0 ==> r == Ok(Degree(State(), nodeId))
      ensures Valid() ==> (r.Ok? <==> HasNode(nodeList, nodeId) && IncidentCount(edgeList, nodeId) > 0)
      ensures Valid() && r.Ok? ==> r.value == IncidentCount(edgeList, nodeId)
    {
      var degree := 0;
      var i := 0;
      while i < |nodeList|
        invariant 0 <= i <= |nodeList|
        invariant degree == MatchedDegree(nodeList[..i], edgeList, nodeId)
      {
        if nodeList[i].id == nodeId {
          var j := 0;
          while j < |edgeList|
            invariant 0 <= j <= |edgeList|
            invariant degree == MatchedDegree(nodeList[..i], edgeList, nodeId) + IncidentCount(edgeList[..j], nodeId)
          {
            var edge := edgeList[j];
            if edge.a == nodeId || edge.b == nodeId {
              degree := degree + 1;
            }
            assert edgeList[..j + 1][..j] == edgeList[..j];
            j := j + 1;
          }
          assert edgeList[..j] == edgeList;
        }
        assert nodeList[..i + 1][..i] == nodeList[..i];
        i := i + 1;
      }
      assert nodeList[..i] == nodeList;
      if degree == 0 {
        r := OutOfRange(NodeNotFound);
      } else {
        r := Ok(degree);
      }
      if Valid() {
        DegreeIsIncidentCount(nodeList, edgeList, nodeId);
      }
    }

    /**
     * graphDegree: the maximum nodeDegree over all nodes (0 for no nodes);
     * out_of_range from nodeDegree when some node is isolated.
     */
    method GraphDegree() returns (r: Result<nat>)
      ensures r == GraphModel.GraphDegree(State())
      ensures r.OutOfRange? <==> exists i :: 0 <= i < |nodeList| && Degree(State(), nodeList[i].id) == 0
      ensures r.Ok? ==> forall i :: 0 <= i < |nodeList| ==> Degree(State(), nodeList[i].id) <= r.value
      ensures r.Ok? && |nodeList| > 0 ==>
        exists i :: 0 <= i < |nodeList| && Degree(State(), nodeList[i].id) == r.value
    {
      var maxDegree := 0;
      var i := 0;
      while i < |nodeList|
        invariant 0 <= i <= |nodeList|
        invariant DegreeScan(State(), i) == Ok(maxDegree)
      {
        var degree := NodeDegree(nodeList[i].id);
        if degree.OutOfRange? {
          assert Degree(State(), nodeList[i].id) == 0;
          DegreeScanIsMax(State(), |nodeList|);
          return OutOfRange(degree.message);
        }
        maxDegree := Max(maxDegree, degree.value);
        i := i + 1;
      }
      r := Ok(maxDegree);
      DegreeScanIsMax(State(), |nodeList|);
    }

    /**
     * coloring: graphDegree() first (its out_of_range propagates with no change),
     * then node k gets ColorAt(k, graphDegree() + 1) in list order.
     */
    method Coloring() returns (r: Result<()>)
      modifies this
      ensures edgeList == old(edgeList)
      ensures GraphModel.GraphDegree(old(State())).OutOfRange? ==>
        r == OutOfRange(NodeNotFound) && nodeList == old(nodeList)
      ensures GraphModel.GraphDegree(old(State())).Ok? ==>
        var maxColor := GraphModel.GraphDegree(old(State())).value + 1;
        r == Ok(()) && |nodeList| == old(|nodeList|) &&
        forall k {:trigger nodeList[k]} :: 0 <= k < |nodeList| ==>
          nodeList[k] == old(nodeList[k]).(color := ColorAt(k, maxColor)) &&
          1 <= nodeList[k].color <= maxColor
      ensures old(Valid()) ==> Valid()
    {
      ghost var s := State();
      var degree := GraphDegree();
      if degree.OutOfRange? {
        DegreeScanIsMax(s, |s.nodes|);
        return OutOfRange(degree.message);
      }
      Recolor(degree.value + 1);
      r := Ok(());
    }

    /**
     * coloring's loop: the counter starts at 1, node k gets it, and it wraps to
     * 1 before the increment once it reaches maxColor; so node k gets ColorAt(k, maxColor).
     */
    method Recolor(maxColor: int)
      modifies this
      ensures edgeList == old(edgeList) && |nodeList| == old(|nodeList|)
      ensures forall k {:trigger nodeList[k]} :: 0 <= k < |nodeList| ==>
        nodeList[k] == old(nodeList[k]).(color := ColorAt(k, maxColor))
      ensures maxColor >= 2 ==> forall k {:trigger nodeList[k]} :: 0 <= k < |nodeList| ==>
        1 <= nodeList[k].color <= maxColor
      ensures old(Valid()) ==> Valid()
    {
      ghost var s := State();
      var color := 1;
      var k := 0;
      while k < |nodeList|
        invariant 0 <= k <= |nodeList| == |s.nodes|
        invariant edgeList == s.edges
        invariant color == ColorAt(k, maxColor)
        invariant forall j {:trigger nodeList[j]} :: 0 <= j < k ==> nodeList[j] == s.nodes[j].(color := ColorAt(j, maxColor))
        invariant forall j :: k <= j < |nodeList| ==> nodeList[j] == s.nodes[j]
      {
        nodeList := nodeList[k := nodeList[k].(color := color)];
        if nodeList[k].color >= maxColor {
          color := 1;
        }
        color := color + 1;
        k := k + 1;
      }
      if maxColor >= 2 {
        forall j | 0 <= j < |nodeList| ensures 1 <= nodeList[j].color <= maxColor {
          assert nodeList[j].color == ColorAt(j, maxColor);
        }
      }
      if WellFormed(s) {
        RecolorPreserves(s, nodeList);
      }
    }

    /** clear: both lists emptied. */
    method Clear()
      modifies this
      ensures nodeList == [] && edgeList == []
      ensures Valid()
    {
      nodeList := [];
      edgeList := [];
    }
  }
}
