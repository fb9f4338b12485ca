/** The position graph (positionGraph/graph.go and positionGraph/edge.go): a
    table of nodes keyed by id and a table of directed edges keyed by insertion
    index. Neighbour scans, edge lookups and weights are read off these two
    tables; the graph's methods add nodes and edges in place. */
module PositionGraphs {
  import opened Wrappers
  import opened Geometry

  /** A node of the graph: its id and its position. */
  datatype GraphNode = GraphNode(id: int, position: Position)

  /** What a graph operation fails with: NodeNotFoundError{id} for an unknown
      id, and NilEdge for the run-time panic of the type assertion that
      WeightedEdge and WeightedEdgeBetween apply to a nil edge. */
  datatype GraphError = NodeNotFound(id: int) | NilEdge(from: int, to: int)

  /** Edge weights, as a function of the two endpoint ids. */
  type Weights = (int, int) -> real

  /** An edge: the graph it belongs to and the ids of its two endpoints. */
  datatype PGEdge = PGEdge(graph: PositionGraph, from: int, to: int) {

    /** The node the edge leaves, looked up in its graph (nil when absent). */
    function From(): (r: Option<GraphNode>)
      reads graph
      ensures r.Some? <==> from in graph.nodes
      ensures r.Some? ==> r.value == graph.nodes[from]
    {
      if from in graph.nodes then Some(graph.nodes[from]) else None
    }

    /** The node the edge enters, looked up in its graph (nil when absent). */
    function To(): (r: Option<GraphNode>)
      reads graph
      ensures r.Some? <==> to in graph.nodes
      ensures r.Some? ==> r.value == graph.nodes[to]
    {
      if to in graph.nodes then Some(graph.nodes[to]) else None
    }

    /** A fresh edge of the same graph running the other way: it leaves the
        node this edge enters and enters the node this edge leaves. */
    function ReversedEdge(): (r: PGEdge)
      reads graph
      ensures r.graph == graph
      ensures r.From() == To() && r.To() == From()
    {
      PGEdge(graph, to, from)
    }

    /** The edge's weight: the weight between its endpoints, in its own
        direction, which is their Euclidean distance when the graph's weights
        are Euclidean. */
    function Weight(w: Weights): (r: real)
      reads graph
      ensures graph.EuclideanWeights(w) && from in graph.nodes && to in graph.nodes ==>
                |graph.nodes[from].position| == |graph.nodes[to].position| &&
                IsEuclidean(r, graph.nodes[from].position, graph.nodes[to].position)
    {
      w(from, to)
    }
  }

  /** Reversing an edge swaps its endpoints, keeps its graph, and reversing
      twice gives the edge back. */
  lemma ReversedEdgeInvolution(e: PGEdge)
    ensures e.ReversedEdge().graph == e.graph
    ensures e.ReversedEdge().from == e.to && e.ReversedEdge().to == e.from
    ensures e.ReversedEdge().ReversedEdge() == e
  {
  }

  /** Within one graph the weight depends on nothing but the two endpoints:
      two edges of the graph joining the same pair in the same direction
      weigh the same. */
  lemma SameEndpointsSameWeight(e1: PGEdge, e2: PGEdge, w: Weights)
    requires e1.graph == e2.graph
    requires e1.from == e2.from && e1.to == e2.to
    ensures e1.Weight(w) == e2.Weight(w)
  {
  }

  /** The targets of the edges of a table leaving id, one per edge, read
      from the node table. */
  ghost function OutOf(nodes: map<int, GraphNode>, edges: map<int, PGEdge>, id: int): multiset<GraphNode>
  {
    Targets(nodes, edges, edges.Keys, id)
  }

  /** What the edge stored under key k adds to the scan of From(id): its target
      node when it leaves id, nothing otherwise. */
  function Contribution(nodes: map<int, GraphNode>, edges: map<int, PGEdge>, k: int, id: int): multiset<GraphNode>
  {
    if k in edges && edges[k].from == id && edges[k].to in nodes
    then multiset{nodes[edges[k].to]}
    else multiset{}
  }

  /** A non-empty set has a member. */
  lemma HasMember(s: set<int>)
    requires s != {}
    ensures exists k :: k in s
  {
    if forall k :: k !in s {
      assert false;
    }
  }

  /** Some key of a non-empty set; the scans below visit keys in no fixed
      order, as a Go map range does. */
  ghost function Pick(keys: set<int>): (k: int)
    requires keys != {}
    ensures k in keys
  {
    HasMember(keys);
    var k :| k in keys; k
  }

  /** The targets contributed by the edges stored under the given keys, one
      per edge. */
  ghost function Targets(nodes: map<int, GraphNode>, edges: map<int, PGEdge>, keys: set<int>, id: int): multiset<GraphNode>
    decreases keys
  {
    if keys == {} then multiset{}
    else
      var k := Pick(keys);
      Contribution(nodes, edges, k, id) + Targets(nodes, edges, keys - {k}, id)
  }

  /** The order in which keys are visited does not matter: any key can be
      taken out first. */
  lemma {:induction false} TargetsRemove(nodes: map<int, GraphNode>, edges: map<int, PGEdge>, keys: set<int>, id: int, k: int)
    requires k in keys
    ensures Targets(nodes, edges, keys, id) == Contribution(nodes, edges, k, id) + Targets(nodes, edges, keys - {k}, id)
    decreases keys
  {
    var j := Pick(keys);
    if j != k {
      calc {
        Targets(nodes, edges, keys, id);
        Contribution(nodes, edges, j, id) + Targets(nodes, edges, keys - {j}, id);
        { TargetsRemove(nodes, edges, keys - {j}, id, k); }
        Contribution(nodes, edges, j, id) + Contribution(nodes, edges, k, id) + Targets(nodes, edges, keys - {j} - {k}, id);
        { assert keys - {j} - {k} == keys - {k} - {j}; }
        Contribution(nodes, edges, k, id) + (Contribution(nodes, edges, j, id) + Targets(nodes, edges, keys - {k} - {j}, id));
        { TargetsRemove(nodes, edges, keys - {k}, id, j); }
        Contribution(nodes, edges, k, id) + Targets(nodes, edges, keys - {k}, id);
      }
    }
  }

  /** A node is among the targets exactly when some edge under one of the keys
      leaves id and enters that node. */
  lemma {:induction false} TargetsMember(nodes: map<int, GraphNode>, edges: map<int, PGEdge>, keys: set<int>, id: int, n: GraphNode)
    ensures n in Targets(nodes, edges, keys, id) <==>
            exists k :: k in keys && k in edges && edges[k].from == id && edges[k].to in nodes && nodes[edges[k].to] == n
    decreases keys
  {
    if keys != {} {
      var j := Pick(keys);
      TargetsMember(nodes, edges, keys - {j}, id, n);
      if n in Contribution(nodes, edges, j, id) {
        assert j in keys && j in edges && edges[j].from == id && edges[j].to in nodes && nodes[edges[j].to] == n;
      }
    }
  }

  /** Inserting a node under the next free id keeps the ids of a table
      numbered 0 .. size-1 and grows it by one. */
  lemma DenseInsert(m: map<int, GraphNode>, n: GraphNode, grown: map<int, GraphNode>)
    requires forall id :: id in m <==> 0 <= id < |m|
    requires n.id == |m| && grown == m[n.id := n]
    ensures forall id :: id in grown <==> 0 <= id < |grown|
    ensures |grown| == |m| + 1
  {
    assert n.id !in m;
    assert grown.Keys == m.Keys + {n.id};
  }

  /** Some edge of the table leaves from and enters to. */
  predicate EdgeIn(edges: map<int, PGEdge>, from: int, to: int)
  {
    exists k :: k in edges && edges[k].from == from && edges[k].to == to
  }

  /** The position graph: node id to node, edge index to edge. */
  class PositionGraph {
    var nodes: map<int, GraphNode>
    var edges: map<int, PGEdge>

    /** Every node is stored under its own id, edges are stored under the
        indices 0 .. |edges|-1, and every edge belongs to this graph and joins
        two stored nodes. */
    ghost predicate Valid()
      reads this
    {
      && (forall id :: id in nodes ==> nodes[id].id == id)
      && (forall k :: k in edges <==> 0 <= k < |edges|)
      && (forall k :: k in edges ==> edges[k].graph == this && edges[k].from in nodes && edges[k].to in nodes)
    }

    /** The node ids are exactly 0 .. |nodes|-1, as when every node was added
        with AddNodeAt. */
    ghost predicate NodeIdsDense()
      reads this
    {
      forall id :: id in nodes <==> 0 <= id < |nodes|
    }

    /** NewPositionGraph: no nodes and no edges. */
    constructor ()
      ensures Valid() && NodeIdsDense()
      ensures nodes == map[] && edges == map[]
    {
      nodes := map[];
      edges := map[];
    }

    /** Node(id): the stored node, or NodeNotFoundError{id}. */
    function Node(id: int): (r: Result<GraphNode, GraphError>)
      reads this
      ensures r.Success? <==> id in nodes
      ensures r.Success? ==> r.value == nodes[id]
      ensures r.Success? && Valid() ==> r.value.id == id
      ensures r.Failure? ==> r.error == NodeNotFound(id)
    {
      if id in nodes then Success(nodes[id]) else Failure(NodeNotFound(id))
    }

    /** Some stored edge leaves from and enters to. */
    predicate HasEdge(from: int, to: int)
      reads this
    {
      EdgeIn(edges, from, to)
    }

    /** The targets of the stored edges leaving id, one per edge. */
    ghost function OutNodes(id: int): multiset<GraphNode>
      reads this
    {
      OutOf(nodes, edges, id)
    }

    /** A node is an out-neighbour of id exactly when it is stored and some
        stored edge runs from id to it. */
    lemma OutNodesMember(id: int, n: GraphNode)
      requires Valid()
      ensures n in OutNodes(id) <==> n.id in nodes && nodes[n.id] == n && HasEdge(id, n.id)
    {
      TargetsMember(nodes, edges, edges.Keys, id, n);
      if n.id in nodes && nodes[n.id] == n && HasEdge(id, n.id) {
        var k :| k in edges && edges[k].from == id && edges[k].to == n.id;
        assert k in edges.Keys && edges[k].to in nodes && nodes[edges[k].to] == n;
      }
    }

    /** Every element of a sequence holding exactly the out-neighbours of id
        is a stored node that a stored edge from id leads to. */
    lemma OutNodesAll(id: int, s: seq<GraphNode>)
      requires Valid() && multiset(s) == OutNodes(id)
      ensures forall i :: 0 <= i < |s| ==> s[i].id in nodes && nodes[s[i].id] == s[i] && HasEdge(id, s[i].id)
    {
      forall i | 0 <= i < |s|
        ensures s[i].id in nodes && nodes[s[i].id] == s[i] && HasEdge(id, s[i].id)
      {
        assert s[i] in multiset(s);
        OutNodesMember(id, s[i]);
      }
    }

    /** From(id): scans every stored edge, in no fixed order, and collects the
        target of each edge that leaves id. */
    method From(id: int) returns (r: Result<seq<GraphNode>, GraphError>)
      requires Valid()
      ensures id !in nodes ==> r == Failure(NodeNotFound(id))
      ensures id in nodes ==> r.Success? && multiset(r.value) == OutNodes(id)
    {
      if id !in nodes {
        return Failure(NodeNotFound(id));
      }
      var out: seq<GraphNode> := [];
      var remaining := edges.Keys;
      while remaining != {}
        invariant remaining <= edges.Keys
        invariant multiset(out) + Targets(nodes, edges, remaining, id) == OutNodes(id)
        decreases remaining
      {
        HasMember(remaining);
        var k :| k in remaining;
        TargetsRemove(nodes, edges, remaining, id, k);
        var e := edges[k];
        if e.From().value.id == id {
          out := out + [e.To().value];
        }
        remaining := remaining - {k};
      }
      return Success(out);
    }

    /** HasEdgeBetween(from, to): scans the stored edges until one runs from
        from to to; direction matters. */
    method HasEdgeBetween(from: int, to: int) returns (b: bool)
      requires Valid()
      ensures b <==> HasEdge(from, to)
    {
      var remaining := edges.Keys;
      while remaining != {}
        invariant remaining <= edges.Keys
        invariant forall k :: k in edges.Keys - remaining ==> !(edges[k].from == from && edges[k].to == to)
        decreases remaining
      {
        HasMember(remaining);
        var k :| k in remaining;
        var e := edges[k];
        if e.From().value.id == from && e.To().value.id == to {
          return true;
        }
        remaining := remaining - {k};
      }
      return false;
    }

    /** The edge Edge(from, to) finds: the stored edge from from to to, or
        nil. Every such edge is the same value. */
    function StoredEdge(from: int, to: int): Option<PGEdge>
      reads this
    {
      if HasEdge(from, to) then Some(PGEdge(this, from, to)) else None
    }

    /** Edge(from, to): scans the stored edges until one runs from from to to
        and returns it, or nil. */
    method Edge(from: int, to: int) returns (r: Option<PGEdge>)
      requires Valid()
      ensures r.Some? <==> HasEdge(from, to)
      ensures r.Some? ==> r.value in edges.Values && r.value.from == from && r.value.to == to
      ensures r == StoredEdge(from, to)
    {
      var remaining := edges.Keys;
      while remaining != {}
        invariant remaining <= edges.Keys
        invariant forall k :: k in edges.Keys - remaining ==> !(edges[k].from == from && edges[k].to == to)
        decreases remaining
      {
        HasMember(remaining);
        var k :| k in remaining;
        var e := edges[k];
        if e.From().value.id == from && e.To().value.id == to {
          return Some(e);
        }
        remaining := remaining - {k};
      }
      return None;
    }

    /** WeightedEdge(from, to): the edge from Edge, or the panic of the type
        assertion when Edge returns nil. */
    function WeightedEdge(from: int, to: int): (r: Result<PGEdge, GraphError>)
      reads this
      ensures r.Success? <==> HasEdge(from, to)
      ensures r.Success? ==> r.value.from == from && r.value.to == to
      ensures r.Failure? ==> r.error == NilEdge(from, to)
    {
      match StoredEdge(from, to)
      case Some(e) => Success(e)
      case None => Failure(NilEdge(from, to))
    }

    /** Weight(xid, yid): the weight of the edge from xid to yid, found. The
        (1e10, false) answer for a missing edge is never reached: the type
        assertion in WeightedEdge panics first. */
    function Weight(xid: int, yid: int, w: Weights): (r: Result<(real, bool), GraphError>)
      reads this
      ensures r.Success? <==> HasEdge(xid, yid)
      ensures r.Success? ==> r.value == (w(xid, yid), true)
      ensures r.Failure? ==> r.error == NilEdge(xid, yid)
    {
      match WeightedEdge(xid, yid)
      case Failure(err) => Failure(err)
      case Success(e) => Success((e.Weight(w), true))
    }

    /** What Weight evidently means to answer: the edge's weight and true
        when an edge runs from xid to yid, and (1e10, false) when none does. */
    function WeightOrMissing(xid: int, yid: int, w: Weights): (r: (real, bool))
      reads this
      ensures r.1 <==> HasEdge(xid, yid)
      ensures r.1 ==> r.0 == w(xid, yid)
      ensures !r.1 ==> r.0 == 10000000000.0
    {
      match StoredEdge(xid, yid)
      case Some(e) => (e.Weight(w), true)
      case None => (10000000000.0, false)
    }

    /** Where Weight answers, WeightOrMissing gives the same answer; exactly
        where Weight fails with NilEdge, WeightOrMissing reports the missing
        edge with false. */
    lemma WeightOrMissingAgrees(xid: int, yid: int, w: Weights)
      ensures Weight(xid, yid, w).Success? ==> WeightOrMissing(xid, yid, w) == Weight(xid, yid, w).value
      ensures Weight(xid, yid, w).Failure? <==> !WeightOrMissing(xid, yid, w).1
    {
    }

    /** EdgeBetween(from, to): Edge(from, to), or else Edge(to, from). */
    function EdgeBetween(from: int, to: int): (r: Option<PGEdge>)
      reads this
      ensures r.Some? <==> HasEdge(from, to) || HasEdge(to, from)
      ensures HasEdge(from, to) ==> r == Some(PGEdge(this, from, to))
      ensures !HasEdge(from, to) && HasEdge(to, from) ==> r == Some(PGEdge(this, to, from))
    {
      var forward := StoredEdge(from, to);
      if forward.Some? then forward else StoredEdge(to, from)
    }

    /** Whether an edge is found does not depend on the order of the ids. */
    lemma EdgeBetweenSymmetric(a: int, b: int)
      ensures EdgeBetween(a, b).Some? <==> EdgeBetween(b, a).Some?
      ensures EdgeBetween(a, b).Some? ==>
                (EdgeBetween(b, a) == EdgeBetween(a, b) ||
                 EdgeBetween(b, a) == Some(EdgeBetween(a, b).value.ReversedEdge()))
    {
    }

    /** WeightedEdgeBetween(from, to): the edge from EdgeBetween, or the panic
        of the type assertion when neither direction is stored. */
    function WeightedEdgeBetween(from: int, to: int): (r: Result<PGEdge, GraphError>)
      reads this
      ensures r.Success? <==> HasEdge(from, to) || HasEdge(to, from)
      ensures r.Success? ==> (r.value.from == from && r.value.to == to) || (r.value.from == to && r.value.to == from)
      ensures r.Failure? ==> r.error == NilEdge(from, to)
    {
      match EdgeBetween(from, to)
      case Some(e) => Success(e)
      case None => Failure(NilEdge(from, to))
    }

    /** The weights are the Euclidean distances between the stored nodes'
        positions. */
    ghost predicate EuclideanWeights(w: Weights)
      reads this
    {
      forall a, b :: a in nodes && b in nodes ==>
        |nodes[a].position| == |nodes[b].position| &&
        IsEuclidean(w(a, b), nodes[a].position, nodes[b].position)
    }

    /** Euclidean weights are non-negative and the same in both directions, so
        an edge and its reverse weigh the same. */
    lemma EuclideanWeightsSymmetric(w: Weights, a: int, b: int)
      requires EuclideanWeights(w)
      requires a in nodes && b in nodes
      ensures w(a, b) >= 0.0 && w(a, b) == w(b, a)
      ensures PGEdge(this, a, b).Weight(w) == PGEdge(this, a, b).ReversedEdge().Weight(w)
    {
      EuclideanIsSymmetric(w(a, b), w(b, a), nodes[a].position, nodes[b].position);
    }

    /** AddNode(n): stores n under its id, replacing any node already there. */
    method AddNode(n: GraphNode)
      requires Valid()
      modifies this
      ensures Valid()
      ensures nodes == old(nodes)[n.id := n] && edges == old(edges)
    {
      nodes := nodes[n.id := n];
    }

    /** AddNodeAt(position): a node whose id is the node count before the call. */
    method AddNodeAt(position: Position) returns (n: GraphNode)
      requires Valid()
      modifies this
      ensures Valid()
      ensures n == GraphNode(old(|nodes|), position)
      ensures nodes == old(nodes)[n.id := n] && edges == old(edges)
      ensures old(NodeIdsDense()) ==> NodeIdsDense() && |nodes| == old(|nodes|) + 1
    {
      var nextIndex := |nodes|;
      n := GraphNode(nextIndex, position);
      AddNode(n);
      if old(NodeIdsDense()) {
        DenseInsert(old(nodes), n, nodes);
      }
    }

    /** AddEdge(e): stores e under the edge count before the call; duplicates
        are stored too. */
    method AddEdge(e: PGEdge)
      requires Valid()
      requires e.graph == this && e.from in nodes && e.to in nodes
      modifies this
      ensures Valid()
      ensures edges == old(edges)[old(|edges|) := e] && nodes == old(nodes)
      ensures |edges| == old(|edges|) + 1
    {
      var nextIndex := |edges|;
      assert nextIndex !in edges;
      assert edges[nextIndex := e].Keys == edges.Keys + {nextIndex};
      edges := edges[nextIndex := e];
    }

    /** AddEdgeBetween(from, to): builds the edge from from to to on this graph
        and adds it. */
    method AddEdgeBetween(from: GraphNode, to: GraphNode) returns (e: PGEdge)
      requires Valid()
      requires from.id in nodes && to.id in nodes
      modifies this
      ensures Valid()
      ensures e == PGEdge(this, from.id, to.id)
      ensures edges == old(edges)[old(|edges|) := e] && nodes == old(nodes)
      ensures |edges| == old(|edges|) + 1
      ensures HasEdge(from.id, to.id)
    {
      e := PGEdge(this, from.id, to.id);
      AddEdge(e);
      assert edges[old(|edges|)] == e;
    }
  }

  /** A fresh graph numbers the nodes AddNodeAt creates 0, 1, 2, ... */
  method NumberedFromZero(p0: Position, p1: Position, p2: Position) returns (n0: GraphNode, n1: GraphNode, n2: GraphNode)
    ensures n0.id == 0 && n1.id == 1 && n2.id == 2
    ensures n0.position == p0 && n1.position == p1 && n2.position == p2
  {
    var g := new PositionGraph();
    n0 := g.AddNodeAt(p0);
    n1 := g.AddNodeAt(p1);
    n2 := g.AddNodeAt(p2);
  }
}
