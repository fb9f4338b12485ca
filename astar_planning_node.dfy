/** The A* planning node (aStar/planning_node.go). A planning node is one vertex
    of the search tree: the graph node it stands on, its predecessor in the
    plan, the accumulated cost from the start (CostToGo) and that cost plus the
    heuristic estimate (HeuristicCost). The source links nodes by pointers; the
    model keeps them in an arena, SearchTree, where a node names its
    predecessor by index and every predecessor sits at a smaller index. */
module AStar {
  import opened Wrappers
  import opened PositionGraphs

  /** The heuristic estimate of the remaining cost, by node id. */
  type Heuristic = int -> real

  datatype PlanningNode = PlanningNode(current: GraphNode, previous: Option<nat>, costToGo: real, heuristicCost: real)
  {
    /** Cost: the heuristic cost, which is what the frontier would order by. */
    function Cost(): (c: real)
      ensures c == heuristicCost
    {
      heuristicCost
    }
  }

  /** Every predecessor sits at a smaller index than its successor, so
      following predecessors always ends. */
  predicate Linked(nodes: seq<PlanningNode>)
  {
    forall k :: 0 <= k < |nodes| && nodes[k].previous.Some? ==> nodes[k].previous.value < k
  }

  /** The graph nodes of a stretch of the arena, in order. */
  function Currents(nodes: seq<PlanningNode>): (r: seq<GraphNode>)
    ensures |r| == |nodes|
    ensures forall i :: 0 <= i < |nodes| ==> r[i] == nodes[i].current
  {
    seq(|nodes|, i requires 0 <= i < |nodes| => nodes[i].current)
  }

  /** The planning node that Expand creates for neighbour n of the parent
      stored at parentIndex, once UpdateCosts has run on it: the parent's
      CostToGo plus the weight of the edge to n, and the heuristic of n on
      top of that. */
  function ChildOf(parent: PlanningNode, parentIndex: nat, n: GraphNode, w: Weights, h: Heuristic): PlanningNode
  {
    var g := parent.costToGo + w(parent.current.id, n.id);
    PlanningNode(n, Some(parentIndex), g, h(n.id) + g)
  }

  /** The children Expand makes for the nodes of out, in order. */
  function Children(parent: PlanningNode, parentIndex: nat, out: seq<GraphNode>, w: Weights, h: Heuristic): (r: seq<PlanningNode>)
    ensures |r| == |out|
    ensures forall i :: 0 <= i < |out| ==> r[i] == ChildOf(parent, parentIndex, out[i], w, h)
  {
    seq(|out|, i requires 0 <= i < |out| => ChildOf(parent, parentIndex, out[i], w, h))
  }

  /** A child's heuristic cost is its CostToGo plus the heuristic at its node,
      so it is never below its CostToGo when the heuristic is non-negative, and
      the child's CostToGo is never below its parent's when weights are
      non-negative. */
  lemma ChildCosts(parent: PlanningNode, parentIndex: nat, n: GraphNode, w: Weights, h: Heuristic)
    ensures ChildOf(parent, parentIndex, n, w, h).Cost() == h(n.id) + ChildOf(parent, parentIndex, n, w, h).costToGo
    ensures h(n.id) >= 0.0 ==> ChildOf(parent, parentIndex, n, w, h).Cost() >= ChildOf(parent, parentIndex, n, w, h).costToGo
    ensures w(parent.current.id, n.id) >= 0.0 ==> ChildOf(parent, parentIndex, n, w, h).costToGo >= parent.costToGo
  {
  }

  /** The arena of planning nodes made during one search. */
  class SearchTree {
    var nodes: seq<PlanningNode>

    constructor ()
      ensures nodes == []
    {
      nodes := [];
    }

    /** Allocates a planning node: it goes at the end of the arena. */
    method Allocate(n: PlanningNode) returns (index: nat)
      modifies this
      ensures index == old(|nodes|)
      ensures nodes == old(nodes) + [n]
    {
      index := |nodes|;
      nodes := nodes + [n];
    }

    /** What CalculateCostToGo needs of node k: a predecessor, if k has one,
        that is in the arena and joined to k by a stored edge in one direction
        or the other (otherwise the source's type assertion panics). */
    predicate CostInputsPresent(k: nat, g: PositionGraph)
      reads this, g
      requires k < |nodes|
    {
      match nodes[k].previous
      case None => true
      case Some(p) => p < |nodes| && g.EdgeBetween(nodes[p].current.id, nodes[k].current.id).Some?
    }

    /** CalculateCostToGo: 0 at the root; otherwise the predecessor's
        CostToGo plus the weight of the edge EdgeBetween finds between the
        predecessor and this node, which is the forward edge when there is
        one. */
    function CalculateCostToGo(k: nat, g: PositionGraph, w: Weights): (c: real)
      reads this, g
      requires k < |nodes| && CostInputsPresent(k, g)
      ensures match nodes[k].previous
              case None => c == 0.0
              case Some(p) =>
                var from, to := nodes[p].current.id, nodes[k].current.id;
                c == nodes[p].costToGo + (if g.HasEdge(from, to) then w(from, to) else w(to, from))
    {
      match nodes[k].previous
      case None => 0.0
      case Some(p) =>
        var lastEdge := g.WeightedEdgeBetween(nodes[p].current.id, nodes[k].current.id);
        nodes[p].costToGo + lastEdge.value.Weight(w)
    }

    /** CalculateHeuristicCost: the heuristic at node k plus its CostToGo,
        which must already be up to date. */
    function CalculateHeuristicCost(k: nat, h: Heuristic): (f: real)
      reads this
      requires k < |nodes|
      ensures f - nodes[k].costToGo == h(nodes[k].current.id)
      ensures h(nodes[k].current.id) >= 0.0 ==> f >= nodes[k].costToGo
    {
      h(nodes[k].current.id) + nodes[k].costToGo
    }

    /** UpdateCosts: sets CostToGo, then HeuristicCost from the new CostToGo;
        nothing else changes. */
    method UpdateCosts(k: nat, g: PositionGraph, w: Weights, h: Heuristic)
      requires k < |nodes| && CostInputsPresent(k, g)
      modifies this
      ensures var c := old(CalculateCostToGo(k, g, w));
              nodes == old(nodes)[k := old(nodes[k]).(costToGo := c, heuristicCost := h(old(nodes[k]).current.id) + c)]
    {
      var c := CalculateCostToGo(k, g, w);
      nodes := nodes[k := nodes[k].(costToGo := c)];
      var f := CalculateHeuristicCost(k, h);
      nodes := nodes[k := nodes[k].(heuristicCost := f)];
    }

    /** One round of Expand's loop: allocates a planning node for neighbour n
        with k as predecessor, then sets its costs with UpdateCosts. */
    method AddChild(k: nat, n: GraphNode, g: PositionGraph, w: Weights, h: Heuristic) returns (index: nat)
      requires k < |nodes| && g.HasEdge(nodes[k].current.id, n.id)
      modifies this
      ensures index == old(|nodes|)
      ensures nodes == old(nodes) + [ChildOf(old(nodes[k]), k, n, w, h)]
    {
      index := Allocate(PlanningNode(n, Some(k), 0.0, 0.0));
      UpdateCosts(index, g, w, h);
    }

    /** Expand: one new planning node per node From yields for the node k
        stands on, each with k as predecessor and its costs set by
        UpdateCosts. The nodes already in the arena, k among them, are left as
        they were. A node with no outgoing stored edge yields nothing. */
    method Expand(k: nat, g: PositionGraph, w: Weights, h: Heuristic) returns (expanded: seq<nat>)
      requires g.Valid()
      requires k < |nodes| && nodes[k].current.id in g.nodes
      modifies this
      ensures |nodes| == old(|nodes|) + |expanded|
      ensures nodes[..old(|nodes|)] == old(nodes)
      ensures forall j :: 0 <= j < |expanded| ==> expanded[j] == old(|nodes|) + j
      ensures multiset(Currents(nodes[old(|nodes|)..])) == g.OutNodes(old(nodes[k]).current.id)
      ensures forall j :: old(|nodes|) <= j < |nodes| ==>
                && nodes[j] == ChildOf(old(nodes[k]), k, nodes[j].current, w, h)
                && g.HasEdge(old(nodes[k]).current.id, nodes[j].current.id)
                && nodes[j].current.id in g.nodes && g.nodes[nodes[j].current.id] == nodes[j].current
      ensures (forall n :: n !in g.OutNodes(old(nodes[k]).current.id)) ==> expanded == []
    {
      var parent := nodes[k];
      var neighbours := g.From(parent.current.id);
      var out := neighbours.value;
      g.OutNodesAll(parent.current.id, out);
      ghost var base := |nodes|;
      expanded := [];
      for i := 0 to |out|
        invariant nodes == old(nodes) + Children(parent, k, out[..i], w, h)
        invariant |expanded| == i && forall j :: 0 <= j < i ==> expanded[j] == base + j
      {
        var expandedNode := AddChild(k, out[i], g, w, h);
        assert Children(parent, k, out[..i + 1], w, h) == Children(parent, k, out[..i], w, h) + [ChildOf(parent, k, out[i], w, h)];
        expanded := expanded + [expandedNode];
      }
      assert out[..|out|] == out;
      assert Currents(nodes[base..]) == out;
      if |out| > 0 {
        assert out[0] in multiset(out);
      }
    }
  }
}
