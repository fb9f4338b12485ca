/** The Dijkstra planning node (planning/djikstra/planning_node.go): the A*
    planning node without a heuristic. Its cost is the accumulated CostToGo.
    Nodes live in an arena, as in module AStar, and name their predecessor by
    index. The source's djikstra package repeats the aStar package's code for
    its own node type, so Currents and CalculateCostToGo here repeat those of
    module AStar for this node type. */
module Dijkstra {
  import opened Wrappers
  import opened PositionGraphs
  import AStar

  datatype PlanningNode = PlanningNode(current: GraphNode, previous: Option<nat>, costToGo: real)
  {
    /** Cost: the accumulated cost from the start. */
    function Cost(): (c: real)
      ensures c == costToGo
    {
      costToGo
    }
  }

  /** The graph nodes of a stretch of the arena, in order. */
  function Currents(nodes: seq<PlanningNode>): (r: seq<GraphNode>)
    ensures |r| == |nodes|
    ensures forall i :: 0 <= i < |nodes| ==> r[i] == nodes[i].current
  {
    seq(|nodes|, i requires 0 <= i < |nodes| => nodes[i].current)
  }

  /** The planning node that Expand creates for neighbour n of the parent
      stored at parentIndex: the parent's CostToGo plus the weight of the edge
      to n. */
  function ChildOf(parent: PlanningNode, parentIndex: nat, n: GraphNode, w: Weights): PlanningNode
  {
    PlanningNode(n, Some(parentIndex), parent.costToGo + w(parent.current.id, n.id))
  }

  /** The children Expand makes for the nodes of out, in order. */
  function Children(parent: PlanningNode, parentIndex: nat, out: seq<GraphNode>, w: Weights): (r: seq<PlanningNode>)
    ensures |r| == |out|
    ensures forall i :: 0 <= i < |out| ==> r[i] == ChildOf(parent, parentIndex, out[i], w)
  {
    seq(|out|, i requires 0 <= i < |out| => ChildOf(parent, parentIndex, out[i], w))
  }

  /** A child costs its parent's cost plus the weight of the edge between
      them, so never less than its parent when that weight is non-negative. */
  lemma ChildCostNotBelowParent(parent: PlanningNode, parentIndex: nat, n: GraphNode, w: Weights)
    ensures ChildOf(parent, parentIndex, n, w).Cost() - parent.Cost() == w(parent.current.id, n.id)
    ensures w(parent.current.id, n.id) >= 0.0 ==> ChildOf(parent, parentIndex, n, w).Cost() >= parent.Cost()
  {
  }

  /** With a heuristic that is zero everywhere, the A* child of a parent and
      the Dijkstra child of a parent on the same node with the same CostToGo
      stand on the same node, have the same predecessor, and have the same
      Cost: A* degenerates to Dijkstra's cost bookkeeping. */
  lemma ZeroHeuristicAgrees(ap: AStar.PlanningNode, dp: PlanningNode, parentIndex: nat, n: GraphNode, w: Weights, h: AStar.Heuristic)
    requires ap.current == dp.current && ap.costToGo == dp.costToGo
    requires h(n.id) == 0.0
    ensures AStar.ChildOf(ap, parentIndex, n, w, h).current == ChildOf(dp, parentIndex, n, w).current
    ensures AStar.ChildOf(ap, parentIndex, n, w, h).previous == ChildOf(dp, parentIndex, n, w).previous
    ensures AStar.ChildOf(ap, parentIndex, n, w, h).costToGo == ChildOf(dp, parentIndex, n, w).costToGo
    ensures AStar.ChildOf(ap, parentIndex, n, w, h).Cost() == ChildOf(dp, parentIndex, n, w).Cost()
  {
  }

  /** The arena of planning nodes made during one search. */
  class SearchTree {
    var nodes: seq<PlanningNode>

    constructor ()
      ensures nodes == []
    {
      nodes := [];
    }

    /** Allocates a planning node: it goes at the end of the arena. */
    method Allocate(n: PlanningNode) returns (index: nat)
      modifies this
      ensures index == old(|nodes|)
      ensures nodes == old(nodes) + [n]
    {
      index := |nodes|;
      nodes := nodes + [n];
    }

    /** What CalculateCostToGo needs of node k: a predecessor, if k has one,
        that is in the arena and joined to k by a stored edge in one direction
        or the other. */
    predicate CostInputsPresent(k: nat, g: PositionGraph)
      reads this, g
      requires k < |nodes|
    {
      match nodes[k].previous
      case None => true
      case Some(p) => p < |nodes| && g.EdgeBetween(nodes[p].current.id, nodes[k].current.id).Some?
    }

    /** CalculateCostToGo: 0 at the root; otherwise the predecessor's
        CostToGo plus the weight of the edge EdgeBetween finds, which is the
        forward edge when there is one. */
    function CalculateCostToGo(k: nat, g: PositionGraph, w: Weights): (c: real)
      reads this, g
      requires k < |nodes| && CostInputsPresent(k, g)
      ensures match nodes[k].previous
              case None => c == 0.0
              case Some(p) =>
                var from, to := nodes[p].current.id, nodes[k].current.id;
                c == nodes[p].costToGo + (if g.HasEdge(from, to) then w(from, to) else w(to, from))
    {
      match nodes[k].previous
      case None => 0.0
      case Some(p) =>
        var lastEdge := g.WeightedEdgeBetween(nodes[p].current.id, nodes[k].current.id);
        nodes[p].costToGo + lastEdge.value.Weight(w)
    }

    /** One round of Expand's loop: allocates a planning node for neighbour n
        with k as predecessor, then sets its CostToGo with CalculateCostToGo. */
    method AddChild(k: nat, n: GraphNode, g: PositionGraph, w: Weights) returns (index: nat)
      requires k < |nodes| && g.HasEdge(nodes[k].current.id, n.id)
      modifies this
      ensures index == old(|nodes|)
      ensures nodes == old(nodes) + [ChildOf(old(nodes[k]), k, n, w)]
    {
      index := Allocate(PlanningNode(n, Some(k), 0.0));
      var c := CalculateCostToGo(index, g, w);
      nodes := nodes[index := nodes[index].(costToGo := c)];
    }

    /** Expand: one new planning node per node From yields for the node k
        stands on, each with k as predecessor and its CostToGo set by
        CalculateCostToGo. The nodes already in the arena are left as they
        were. A node with no outgoing stored edge yields nothing. */
    method Expand(k: nat, g: PositionGraph, w: Weights) returns (expanded: seq<nat>)
      requires g.Valid()
      requires k < |nodes| && nodes[k].current.id in g.nodes
      modifies this
      ensures |nodes| == old(|nodes|) + |expanded|
      ensures nodes[..old(|nodes|)] == old(nodes)
      ensures forall j :: 0 <= j < |expanded| ==> expanded[j] == old(|nodes|) + j
      ensures multiset(Currents(nodes[old(|nodes|)..])) == g.OutNodes(old(nodes[k]).current.id)
      ensures forall j :: old(|nodes|) <= j < |nodes| ==>
                && nodes[j] == ChildOf(old(nodes[k]), k, nodes[j].current, w)
                && g.HasEdge(old(nodes[k]).current.id, nodes[j].current.id)
                && nodes[j].current.id in g.nodes && g.nodes[nodes[j].current.id] == nodes[j].current
      ensures (forall n :: n !in g.OutNodes(old(nodes[k]).current.id)) ==> expanded == []
    {
      var parent := nodes[k];
      var neighbours := g.From(parent.current.id);
      var out := neighbours.value;
      g.OutNodesAll(parent.current.id, out);
      ghost var base := |nodes|;
      expanded := [];
      for i := 0 to |out|
        invariant nodes == old(nodes) + Children(parent, k, out[..i], w)
        invariant |expanded| == i && forall j :: 0 <= j < i ==> expanded[j] == base + j
      {
        var expandedNode := AddChild(k, out[i], g, w);
        assert Children(parent, k, out[..i + 1], w) == Children(parent, k, out[..i], w) + [ChildOf(parent, k, out[i], w)];
        expanded := expanded + [expandedNode];
      }
      assert out[..|out|] == out;
      assert Currents(nodes[base..]) == out;
      if |out| > 0 {
        assert out[0] in multiset(out);
      }
    }
  }
}
