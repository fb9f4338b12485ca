/** The planner (aStar/plan.go): FindPlan grows a search tree from the start
    node, taking planning nodes from the frontier and expanding them until it
    takes one that stands on the goal, whose predecessor chain UnrollPlanFrom
    turns into a plan. The frontier is the planning heap, used as a stack;
    there is no visited set, so on a graph with a cycle the search may never
    end, and the model bounds it with fuel.

    The predicates below read the graph through its two tables, node id to
    node (gnodes) and edge index to edge (gedges), which FindPlan never
    changes. */
module AStarPlan {
  import opened Wrappers
  import opened PositionGraphs
  import opened AStar
  import opened PlanningHeaps

  /** A plan: the graph nodes from start to goal, and the CostToGo of the
      planning node it was unrolled from. */
  datatype Plan = Plan(sequence: seq<GraphNode>, costToGo: real)

  datatype SearchError =
    | GraphFailure(cause: GraphError)
    | NoPathFound(graph: PositionGraph)
    | FuelExhausted

  /** Consecutive nodes of s are joined by an edge of the table, in order. */
  predicate IsPath(gedges: map<int, PGEdge>, s: seq<GraphNode>)
  {
    forall i :: 0 <= i < |s| - 1 ==> EdgeIn(gedges, s[i].id, s[i + 1].id)
  }

  /** The end node can be reached from the start node along edges. */
  ghost predicate Reaches(gedges: map<int, PGEdge>, start: int, end: int)
  {
    exists s: seq<GraphNode> :: IsPath(gedges, s) && |s| > 0 && s[0].id == start && s[|s| - 1].id == end
  }

  /** The sum of the edge weights along s. */
  function PathCost(w: Weights, s: seq<GraphNode>): (c: real)
    ensures (forall i :: 0 <= i < |s| - 1 ==> w(s[i].id, s[i + 1].id) >= 0.0) ==> c >= 0.0
    decreases |s|
  {
    if |s| <= 1 then 0.0
    else PathCost(w, s[..|s| - 1]) + w(s[|s| - 2].id, s[|s| - 1].id)
  }

  /** What FindPlan promises of a plan it returns: it runs along stored edges
      from the start node to the goal node, and its cost is the sum of the
      weights along it. */
  predicate ValidPlan(gnodes: map<int, GraphNode>, gedges: map<int, PGEdge>, w: Weights, start: int, end: int, p: Plan)
  {
    && |p.sequence| > 0
    && start in gnodes && p.sequence[0] == gnodes[start]
    && end in gnodes && p.sequence[|p.sequence| - 1] == gnodes[end]
    && IsPath(gedges, p.sequence)
    && PathCost(w, p.sequence) == p.costToGo
  }

  /** A valid plan witnesses that the goal is reachable. */
  lemma ValidPlanReaches(gnodes: map<int, GraphNode>, gedges: map<int, PGEdge>, w: Weights, start: int, end: int, p: Plan)
    requires forall id :: id in gnodes ==> gnodes[id].id == id
    requires ValidPlan(gnodes, gedges, w, start, end, p)
    ensures Reaches(gedges, start, end)
  {
    var s := p.sequence;
    assert IsPath(gedges, s) && |s| > 0 && s[0].id == start && s[|s| - 1].id == end;
  }

  /** Every planning node stands on a node stored in the graph. */
  predicate OnGraph(gnodes: map<int, GraphNode>, arena: seq<PlanningNode>)
  {
    forall k :: 0 <= k < |arena| ==> arena[k].current.id in gnodes
  }

  /** What holds of every planning node FindPlan makes: it stands on a stored
      node; a root stands on the start node with CostToGo 0; any other node is
      joined to its predecessor by a stored edge from the predecessor, and its
      CostToGo is the predecessor's plus that edge's weight. */
  ghost predicate NodeOk(gnodes: map<int, GraphNode>, gedges: map<int, PGEdge>, w: Weights, start: int,
                         arena: seq<PlanningNode>, k: nat)
    requires k < |arena|
  {
    && arena[k].current.id in gnodes && gnodes[arena[k].current.id] == arena[k].current
    && match arena[k].previous
       case None => arena[k].current.id == start && arena[k].costToGo == 0.0
       case Some(p) =>
         && p < k
         && EdgeIn(gedges, arena[p].current.id, arena[k].current.id)
         && arena[k].costToGo == arena[p].costToGo + w(arena[p].current.id, arena[k].current.id)
  }

  ghost predicate SearchInvariant(gnodes: map<int, GraphNode>, gedges: map<int, PGEdge>, w: Weights, start: int,
                                  arena: seq<PlanningNode>)
  {
    && Linked(arena)
    && OnGraph(gnodes, arena)
    && forall k :: 0 <= k < |arena| ==> NodeOk(gnodes, gedges, w, start, arena, k)
  }

  /** The graph nodes from the root of i's chain to i, each looked up in the
      node table by the id of the planning node's current node. */
  ghost function Path(gnodes: map<int, GraphNode>, arena: seq<PlanningNode>, i: nat): (s: seq<GraphNode>)
    requires i < |arena| && Linked(arena) && OnGraph(gnodes, arena)
    ensures 0 < |s| <= i + 1
    ensures s[|s| - 1] == gnodes[arena[i].current.id]
    decreases i
  {
    match arena[i].previous
    case None => [gnodes[arena[i].current.id]]
    case Some(p) => Path(gnodes, arena, p) + [gnodes[arena[i].current.id]]
  }

  /** The path to an optional planning node: empty for none. */
  ghost function PathTo(gnodes: map<int, GraphNode>, arena: seq<PlanningNode>, pn: Option<nat>): seq<GraphNode>
    requires Linked(arena) && OnGraph(gnodes, arena)
    requires pn.Some? ==> pn.value < |arena|
  {
    if pn.Some? then Path(gnodes, arena, pn.value) else []
  }

  /** s backwards. */
  function Reversed<T>(s: seq<T>): (r: seq<T>)
    ensures |r| == |s|
    ensures forall i :: 0 <= i < |s| ==> r[i] == s[|s| - 1 - i]
  {
    if s == [] then [] else Reversed(s[1..]) + [s[0]]
  }

  /** Appending to a sequence puts the element at the front of its reversal. */
  lemma ReversedAppend<T>(s: seq<T>, x: T)
    ensures Reversed(s + [x]) == [x] + Reversed(s)
  {
    assert forall i :: 0 <= i < |s| + 1 ==> Reversed(s + [x])[i] == ([x] + Reversed(s))[i];
  }

  /** Along the chain of a node of a search tree, the path starts at the
      start node, follows stored edges, ends at the node's own graph node, and
      costs exactly the node's CostToGo. */
  lemma {:induction false} PathFacts(gnodes: map<int, GraphNode>, gedges: map<int, PGEdge>, w: Weights, start: int,
                                     arena: seq<PlanningNode>, i: nat)
    requires forall id :: id in gnodes ==> gnodes[id].id == id
    requires SearchInvariant(gnodes, gedges, w, start, arena) && i < |arena|
    ensures start in gnodes && Path(gnodes, arena, i)[0] == gnodes[start]
    ensures Path(gnodes, arena, i)[|Path(gnodes, arena, i)| - 1].id == arena[i].current.id
    ensures IsPath(gedges, Path(gnodes, arena, i))
    ensures PathCost(w, Path(gnodes, arena, i)) == arena[i].costToGo
    decreases i
  {
    assert NodeOk(gnodes, gedges, w, start, arena, i);
    match arena[i].previous
    case None =>
    case Some(p) =>
      PathFacts(gnodes, gedges, w, start, arena, p);
      var prefix := Path(gnodes, arena, p);
      var x := gnodes[arena[i].current.id];
      var s := prefix + [x];
      assert s == Path(gnodes, arena, i);
      assert s[..|s| - 1] == prefix;
      assert s[|s| - 2] == prefix[|prefix| - 1];
      PathExtends(gedges, prefix, x);
  }

  /** A path followed by an edge out of its last node is a path. */
  lemma PathExtends(gedges: map<int, PGEdge>, prefix: seq<GraphNode>, x: GraphNode)
    requires IsPath(gedges, prefix) && |prefix| > 0
    requires EdgeIn(gedges, prefix[|prefix| - 1].id, x.id)
    ensures IsPath(gedges, prefix + [x])
  {
    var s := prefix + [x];
    forall j | 0 <= j < |s| - 1
      ensures EdgeIn(gedges, s[j].id, s[j + 1].id)
    {
      if j < |prefix| - 1 {
        assert s[j] == prefix[j] && s[j + 1] == prefix[j + 1];
      }
    }
  }

  /** The plan unrolled from a planning node on the goal is valid; unrolled
      from a root, it is the start node alone at cost 0. */
  lemma GoalPlan(gnodes: map<int, GraphNode>, gedges: map<int, PGEdge>, w: Weights, start: int, end: int,
                 arena: seq<PlanningNode>, pn: nat, p: Plan)
    requires forall id :: id in gnodes ==> gnodes[id].id == id
    requires SearchInvariant(gnodes, gedges, w, start, arena)
    requires pn < |arena| && arena[pn].current.id == end
    requires p == Plan(Path(gnodes, arena, pn), arena[pn].costToGo)
    ensures ValidPlan(gnodes, gedges, w, start, end, p)
    ensures arena[pn].previous.None? ==> p == Plan([gnodes[start]], 0.0)
  {
    PathFacts(gnodes, gedges, w, start, arena, pn);
    assert NodeOk(gnodes, gedges, w, start, arena, pn);
  }

  /** UnrollPlanFrom: no plan for no planning node; otherwise walks the
      predecessor chain, collecting each stored graph node, and reverses the
      collection so that the plan runs from the root to pn. The plan's cost is
      pn's CostToGo. */
  method UnrollPlanFrom(tree: SearchTree, g: PositionGraph, pn: Option<nat>) returns (r: Option<Plan>)
    requires Linked(tree.nodes) && OnGraph(g.nodes, tree.nodes)
    requires pn.Some? ==> pn.value < |tree.nodes|
    ensures pn.None? <==> r.None?
    ensures pn.Some? ==> r == Some(Plan(Path(g.nodes, tree.nodes, pn.value), tree.nodes[pn.value].costToGo))
  {
    if pn.None? {
      return None;
    }
    var current: Option<nat> := pn;
    var reversedPlan: seq<GraphNode> := [];
    while current.Some?
      invariant current.Some? ==> current.value < |tree.nodes|
      invariant PathTo(g.nodes, tree.nodes, current) + Reversed(reversedPlan) == Path(g.nodes, tree.nodes, pn.value)
      decreases if current.Some? then current.value + 1 else 0
    {
      var c := current.value;
      var node := g.Node(tree.nodes[c].current.id);
      UnrollStep(g.nodes, tree.nodes, c, reversedPlan);
      reversedPlan := reversedPlan + [node.value];
      current := tree.nodes[c].previous;
    }
    assert [] + Reversed(reversedPlan) == Reversed(reversedPlan);
    var forwardPlan := Reversed(reversedPlan);
    return Some(Plan(forwardPlan, tree.nodes[pn.value].costToGo));
  }

  /** One step of UnrollPlanFrom: moving a node from the path to the reversed
      collection keeps the two together equal. */
  lemma UnrollStep(gnodes: map<int, GraphNode>, arena: seq<PlanningNode>, c: nat, reversedPlan: seq<GraphNode>)
    requires Linked(arena) && OnGraph(gnodes, arena) && c < |arena|
    ensures PathTo(gnodes, arena, arena[c].previous) + Reversed(reversedPlan + [gnodes[arena[c].current.id]])
            == PathTo(gnodes, arena, Some(c)) + Reversed(reversedPlan)
  {
    var x := gnodes[arena[c].current.id];
    ReversedAppend(reversedPlan, x);
    assert PathTo(gnodes, arena, Some(c)) == PathTo(gnodes, arena, arena[c].previous) + [x];
  }

  /** The indices from .. to - 1, in increasing order. */
  function Indices(from: nat, to: nat): (r: seq<nat>)
    requires from <= to
    ensures |r| == to - from
    ensures forall j :: 0 <= j < |r| ==> r[j] == from + j
  {
    if from == to then [] else Indices(from, to - 1) + [to - 1]
  }

  /** The ids of the graph nodes the planning nodes stand on. */
  ghost function Ids(arena: seq<PlanningNode>): set<int>
  {
    if arena == [] then {} else Ids(arena[..|arena| - 1]) + {arena[|arena| - 1].current.id}
  }

  /** An id is in Ids exactly when some planning node stands on it. */
  lemma {:induction false} IdsMember(arena: seq<PlanningNode>, t: int)
    ensures t in Ids(arena) <==> exists c :: 0 <= c < |arena| && arena[c].current.id == t
    decreases |arena|
  {
    if arena != [] {
      var init := arena[..|arena| - 1];
      IdsMember(init, t);
      if t in Ids(init) {
        var c :| 0 <= c < |init| && init[c].current.id == t;
        assert arena[c] == init[c];
      }
      if exists c :: 0 <= c < |arena| && arena[c].current.id == t {
        var c :| 0 <= c < |arena| && arena[c].current.id == t;
        if c < |init| {
          assert init[c] == arena[c];
        }
      }
    }
  }

  /** Node j has been expanded: every node that an edge leads to from j's
      node stands under some planning node of the tree. */
  ghost predicate Expanded(gedges: map<int, PGEdge>, arena: seq<PlanningNode>, j: nat)
    requires j < |arena|
  {
    forall t :: EdgeIn(gedges, arena[j].current.id, t) ==> t in Ids(arena)
  }

  /** Growing the tree keeps every expanded node expanded. */
  lemma ExpandedGrows(gedges: map<int, PGEdge>, before: seq<PlanningNode>, arena: seq<PlanningNode>, j: nat)
    requires j < |before| <= |arena| && arena[..|before|] == before
    requires Expanded(gedges, before, j)
    ensures Expanded(gedges, arena, j)
  {
    forall t | EdgeIn(gedges, arena[j].current.id, t)
      ensures t in Ids(arena)
    {
      assert before[j] == arena[j];
      IdsMember(before, t);
      var c :| 0 <= c < |before| && before[c].current.id == t;
      assert arena[c] == before[c];
      IdsMember(arena, t);
    }
  }

  /** Once the children of node pn, one per out-neighbour, sit at b and after,
      pn is expanded. */
  lemma ChildrenExpand(g: PositionGraph, arena: seq<PlanningNode>, b: nat, pn: nat)
    requires g.Valid() && pn < b <= |arena|
    requires multiset(Currents(arena[b..])) == g.OutNodes(arena[pn].current.id)
    ensures Expanded(g.edges, arena, pn)
  {
    var id := arena[pn].current.id;
    forall t | EdgeIn(g.edges, id, t)
      ensures t in Ids(arena)
    {
      var k :| k in g.edges && g.edges[k].from == id && g.edges[k].to == t;
      var n := g.nodes[t];
      g.OutNodesMember(id, n);
      var children := Currents(arena[b..]);
      assert n in multiset(children);
      var i :| 0 <= i < |children| && children[i] == n;
      assert arena[b + i].current.id == t;
      IdsMember(arena, t);
    }
  }

  /** Adding children made by Expand keeps the search invariant. */
  lemma ExpandKeepsInvariant(g: PositionGraph, w: Weights, h: Heuristic, start: int,
                             before: seq<PlanningNode>, arena: seq<PlanningNode>, pn: nat)
    requires SearchInvariant(g.nodes, g.edges, w, start, before)
    requires pn < |before| <= |arena| && arena[..|before|] == before
    requires forall j :: |before| <= j < |arena| ==>
               && arena[j] == ChildOf(before[pn], pn, arena[j].current, w, h)
               && g.HasEdge(before[pn].current.id, arena[j].current.id)
               && arena[j].current.id in g.nodes && g.nodes[arena[j].current.id] == arena[j].current
    ensures SearchInvariant(g.nodes, g.edges, w, start, arena)
  {
    forall k | 0 <= k < |arena|
      ensures NodeOk(g.nodes, g.edges, w, start, arena, k)
      ensures arena[k].previous.Some? ==> arena[k].previous.value < k
    {
      if k < |before| {
        assert arena[k] == before[k];
        assert NodeOk(g.nodes, g.edges, w, start, before, k);
        if arena[k].previous.Some? {
          assert arena[arena[k].previous.value] == before[arena[k].previous.value];
        }
      } else {
        assert arena[pn] == before[pn];
      }
    }
  }

  /** If every planning node of a tree rooted at the start node is expanded,
      every path from the start stays under planning nodes of the tree. */
  lemma {:induction false} PathStaysInTree(gnodes: map<int, GraphNode>, gedges: map<int, PGEdge>, w: Weights, start: int,
                                           arena: seq<PlanningNode>, s: seq<GraphNode>, i: nat)
    requires SearchInvariant(gnodes, gedges, w, start, arena) && |arena| > 0 && arena[0].previous.None?
    requires forall j :: 0 <= j < |arena| ==> Expanded(gedges, arena, j)
    requires IsPath(gedges, s) && i < |s| && s[0].id == start
    ensures s[i].id in Ids(arena)
    decreases i
  {
    if i == 0 {
      assert NodeOk(gnodes, gedges, w, start, arena, 0);
      IdsMember(arena, s[0].id);
    } else {
      PathStaysInTree(gnodes, gedges, w, start, arena, s, i - 1);
      IdsMember(arena, s[i - 1].id);
      var c :| 0 <= c < |arena| && arena[c].current.id == s[i - 1].id;
      assert Expanded(gedges, arena, c);
      assert EdgeIn(gedges, s[i - 1].id, s[i].id);
    }
  }

  /** The state of FindPlan's loop: the tree keeps the search invariant and
      its root is node 0; the frontier holds indices into the tree; every
      planning node is either still in the frontier or done, and a done node
      is not on the goal and has been expanded. */
  ghost predicate Frontier(gnodes: map<int, GraphNode>, gedges: map<int, PGEdge>, w: Weights, start: int, end: int,
                           arena: seq<PlanningNode>, items: seq<nat>, done: set<nat>)
  {
    && SearchInvariant(gnodes, gedges, w, start, arena)
    && |arena| > 0 && arena[0].previous.None?
    && (forall j :: 0 <= j < |items| ==> items[j] < |arena|)
    && (forall j :: 0 <= j < |arena| ==> j in done || j in items)
    && (forall j :: j in done ==> j < |arena| && arena[j].current.id != end && Expanded(gedges, arena, j))
  }

  /** The frontier FindPlan starts from: the root alone, in the tree and on
      the frontier. */
  lemma FrontierStart(gnodes: map<int, GraphNode>, gedges: map<int, PGEdge>, w: Weights, start: int, end: int,
                      arena: seq<PlanningNode>)
    requires start in gnodes && gnodes[start].id == start
    requires arena == [PlanningNode(gnodes[start], None, 0.0, 0.0)]
    ensures Frontier(gnodes, gedges, w, start, end, arena, [0], {})
  {
    assert NodeOk(gnodes, gedges, w, start, arena, 0);
  }

  /** What FindPlan learns from the planning node pn it takes off the top of
      the frontier: it is in the tree, the tree keeps the search invariant, and
      in the first round it is the root, on the start node. */
  lemma Popped(gnodes: map<int, GraphNode>, gedges: map<int, PGEdge>, w: Weights, start: int, end: int,
               arena: seq<PlanningNode>, items: seq<nat>, done: set<nat>, pn: nat, first: bool)
    requires Frontier(gnodes, gedges, w, start, end, arena, items, done)
    requires items != [] && pn == items[|items| - 1]
    requires first ==> items == [0]
    ensures pn < |arena| && SearchInvariant(gnodes, gedges, w, start, arena)
    ensures first ==> pn == 0 && arena[0].previous.None? && arena[0].current.id == start
  {
    if first {
      assert NodeOk(gnodes, gedges, w, start, arena, 0);
    }
  }

  /** Taking pn off the frontier, expanding it and pushing its children keeps
      the loop state, with pn now done. */
  lemma FrontierStep(g: PositionGraph, w: Weights, h: Heuristic, start: int, end: int,
                     arena: seq<PlanningNode>, items: seq<nat>, done: set<nat>, pn: nat,
                     grown: seq<PlanningNode>, children: seq<nat>)
    requires g.Valid()
    requires Frontier(g.nodes, g.edges, w, start, end, arena, items + [pn], done)
    requires pn < |arena| && arena[pn].current.id != end
    requires |grown| == |arena| + |children| && grown[..|arena|] == arena
    requires forall j :: 0 <= j < |children| ==> children[j] == |arena| + j
    requires multiset(Currents(grown[|arena|..])) == g.OutNodes(arena[pn].current.id)
    requires forall j :: |arena| <= j < |grown| ==>
               && grown[j] == ChildOf(arena[pn], pn, grown[j].current, w, h)
               && g.HasEdge(arena[pn].current.id, grown[j].current.id)
               && grown[j].current.id in g.nodes && g.nodes[grown[j].current.id] == grown[j].current
    ensures Frontier(g.nodes, g.edges, w, start, end, grown, items + children, done + {pn})
  {
    ExpandKeepsInvariant(g, w, h, start, arena, grown, pn);
    assert grown[pn] == arena[pn];
    ChildrenExpand(g, grown, |arena|, pn);
    forall j | j in done
      ensures j < |grown| && grown[j].current.id != end && Expanded(g.edges, grown, j)
    {
      assert grown[j] == arena[j];
      ExpandedGrows(g.edges, arena, grown, j);
    }
    forall j | 0 <= j < |grown|
      ensures j in done + {pn} || j in items + children
    {
      if j < |arena| {
        assert j in done || j in items + [pn];
      } else {
        assert children[j - |arena|] == j;
      }
    }
    forall j | 0 <= j < |items + children|
      ensures (items + children)[j] < |grown|
    {
      if j < |items| {
        assert (items + [pn])[j] == items[j];
      }
    }
    assert grown[0] == arena[0];
  }

  /** When the frontier is empty, no path leads from the start to the goal. */
  lemma FrontierExhausted(gnodes: map<int, GraphNode>, gedges: map<int, PGEdge>, w: Weights, start: int, end: int,
                          arena: seq<PlanningNode>, done: set<nat>)
    requires Frontier(gnodes, gedges, w, start, end, arena, [], done)
    ensures !Reaches(gedges, start, end)
  {
    forall s: seq<GraphNode> | IsPath(gedges, s) && |s| > 0 && s[0].id == start
      ensures s[|s| - 1].id != end
    {
      PathStaysInTree(gnodes, gedges, w, start, arena, s, |s| - 1);
      IdsMember(arena, s[|s| - 1].id);
      var c :| 0 <= c < |arena| && arena[c].current.id == s[|s| - 1].id;
      assert c in done;
    }
  }

  /** The body of FindPlan's loop once pn, not on the goal, has been taken
      off the frontier: Expand pn and push its children, last one on top. */
  method ExpandOnto(tree: SearchTree, heap: PlanningHeap<nat>, pn: nat, g: PositionGraph, w: Weights, h: Heuristic,
                    start: int, end: int, ghost items: seq<nat>, ghost done: set<nat>)
    requires g.Valid()
    requires Frontier(g.nodes, g.edges, w, start, end, tree.nodes, items, done) && items == heap.items + [pn]
    requires pn < |tree.nodes| && tree.nodes[pn].current.id != end
    modifies tree, heap
    ensures Frontier(g.nodes, g.edges, w, start, end, tree.nodes, heap.items, done + {pn})
    ensures |tree.nodes| >= old(|tree.nodes|) && tree.nodes[..old(|tree.nodes|)] == old(tree.nodes)
    ensures multiset(Currents(tree.nodes[old(|tree.nodes|)..])) == g.OutNodes(old(tree.nodes[pn]).current.id)
    ensures forall j :: old(|tree.nodes|) <= j < |tree.nodes| ==> tree.nodes[j] == ChildOf(old(tree.nodes[pn]), pn, tree.nodes[j].current, w, h)
    ensures heap.items == old(heap.items) + Indices(old(|tree.nodes|), |tree.nodes|)
  {
    ghost var before := tree.nodes;
    ghost var popped := heap.items;
    var expandedNodes := tree.Expand(pn, g, w, h);
    for i := 0 to |expandedNodes|
      invariant heap.items == popped + expandedNodes[..i]
      modifies heap
    {
      heap.Push(expandedNodes[i]);
    }
    assert expandedNodes[..|expandedNodes|] == expandedNodes;
    assert expandedNodes == Indices(|before|, |tree.nodes|);
    FrontierStep(g, w, h, start, end, before, popped, done, pn, tree.nodes, expandedNodes);
  }

  /** A stretch of the tree whose graph nodes form the empty multiset is
      empty. */
  lemma NoChildren(stretch: seq<PlanningNode>)
    requires multiset(Currents(stretch)) == multiset{}
    ensures stretch == []
  {
    assert |Currents(stretch)| == |multiset(Currents(stretch))|;
  }

  /** The start's out-neighbours: there is at least one, and each is the
      goal. */
  ghost predicate OnlyGoal(out: multiset<GraphNode>, end: int)
  {
    out != multiset{} && forall n :: n in out ==> n.id == end
  }

  /** The planning node on top of the frontier is a child of the root that
      stands on the goal. */
  ghost predicate TopOnGoal(arena: seq<PlanningNode>, items: seq<nat>, end: int)
  {
    && items != [] && items[|items| - 1] < |arena|
    && arena[items[|items| - 1]].previous == Some(0) && arena[items[|items| - 1]].current.id == end
  }

  /** After the first round, when every out-neighbour of the start is the
      goal and there is at least one, the last child pushed, now on top of
      the frontier, is a child of the root on the goal. */
  lemma FirstRoundOnGoal(arena: seq<PlanningNode>, size: nat, prefix: seq<nat>, items: seq<nat>, out: multiset<GraphNode>,
                         root: PlanningNode, w: Weights, h: Heuristic, end: int)
    requires size <= |arena|
    requires multiset(Currents(arena[size..])) == out && OnlyGoal(out, end)
    requires forall j :: size <= j < |arena| ==> arena[j] == ChildOf(root, 0, arena[j].current, w, h)
    requires items == prefix + Indices(size, |arena|)
    ensures TopOnGoal(arena, items, end)
  {
    var stretch := Currents(arena[size..]);
    assert |stretch| == |multiset(stretch)| && |stretch| > 0;
    var top := |arena| - 1;
    assert items[|items| - 1] == top;
    assert stretch[|stretch| - 1] == arena[top].current;
    assert arena[top].current in out;
  }

  /** The chain to a child of the root on the goal is the start node then the
      goal node, at the weight of the edge between them. */
  lemma SecondRoundPlan(gnodes: map<int, GraphNode>, gedges: map<int, PGEdge>, w: Weights, start: int, end: int,
                        arena: seq<PlanningNode>, k: nat)
    requires SearchInvariant(gnodes, gedges, w, start, arena) && |arena| > 0 && arena[0].previous.None?
    requires k < |arena| && arena[k].previous == Some(0) && arena[k].current.id == end
    ensures start in gnodes && end in gnodes
    ensures Path(gnodes, arena, k) == [gnodes[start], gnodes[end]]
    ensures arena[k].costToGo == w(start, end)
  {
    assert NodeOk(gnodes, gedges, w, start, arena, k);
    assert NodeOk(gnodes, gedges, w, start, arena, 0);
  }

  /** The goal branch of a round: the plan unrolled from pn, which stands on
      the goal, is valid; from the root it is the start node alone at cost 0,
      and from a child of the root it is the start node then the goal node at
      the weight of the edge between them. */
  method PlanOnGoal(tree: SearchTree, g: PositionGraph, w: Weights, start: int, end: int, pn: nat) returns (plan: Plan)
    requires g.Valid()
    requires SearchInvariant(g.nodes, g.edges, w, start, tree.nodes) && |tree.nodes| > 0 && tree.nodes[0].previous.None?
    requires pn < |tree.nodes| && tree.nodes[pn].current.id == end
    ensures plan == Plan(Path(g.nodes, tree.nodes, pn), tree.nodes[pn].costToGo)
    ensures ValidPlan(g.nodes, g.edges, w, start, end, plan)
    ensures tree.nodes[pn].previous.None? ==> plan == Plan([g.nodes[start]], 0.0)
    ensures tree.nodes[pn].previous == Some(0) ==> plan == Plan([g.nodes[start], g.nodes[end]], w(start, end))
  {
    var unrolled := UnrollPlanFrom(tree, g, Some(pn));
    plan := unrolled.value;
    GoalPlan(g.nodes, g.edges, w, start, end, tree.nodes, pn, plan);
    if tree.nodes[pn].previous == Some(0) {
      SecondRoundPlan(g.nodes, g.edges, w, start, end, tree.nodes, pn);
    }
  }

  /** One round of FindPlan's loop: take the planning node pn on top of the
      frontier; if it stands on the goal, its chain is the plan; otherwise
      expand it and push its children. In the first round the frontier is
      the root alone, so a plan is found exactly when the start is the goal,
      and an isolated start leaves the frontier empty. */
  method Round(tree: SearchTree, heap: PlanningHeap<nat>, g: PositionGraph, w: Weights, h: Heuristic,
               start: int, end: int, ghost done: set<nat>, ghost first: bool)
    returns (found: Option<Plan>, pn: nat)
    requires g.Valid()
    requires Frontier(g.nodes, g.edges, w, start, end, tree.nodes, heap.items, done) && heap.items != []
    requires first ==> heap.items == [0]
    modifies tree, heap
    ensures found.Some? ==> ValidPlan(g.nodes, g.edges, w, start, end, found.value)
    ensures first ==> (found.Some? <==> start == end)
    ensures first && found.Some? ==> start in g.nodes && found.value == Plan([g.nodes[start]], 0.0)
    ensures found.None? ==> Frontier(g.nodes, g.edges, w, start, end, tree.nodes, heap.items, done + {pn})
    ensures first && start != end && OutOf(g.nodes, g.edges, start) == multiset{} ==> heap.items == []
    ensures pn == old(heap.items)[|old(heap.items)| - 1] && pn < old(|tree.nodes|)
    ensures found.Some? <==> old(tree.nodes)[pn].current.id == end
    ensures found.Some? ==> found.value == Plan(Path(g.nodes, old(tree.nodes), pn), old(tree.nodes)[pn].costToGo)
    ensures |tree.nodes| >= old(|tree.nodes|) && tree.nodes[..old(|tree.nodes|)] == old(tree.nodes)
    ensures found.None? ==> multiset(Currents(tree.nodes[old(|tree.nodes|)..])) == g.OutNodes(old(tree.nodes)[pn].current.id)
    ensures found.None? ==> forall j :: old(|tree.nodes|) <= j < |tree.nodes| ==>
              tree.nodes[j] == ChildOf(old(tree.nodes)[pn], pn, tree.nodes[j].current, w, h)
    ensures found.None? ==>
              heap.items == old(heap.items)[..|old(heap.items)| - 1] + Indices(old(|tree.nodes|), |tree.nodes|)
    ensures first && start != end && OnlyGoal(OutOf(g.nodes, g.edges, start), end) ==> TopOnGoal(tree.nodes, heap.items, end)
    ensures TopOnGoal(old(tree.nodes), old(heap.items), end) ==>
              start in g.nodes && end in g.nodes && found == Some(Plan([g.nodes[start], g.nodes[end]], w(start, end)))
  {
    ghost var items := heap.items;
    pn := heap.Pop();
    Popped(g.nodes, g.edges, w, start, end, tree.nodes, items, done, pn, first);
    if tree.nodes[pn].current.id == end {
      var plan := PlanOnGoal(tree, g, w, start, end, pn);
      return Some(plan), pn;
    }
    ghost var before := tree.nodes;
    ExpandOnto(tree, heap, pn, g, w, h, start, end, items, done);
    if first && start != end && OutOf(g.nodes, g.edges, start) == multiset{} {
      NoChildren(tree.nodes[|before|..]);
    }
    if first && start != end && OnlyGoal(OutOf(g.nodes, g.edges, start), end) {
      assert pn == 0 && before[pn].current.id == start;
      FirstRoundOnGoal(tree.nodes, |before|, items[..|items| - 1], heap.items, g.OutNodes(start), before[pn], w, h, end);
    }
    found := None;
  }

  /** FindPlan: the start node must be stored (else NodeNotFound). The
      frontier starts with one root planning node on it, with no predecessor
      and zero costs. Each round takes the most recently added planning node;
      if it stands on the goal, its chain is the plan; otherwise its children
      join the frontier. An empty frontier means NoPathFound, and then the
      goal is indeed unreachable; running out of fuel ends the search with
      FuelExhausted. */
  method FindPlan(g: PositionGraph, start: int, end: int, w: Weights, h: Heuristic, fuel: nat)
    returns (r: Result<Plan, SearchError>)
    requires g.Valid()
    ensures start !in g.nodes ==> r == Failure(GraphFailure(NodeNotFound(start)))
    ensures r.Failure? && r.error.GraphFailure? ==> start !in g.nodes
    ensures r.Success? ==> ValidPlan(g.nodes, g.edges, w, start, end, r.value)
    ensures start in g.nodes && start == end && fuel > 0 ==> r == Success(Plan([g.nodes[start]], 0.0))
    ensures r.Failure? && r.error.NoPathFound? ==> r.error.graph == g && !Reaches(g.edges, start, end)
    ensures start in g.nodes && fuel == 0 ==> r == Failure(FuelExhausted)
    ensures start in g.nodes && start != end && fuel > 0 && OutOf(g.nodes, g.edges, start) == multiset{} ==> r == Failure(NoPathFound(g))
    ensures start in g.nodes && end in g.nodes && start != end && fuel >= 2 && OnlyGoal(OutOf(g.nodes, g.edges, start), end) ==>
              r == Success(Plan([g.nodes[start], g.nodes[end]], w(start, end)))
  {
    var root := g.Node(start);
    if root.Failure? {
      return Failure(GraphFailure(root.error));
    }
    var tree := new SearchTree();
    var pn0 := tree.Allocate(PlanningNode(root.value, None, 0.0, 0.0));
    var heap0 := new PlanningHeap<nat>();
    heap0.Push(pn0);
    FrontierStart(g.nodes, g.edges, w, start, end, tree.nodes);
    ghost var done: set<nat> := {};
    ghost var isolated := start != end && OutOf(g.nodes, g.edges, start) == multiset{};
    ghost var allGoal := start != end && end in g.nodes && OnlyGoal(OutOf(g.nodes, g.edges, start), end);
    var remaining: nat := fuel;
    while heap0.Len() > 0
      invariant Frontier(g.nodes, g.edges, w, start, end, tree.nodes, heap0.items, done)
      invariant remaining <= fuel
      invariant remaining == fuel ==> heap0.items == [0] && |tree.nodes| == 1
      invariant start == end && fuel > 0 ==> remaining == fuel
      invariant isolated && remaining < fuel ==> heap0.items == []
      invariant allGoal ==> remaining + 1 >= fuel
      invariant allGoal && remaining + 1 == fuel ==> TopOnGoal(tree.nodes, heap0.items, end)
      decreases remaining
    {
      if remaining == 0 {
        return Failure(FuelExhausted);
      }
      ghost var first := remaining == fuel;
      remaining := remaining - 1;
      var found;
      var pn;
      found, pn := Round(tree, heap0, g, w, h, start, end, done, first);
      if found.Some? {
        return Success(found.value);
      }
      done := done + {pn};
    }
    FrontierExhausted(g.nodes, g.edges, w, start, end, tree.nodes, done);
    return Failure(NoPathFound(g));
  }
}
