# GraphPathPlanning.go — a Dafny model of the planning core

This project models the path-planning core of GraphPathPlanning.go:

- **The position graph** (`positionGraph/graph.go`, `positionGraph/edge.go`). It has a table from node id to node and a table from edge index to directed edge. It offers node lookup, a directed neighbour scan (`From`), directed edge lookups (`HasEdgeBetween`, `Edge`, `WeightedEdge`, `Weight`), lookups that try both directions (`EdgeBetween`, `WeightedEdgeBetween`), and in-place insertion (`AddNode`, `AddNodeAt`, `AddEdge`, `AddEdgeBetween`).
- **The planning nodes of A\* and of Dijkstra** (`aStar/planning_node.go`, `planning/djikstra/planning_node.go`). A planning node records the graph node it stands on, its predecessor, CostToGo (g) and, for A\*, HeuristicCost (h + g). The operations that maintain these are `CalculateCostToGo`, `CalculateHeuristicCost`, `UpdateCosts` and `Expand`.
- **The planning heap** (`planningHeap/planning_heap.go`). It has the five `heap.Interface` methods. The planner calls `Push` and `Pop` on it directly, so it behaves as a stack.
- **The planner** (`aStar/plan.go`). `FindPlan` pops, tests for the goal, expands and pushes. `UnrollPlanFrom` walks the predecessor chain and reverses it.

Modules:

- `Wrappers`: `Option` and `Result`.
- `Geometry`: positions and the squared Euclidean edge weight.
- `PositionGraphs`: the class `PositionGraph` with fields `nodes: map<int, GraphNode>` and `edges: map<int, PGEdge>`, and the datatype `PGEdge`.
- `PlanningHeaps`: the class `PlanningHeap<T>` with field `items: seq<T>`.
- `AStar` and `Dijkstra`: the planning-node datatypes and the class `SearchTree`.
- `AStarPlan`: `Plan`, `UnrollPlanFrom` and `FindPlan`.

The source links planning nodes by pointers. The model keeps them in an arena instead: `SearchTree.nodes`, a `seq` of planning-node records. Each record names its predecessor by index, and a predecessor always sits at a smaller index, so walking predecessors ends.

Edge weights enter as a function `w` of the two endpoint ids and are reals. The heuristic is a function `h` of the node id.

What is proved about the planner:

- **A plan `FindPlan` returns is valid.** It is non-empty. It starts at the start node and ends at the goal node. Every consecutive pair is joined by a stored edge in that direction. Its cost equals the sum of the weights along it.
- **Start equal to goal.** When the start is the goal, with at least one round of fuel, the plan is the start node alone, at cost 0.
- **Every out-neighbour is the goal.** Suppose the start is not the goal, has at least one out-neighbour, and every out-neighbour is the goal. With at least two rounds of fuel, the plan is then the start node followed by the goal node, at the weight of the edge between them; it is found in the second round, whatever order `From` returns the neighbours in.
- **Absent start node.** The source panics with `NodeNotFoundError` in the graph's `Node` lookup (positionGraph/graph.go:60), reached from the start lookup at aStar/plan.go:48. The model returns `GraphFailure(NodeNotFound(start))` in its place, and returns that failure for no other reason.
- **Isolated start.** With at least one round of fuel, a start that is not the goal and has no out-edges gives `NoPathFound` after one round. With no fuel, the result is `FuelExhausted`.
- **`NoPathFound`.** It is returned only when the goal is unreachable from the start.

Where the code's own comments or types promise more than the code does, the model follows the code:

- The frontier is last-in first-out, not ordered by cost. The comments at `planningHeap/planning_heap.go:21-22` say that `Push` keeps the heap sorted by `Less`, and the one at `:30` says that `Pop` returns the cheapest element. But the planner calls the two methods directly rather than through `container/heap`, so `Push` only appends and `Pop` takes the last element.
- The graph's `From`, `HasEdgeBetween`, `Edge` and `Weight` are directed, although a planning node holds its graph as a `graph.WeightedUndirected` (`aStar/planning_node.go:25`). Only `EdgeBetween` and `WeightedEdgeBetween` look in both directions.
- The root planning node that `FindPlan` builds (`aStar/plan.go:46-55`) has HeuristicCost 0, not the heuristic at the start.
- `Weight` on a missing edge panics rather than returning its `(1e10, false)` sentinel (see Findings).
- An absent goal is never looked up, so it raises no `NodeNotFound`: the search ends with `NoPathFound` (the goal is then unreachable) or, in the model, runs out of fuel.

## Model

| member | source | states |
|---|---|---|
| Geometry.SquaredWeightAsWritten | positionGraph/edge.go:81-90 | as written, an edge's (squared) weight is the norm of `to − to`, zero for every edge whatever its endpoints |
| Geometry.SquaredWeight | positionGraph/edge.go:81-90 | the intended squared weight, the squared length of `to − from`, is never negative |
| Geometry.AsWrittenWeightMissesUnitEdge | positionGraph/edge.go:88 | the edge from (0,0) to (1,0) weighs 0 as written, where its intended squared weight is 1 |
| Geometry.SquaredWeightSymmetric | positionGraph/edge.go:81-90 | the intended weight (`to − from`) is the same in both directions |
| Geometry.SquaredWeightZeroIff | positionGraph/edge.go:81-90 | the intended weight is zero exactly when the two positions coincide |
| Geometry.EuclideanIsSymmetric | positionGraph/edge.go:81-90 | two non-negative Euclidean weights of a pair read in opposite directions are equal |
| PositionGraphs.PGEdge.From | positionGraph/edge.go:38-43 | a node exactly when `from` is stored, and then the node stored under `from` |
| PositionGraphs.PGEdge.To | positionGraph/edge.go:51-56 | a node exactly when `to` is stored, and then the node stored under `to` |
| PositionGraphs.PGEdge.ReversedEdge | positionGraph/edge.go:64-73 | the reversed edge belongs to the same graph, leaves the node this edge enters and enters the node it leaves |
| PositionGraphs.PGEdge.Weight | positionGraph/edge.go:81-90 | the weight of the edge in its own direction; when the graph's weights are Euclidean and both endpoints are stored, the non-negative Euclidean distance between their positions |
| PositionGraphs.ReversedEdgeInvolution | positionGraph/edge.go:64-73 | the reversed edge has the same graph and swapped endpoints, and reversing twice gives the edge back |
| PositionGraphs.SameEndpointsSameWeight | positionGraph/edge.go:81-90 | the weight depends only on the two endpoints: edges joining the same pair in the same direction weigh the same |
| PositionGraphs.PositionGraph.constructor | positionGraph/graph.go:38-46 | a new graph has no nodes and no edges, and is valid with densely numbered ids |
| PositionGraphs.PositionGraph.Node | positionGraph/graph.go:54-64 | the stored node exactly when the id is present (its id is the key), `NodeNotFound(id)` otherwise |
| PositionGraphs.TargetsRemove | positionGraph/graph.go:101-105 | the targets collected by the edge scan do not depend on the order in which edge keys are visited |
| PositionGraphs.PositionGraph.OutNodesMember | positionGraph/graph.go:91-108 | a node is an out-neighbour of `id` exactly when it is stored and some stored edge runs from `id` to it |
| PositionGraphs.PositionGraph.OutNodesAll | positionGraph/graph.go:91-108 | every element of a sequence holding exactly the out-neighbours is a stored node reached by a stored edge from `id` |
| PositionGraphs.PositionGraph.From | positionGraph/graph.go:91-108 | `NodeNotFound(id)` for an absent id; otherwise, as a multiset, exactly the target of every stored edge leaving `id`, once per edge |
| PositionGraphs.PositionGraph.HasEdgeBetween | positionGraph/graph.go:117-128 | true exactly when some stored edge runs from `from` to `to` (direction matters) |
| PositionGraphs.PositionGraph.Edge | positionGraph/graph.go:136-147 | an edge exactly when one runs from `from` to `to`, and then a stored edge with those endpoints |
| PositionGraphs.PositionGraph.WeightedEdge | positionGraph/graph.go:155-157 | the edge from `from` to `to` when stored; the nil-edge type-assertion failure otherwise |
| PositionGraphs.PositionGraph.Weight | positionGraph/graph.go:177-189 | `(w(x, y), true)` exactly when an edge runs from x to y; otherwise the failure of `WeightedEdge`, never `(1e10, false)` |
| PositionGraphs.PositionGraph.WeightOrMissing | positionGraph/graph.go:177-189 | corrected Weight: flag true exactly when the edge is stored, then its weight; `(1e10, false)` otherwise |
| PositionGraphs.PositionGraph.WeightOrMissingAgrees | positionGraph/graph.go:177-189 | where Weight answers, the corrected one agrees; Weight fails exactly where the corrected one reports false |
| PositionGraphs.PositionGraph.EdgeBetween | positionGraph/graph.go:198-207 | an edge exactly when one is stored in either direction, preferring the forward one |
| PositionGraphs.PositionGraph.EdgeBetweenSymmetric | positionGraph/graph.go:198-207 | whether EdgeBetween finds an edge does not depend on the order of the ids; the two answers are equal or each other's reverse |
| PositionGraphs.PositionGraph.WeightedEdgeBetween | positionGraph/graph.go:216-219 | an edge joining the two ids in some direction exactly when one is stored; the nil-edge failure otherwise |
| PositionGraphs.PositionGraph.EuclideanWeightsSymmetric | positionGraph/edge.go:81-90 | with Euclidean weights, every weight is non-negative and an edge and its reverse weigh the same |
| PositionGraphs.PositionGraph.AddNode | positionGraph/graph.go:227-232 | stores the node under its id, replacing any node there; edges unchanged; the graph stays valid |
| PositionGraphs.DenseInsert | positionGraph/graph.go:244-251 | inserting under the next free id keeps the ids 0 .. size−1 and grows the table by one |
| PositionGraphs.PositionGraph.AddNodeAt | positionGraph/graph.go:240-255 | the new node's id is the node count before the call; only that entry changes; dense ids stay dense |
| PositionGraphs.NumberedFromZero | positionGraph/graph.go:240-255 | on a fresh graph, three AddNodeAt calls yield ids 0, 1, 2 at the given positions |
| PositionGraphs.PositionGraph.AddEdge | positionGraph/graph.go:263-269 | stores the edge under the old edge count; the count grows by one; earlier edges and nodes unchanged; duplicates allowed |
| PositionGraphs.PositionGraph.AddEdgeBetween | positionGraph/graph.go:277-292 | appends the edge from `from` to `to` on this graph, after which that directed edge is present |
| PlanningHeaps.PlanningHeap.constructor | planningHeap/planning_heap.go:3 | the zero heap is empty |
| PlanningHeaps.PlanningHeap.Len | planningHeap/planning_heap.go:5 | the slice length, zero exactly when empty |
| PlanningHeaps.PlanningHeap.Less | planningHeap/planning_heap.go:6-11 | when true, i and j are distinct positions holding distinct elements, and the element at j does not cost less than the one at i |
| PlanningHeaps.PlanningHeap.LessIsStrictOrder | planningHeap/planning_heap.go:6-11 | Less is irreflexive, asymmetric and transitive |
| PlanningHeaps.PlanningHeap.Swap | planningHeap/planning_heap.go:12-17 | exchanges positions i and j; length and every other position unchanged; a permutation |
| PlanningHeaps.PlanningHeap.Push | planningHeap/planning_heap.go:19-26 | appends the element at the end |
| PlanningHeaps.PlanningHeap.Pop | planningHeap/planning_heap.go:28-43 | on a non-empty heap, returns the last element and leaves the prefix |
| PlanningHeaps.PushThenPop | planningHeap/planning_heap.go:19-43 | Push then Pop returns the pushed element and restores the heap: last in, first out |
| AStar.PlanningNode.Cost | aStar/planning_node.go:43-45 | an A* node's cost is its HeuristicCost (h + CostToGo), not its CostToGo |
| AStar.ChildCosts | aStar/planning_node.go:106-109 | a child's Cost (HeuristicCost) is h plus its CostToGo, so at least its CostToGo for non-negative h, and its CostToGo is at least its parent's for a non-negative weight |
| AStar.SearchTree.Allocate | aStar/planning_node.go:129-133 | a new planning node goes at the end of the arena; nothing else changes |
| AStar.SearchTree.CalculateCostToGo | aStar/planning_node.go:72-91 | 0 at a root; otherwise the predecessor's CostToGo plus the weight of the forward edge if stored, else of the backward one |
| AStar.SearchTree.CalculateHeuristicCost | aStar/planning_node.go:106-109 | exceeds CostToGo by exactly h at the node, so is at least CostToGo when h is non-negative |
| AStar.SearchTree.UpdateCosts | aStar/planning_node.go:53-61 | CostToGo set as CalculateCostToGo, then HeuristicCost from the new CostToGo; no other node or field changes |
| AStar.SearchTree.AddChild | aStar/planning_node.go:126-139 | appends the child of node k for neighbour n with its costs set |
| AStar.SearchTree.Expand | aStar/planning_node.go:118-145 | one new node per out-neighbour (as a multiset), each with k as predecessor, CostToGo parent+w, HeuristicCost h+CostToGo; existing nodes, k included, unchanged; none when there is no out-edge |
| Dijkstra.PlanningNode.Cost | planning/djikstra/planning_node.go:42-44 | a Dijkstra node's cost is its CostToGo, the accumulated cost from the start |
| Dijkstra.ChildCostNotBelowParent | planning/djikstra/planning_node.go:101 | a child's Cost exceeds its parent's by the edge weight, so is never below it for a non-negative weight |
| Dijkstra.ZeroHeuristicAgrees | planning/djikstra/planning_node.go:42-44 | with a zero heuristic, the A* child and the Dijkstra child agree on node, predecessor, CostToGo and Cost |
| Dijkstra.SearchTree.Allocate | planning/djikstra/planning_node.go:94-98 | a new planning node goes at the end of the arena; nothing else changes |
| Dijkstra.SearchTree.CalculateCostToGo | planning/djikstra/planning_node.go:55-74 | 0 at a root; otherwise the predecessor's CostToGo plus the weight of the forward edge if stored, else of the backward one |
| Dijkstra.SearchTree.AddChild | planning/djikstra/planning_node.go:91-104 | appends the child of node k for neighbour n with its CostToGo set |
| Dijkstra.SearchTree.Expand | planning/djikstra/planning_node.go:83-110 | one new node per out-neighbour (as a multiset), each with k as predecessor and CostToGo parent+w; existing nodes unchanged; none when there is no out-edge |
| AStarPlan.PathCost | aStar/planning_node.go:85-89 | the sum of weights along a sequence is non-negative when every step's weight is |
| AStarPlan.ValidPlanReaches | aStar/plan.go:21-24 | a valid plan witnesses that the goal is reachable from the start |
| AStarPlan.Reversed | aStar/plan.go:110-111 | same length, element i is element n−1−i of the input |
| AStarPlan.ReversedAppend | aStar/plan.go:110-111 | reversing `s + [x]` puts x in front of the reversal of s |
| AStarPlan.Path | aStar/plan.go:95-107 | the chain of graph nodes from the root to node i is non-empty, no longer than i+1, and ends at i's stored node |
| AStarPlan.PathFacts | aStar/plan.go:95-116 | in a search tree, the chain to any node starts at the start node, follows stored edges, ends at the node, and costs exactly its CostToGo |
| AStarPlan.UnrollStep | aStar/plan.go:98-107 | one step of the walk keeps the remaining chain plus the reversed collection equal to the whole chain |
| AStarPlan.UnrollPlanFrom | aStar/plan.go:89-117 | no plan exactly for no node; otherwise the chain from the root to pn, with pn's CostToGo |
| AStarPlan.GoalPlan | aStar/plan.go:62-64 | the plan unrolled from a node on the goal is valid; from the root it is the start node alone at cost 0 |
| AStarPlan.FrontierStart | aStar/plan.go:46-55 | the root alone on the frontier, with no predecessor and zero costs, satisfies the loop state |
| AStarPlan.Popped | aStar/plan.go:58-60 | the node taken from the top of the frontier is in the tree; in the first round it is the root on the start node |
| AStarPlan.ExpandKeepsInvariant | aStar/plan.go:67-68 | adding Expand's children keeps every node on a stored node, linked by a stored edge to its predecessor, with CostToGo the predecessor's plus the weight |
| AStarPlan.ExpandedGrows | aStar/plan.go:67-73 | growing the tree keeps an expanded node expanded |
| AStarPlan.ChildrenExpand | aStar/plan.go:67-73 | once a node's children sit in the tree, every out-neighbour of it is stood on by some planning node |
| AStarPlan.FrontierStep | aStar/plan.go:67-73 | popping, expanding and pushing the children keeps the loop state, with the popped node done |
| AStarPlan.ExpandOnto | aStar/plan.go:67-73 | Expand then Push of every child keeps the loop state, with the popped node done; the tree gains exactly the popped node's children (one per out-neighbour, as a multiset) after the old nodes; the frontier becomes the old frontier followed by the children's indices in push order, the last child on top |
| AStarPlan.PathStaysInTree | aStar/plan.go:58-75 | when every planning node is expanded, every path from the start stays on nodes of the tree |
| AStarPlan.FrontierExhausted | aStar/plan.go:58-77 | when the frontier empties, no path leads from the start to the goal |
| AStarPlan.FirstRoundOnGoal | aStar/plan.go:67-73 | when every out-neighbour of the start is the goal, the child pushed last in the first round, which is on top of the frontier, is a child of the root on the goal |
| AStarPlan.SecondRoundPlan | aStar/plan.go:62-64 | the chain to a child of the root on the goal is the start node then the goal node, and its CostToGo is the weight of the edge between them |
| AStarPlan.PlanOnGoal | aStar/plan.go:62-64 | the plan unrolled from a node on the goal is its chain at its CostToGo, and is valid; from the root it is the start node alone at cost 0; from a child of the root it is the start node then the goal node |
| AStarPlan.Round | aStar/plan.go:58-73 | one pass of the loop. The popped node is the last element of the frontier (last in, first out), and a plan is found exactly when that node stands on the goal; the plan is then the node's chain, and is valid. Otherwise the tree keeps its old nodes followed by the popped node's children (one per out-neighbour, as a multiset), the frontier becomes its other elements followed by the children's indices in push order, and the loop state holds with the popped node done. In the first round a plan is found exactly when start is the goal, and it is then the start node alone at cost 0; an isolated start leaves the frontier empty; when every out-neighbour of the start is the goal, a root child on the goal ends up on top, and taking it gives the start-goal plan |
| AStarPlan.FindPlan | aStar/plan.go:38-79 | NodeNotFound exactly when the start node is absent (standing for the panic at positionGraph/graph.go:60); FuelExhausted with no fuel; NoPathFound after one round for a start without out-edges that is not the goal; with at least two rounds of fuel, the start-goal plan at the edge's weight when every out-neighbour of the start is the goal; a returned plan is valid; start = goal gives the one-node plan at cost 0; NoPathFound(g) only when the goal is unreachable |

## Left out

- `Nodes` (positionGraph/graph.go:72-82) is not modelled: it only wraps the node table in a gonum iterator whose order is unspecified.
- Scan order: gonum's `graph.Node` and `graph.Nodes` iterators become sequences. `From`'s result is specified as a multiset because Go map iteration order is unspecified.
- Floating point: costs and weights are reals, with no rounding, NaN or infinity.
- Square root: the Euclidean length (`mat.Norm`) is not computed. `Geometry` states it through its square, and the planner takes weights as an abstract function of the endpoint ids.
- Error messages: `NodeNotFoundError.Error` and `NoPathFound.Error` are not modelled; the errors are constructors only.
- Integer width: ids are unbounded integers instead of `int64`. The `int64(len(...))` conversions in `AddNodeAt` and `AddEdge` cannot overflow in practice.
- PositionGraphs.PositionGraph.AddEdge: requires the edge to belong to this graph (`e.graph == this`) and both of its endpoints to be stored. The source stores any `PGEdge`. An edge built on another graph, for instance by that graph's `AddEdgeBetween`, is stored too, and later scans then read that other graph's node table through `From` and `To` (positionGraph/edge.go:38-56). A dangling edge is stored, and later scans panic on its nil node. The zero `PGEdge{}` is stored, and later scans panic on its nil graph; the model's `PGEdge` always names a graph, so that edge cannot be expressed.
- PositionGraphs.PositionGraph.AddEdgeBetween: same requirement as AddEdge, for the same reason.
- PositionGraphs.PositionGraph.From: requires a valid graph, so the nil-node panic on a dangling edge is not modelled.
- PositionGraphs.PositionGraph.HasEdgeBetween: requires a valid graph, so the nil-node panic on a dangling edge is not modelled.
- PositionGraphs.PositionGraph.Edge: requires a valid graph, so the nil-node panic on a dangling edge is not modelled.
- AStar.SearchTree.CalculateCostToGo: requires an edge between the node and its predecessor. When none exists, the source's type assertion panics; that panic is not modelled as an error value.
- AStar.SearchTree.UpdateCosts: requires an edge between the node and its predecessor, for the reason given for AStar.SearchTree.CalculateCostToGo.
- AStar.SearchTree.AddChild: requires an edge from the parent to the new child, for the reason given for AStar.SearchTree.CalculateCostToGo.
- Dijkstra.SearchTree.CalculateCostToGo: requires an edge between the node and its predecessor, where the source's type assertion panics.
- Dijkstra.SearchTree.AddChild: requires an edge from the parent to the new child, for the reason given for Dijkstra.SearchTree.CalculateCostToGo.
- AStar.SearchTree.Expand: requires the node's graph node to be stored, where the source's `From` panics. It states the children as a multiset, not their order, which follows the unspecified order of `From`.
- Dijkstra.SearchTree.Expand: requires the node's graph node to be stored, where the source's `From` panics. It states the children as a multiset, not their order, which follows the unspecified order of `From`.
- AStarPlan.ExpandOnto: states the pushed children as a multiset of graph nodes, so not which child ends up on top, for the same reason as AStar.SearchTree.Expand.
- AStarPlan.Round: states the children as a multiset, for the same reason as AStar.SearchTree.Expand.
- AStarPlan.UnrollPlanFrom: requires every planning node to stand on a stored node, where the source's `Node` lookup would panic.
- AStarPlan.FindPlan: takes a `fuel` bound, one round per unit, and may end with `FuelExhausted`. The source has no visited set and can loop forever when a cycle is reachable and the goal is not found first. Outside the cases listed above (an absent or isolated start, a start equal to the goal, or a start whose every out-neighbour is the goal), the contract does not say how many rounds a search needs. That count depends on the order in which `From` returns neighbours, which follows Go's unspecified map order, so no function of the inputs fixes it.
- AStarPlan.FindPlan: states that a returned plan is valid, not which valid plan the last-in first-out order finds, and not that it is cheapest. The source orders nothing by cost.
- AStarPlan.FindPlan: the heuristic is one function `h` of the node id. `aStar/plan.go:41` types it as a function of a planning node, while `aStar/planning_node.go:54,106,118` expect a function of an id and a graph; the two do not match in the source.
- The `Graph` field that every planning node carries is a parameter of the operations instead, since all nodes of one search share one graph.
- The planning heap holds arena indices rather than planning-node pointers.
- `Push`'s `x.(PlanningNode)` assertion is not modelled; the heap is generic, so it always holds.
- `Pop`'s `old[n-1] = nil` write is not modelled, because that slot is outside the slice afterwards.
- `Less` is modelled, but the planner never calls it.
- `slices.Reverse`, which reverses in place, is modelled as the function `Reversed` on values.
- PositionGraphs.PGEdge.Weight: does not model the panic when an endpoint is absent, and takes the weight as a function of the endpoint ids rather than computing the norm. The node table holds `*Node` values (positionGraph/graph.go:24), so for an absent endpoint `From`/`To` return a nil `*Node` inside a non-nil `graph.Node`. The `.(*Node)` assertions then succeed, and the panic is the nil dereference of `from.Position` at positionGraph/edge.go:87.

## Findings

| source | as written | input that shows it | evidently intended | confidence | as-written member | corrected member |
|---|---|---|---|---|---|---|
| positionGraph/edge.go:88 | the distance vector is `to.Position − to.Position`, so every edge weighs 0; testing/aStar/planning_node_test.go:230-236 expects CostToGo 1+√2 along a chain of positionGraph edges, which a weight of 0 cannot give | the edge from a node at (0,0) to a node at (1,0): weight 0 | `to.Position − from.Position`, weight 1 (the Euclidean distance) | high; not executed | Geometry.AsWrittenWeightMissesUnitEdge | Geometry.SquaredWeightZeroIff |
| positionGraph/graph.go:179-185 | `WeightedEdge` (line 156) applies an unchecked type assertion to the nil edge that `Edge` returns, so `Weight` panics before its `tempEdge == nil` check can return `(1e10, false)` | `Weight(0, 4)` on a graph with no edge from 0 to 4 | `(1e10, false)` for a missing edge, `(weight, true)` for a stored one | high; not executed | PositionGraphs.PositionGraph.Weight | PositionGraphs.PositionGraph.WeightOrMissing |
