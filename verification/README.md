# Grid path planners with capes: a verified model

This project models the planning core of two agents for a grid game. In the game an avatar must reach a portal. Cells may be forbidden, or be walls of one of two colours. A wall of a colour can be crossed only while the avatar holds the cape of that colour, and capes are picked up on cells listed in two ordered pickup lists.

- `nodes.dfy` (module `Nodes`): the search node of `Node.java`, with its two constructors, `equals`, `compareTo` and `hashCode`.
- `expansion.dfy` (module `Expansion`): `nodeChildren`, which the two agents share (AgenteDijkstra.java lines 138-190 and AgenteLRTAStar.java lines 133-190 differ only in cost, creation order and heuristic). It covers the four moves in the order RIGHT, LEFT, UP, DOWN, the bounds and forbidden check, the two reverse wall-removal loops and the pickup rule. The successor relation on search states is `StepKey`.
- `dijkstra.dfy` (module `Dijkstra`, class `DijkstraAgent`): the offline planner, `calculatePath`. It is a uniform-cost search with a priority queue and a closed hash set, both keyed by node identity. It ends with the walk up the father links that fills the path stack, and `act` drains that stack one move per call. The heap of nodes is an arena (`arena`): `father` is an index into it, and the open queue holds arena indices.
- `lrta.dfy` (module `Lrta`, class `LrtaAgent`): the online planner, `calculateNextMovement`. Each call expands the current node, seeds each child's heuristic from the learned table or from the Manhattan distance, and sorts the children stably. It then raises the table entry of the node it leaves to `max(h, second.cost + first.h)` and moves to the best child.

What is proved, in the system's own terms:

- **Identity and hashing.** `equals` is equality of the state key, so it is an equivalence, and `hashCode` agrees with it. The closed set and the learned table are therefore collections keyed by state.
- **Successors.** Children are legal successors in generation order.
- **Search invariant.** The open queue never holds two equal nodes and never a closed one. Expanding a node adds exactly its successor states to the known ones, and queues each new one once, behind the rest of the queue.
- **Paths.** The path pushed for a goal has exactly `cost` moves, and it replays from the start to the goal. Popping yields it from root to goal.
- **Optimality and completeness.** From an empty queue and closed set, the search stops on a portal node at a shortest distance, or with an empty queue only when no route to the portal exists.
- **LRTA step.** The move taken is the first best one, the entry of the state left behind is backed up, and learned values never decrease.

## Model

| member | source | states |
|---|---|---|
| Nodes.NewNodeWithHeuristic | src/tracks/singlePlayer/evaluacion/src_RAMON/Node.java:27-38 | every argument lands in its own field (position, capes, lists, cost, heuristic, father, last action); the creation order starts at 0 |
| Nodes.NewNode | src/tracks/singlePlayer/evaluacion/src_RAMON/Node.java:22-24 | heuristic is always 0; the `redCape` argument ends up in `blueCape` and the `blueCape` argument in `redCape`; the lists are stored as given |
| Nodes.NewNodeSwapHarmless | src/tracks/singlePlayer/evaluacion/src_RAMON/Node.java:22-23 | with equal cape arguments, which is how every caller uses it, the swap leaves both flags equal to that argument |
| Nodes.Equals | src/tracks/singlePlayer/evaluacion/src_RAMON/Node.java:42-70 | `equals` holds exactly when position, both capes, both list sizes and both lists element by element agree, i.e. when the state keys are equal |
| Nodes.EqualsIsEquivalence | src/tracks/singlePlayer/evaluacion/src_RAMON/Node.java:44-67 | `equals` is reflexive, symmetric and transitive |
| Nodes.EqualsIgnoresBookkeeping | src/tracks/singlePlayer/evaluacion/src_RAMON/Node.java:52-67 | cost, heuristic, father, last action and creation order never affect `equals` |
| Nodes.IntCompare | src/tracks/singlePlayer/evaluacion/src_RAMON/Node.java:75 | `Integer.compare` is -1, 0 or 1, negative exactly when less and 0 exactly when equal |
| Nodes.Compare | src/tracks/singlePlayer/evaluacion/src_RAMON/Node.java:73-89 | `compareTo` is -1/0/1, negative exactly when the first node comes strictly earlier in lexicographic (f, g, creation order), 0 exactly when all three agree |
| Nodes.CompareIsTotalPreorder | src/tracks/singlePlayer/evaluacion/src_RAMON/Node.java:73-89 | `compareTo` is antisymmetric and transitive, including mixed strict and non-strict steps |
| Nodes.CompareIgnoresState | src/tracks/singlePlayer/evaluacion/src_RAMON/Node.java:75-88 | `compareTo` reads only cost, heuristic and creation order, not position, capes, lists, father or last action |
| Nodes.Wrap32 | src/tracks/singlePlayer/evaluacion/src_RAMON/Node.java:97 | Java `int` arithmetic: the result is in the 32-bit range, congruent to the exact value, and equal to it when that is in range |
| Nodes.HashCode | src/tracks/singlePlayer/evaluacion/src_RAMON/Node.java:97 | `Objects.hash` over x, y, red cape and the two list sizes, in 32-bit arithmetic, gives a 32-bit value |
| Nodes.HashConsistentWithEquals | src/tracks/singlePlayer/evaluacion/src_RAMON/Node.java:97 | nodes equal under `equals` have equal hash codes, so the hashed set and map behave as collections keyed by state |
| Nodes.HashIgnoresBlueCapeAndContents | src/tracks/singlePlayer/evaluacion/src_RAMON/Node.java:97 | the hash does not depend on the blue cape or on list contents, only on list sizes |
| Expansion.TargetIsNeighbour | src/tracks/singlePlayer/evaluacion/src_RAMON/AgenteDijkstra.java:145-155 | each of the four moves leads to a cell at Manhattan distance 1 from the parent |
| Expansion.LegalMoves | src/tracks/singlePlayer/evaluacion/src_RAMON/AgenteDijkstra.java:145-164 | at most four moves survive, exactly those whose target is on the grid, not forbidden and not a wall the parent lacks the cape for, in the order RIGHT, LEFT, UP, DOWN |
| Expansion.OpenThenPassable | src/tracks/singlePlayer/evaluacion/src_RAMON/AgenteDijkstra.java:145-164 | dropping the wall-blocked moves from the on-grid, non-forbidden ones, order kept, gives exactly the legal moves |
| Expansion.RemoveFirstSpec | src/tracks/singlePlayer/evaluacion/src_RAMON/AgenteDijkstra.java:175-181 | `ArrayList.remove(Object)` leaves a list without the cell unchanged, and otherwise cuts out exactly its first occurrence: one copy fewer, one element shorter, nothing new |
| Expansion.ArriveRule | src/tracks/singlePlayer/evaluacion/src_RAMON/AgenteDijkstra.java:167-184 | on arrival the child stands on the target cell; each list loses one copy of that cell if it had one; a red pickup gives red and not blue; a blue pickup alone gives blue and not red; with no pickup the parent capes and lists are kept; never both capes unless the parent had both |
| Expansion.ArriveShrinks | src/tracks/singlePlayer/evaluacion/src_RAMON/AgenteDijkstra.java:167-184 | arriving never lengthens a pickup list and never adds a cell to it |
| Expansion.ArriveConsumes | src/tracks/singlePlayer/evaluacion/src_RAMON/AgenteDijkstra.java:175-184 | a pickup listed at most once in the parent is absent from the child |
| Expansion.StepKey | src/tracks/singlePlayer/evaluacion/src_RAMON/AgenteDijkstra.java:145-184 | a move has a successor state exactly when it is one of the legal moves |
| Expansion.PickUp | src/tracks/singlePlayer/evaluacion/src_RAMON/AgenteDijkstra.java:168-184 | the child gets the parent state after the pickup rule at its own cell; its cost, heuristic, father, last action and creation order are untouched |
| Expansion.ChildIsStep | src/tracks/singlePlayer/evaluacion/src_RAMON/AgenteDijkstra.java:145-184 | a child built for a legal move carries the successor state, the given cost and father link, that move as last action and heuristic 0; it stands on the grid, not on a forbidden cell, and on a wall only with the parent cape of that colour |
| Expansion.Candidates | src/tracks/singlePlayer/evaluacion/src_RAMON/AgenteDijkstra.java:145-155 | the four guarded `add`s produce one placeholder per on-grid, non-forbidden move, in the order RIGHT, LEFT, UP, DOWN |
| Expansion.RemoveWalled | src/tracks/singlePlayer/evaluacion/src_RAMON/AgenteDijkstra.java:159-161 | one reverse removal loop keeps exactly the children not on a wall of that colour (or all of them when the parent holds the cape), order preserved |
| Expansion.RemoveBlocked | src/tracks/singlePlayer/evaluacion/src_RAMON/AgenteDijkstra.java:159-164 | the two reverse removal loops together keep exactly the children that are passable for the parent, order preserved |
| Expansion.CandidatesThenRemoveBlocked | src/tracks/singlePlayer/evaluacion/src_RAMON/AgenteDijkstra.java:145-164 | placeholders of the open moves, filtered by the wall rules, are the placeholders of the legal moves |
| Expansion.Survivors | src/tracks/singlePlayer/evaluacion/src_RAMON/AgenteDijkstra.java:140-164 | after generation and wall removal the list holds one placeholder per legal move, in generation order |
| Dijkstra.DiscoveredShortest | src/tracks/singlePlayer/evaluacion/src_RAMON/AgenteDijkstra.java:219-225 | a state first met while expanding a minimum-cost node, with the frontier covered, lies at least one move beyond that cost from the start |
| Dijkstra.ClosedHoldsAllReachable | src/tracks/singlePlayer/evaluacion/src_RAMON/AgenteDijkstra.java:203 | once the queue is empty, every state reachable from the start is closed |
| Dijkstra.Head | src/tracks/singlePlayer/evaluacion/src_RAMON/AgenteDijkstra.java:207 | the chosen queue position holds a minimum of the queue under `compareTo` |
| Dijkstra.OpenContains | src/tracks/singlePlayer/evaluacion/src_RAMON/AgenteDijkstra.java:223 | `PriorityQueue.contains` is true exactly when some queued node is equal to the child |
| Dijkstra.KeysOfRemove | src/tracks/singlePlayer/evaluacion/src_RAMON/AgenteDijkstra.java:207 | polling one entry keeps every other queued state, keeps the queue free of duplicates and disjoint from the enlarged closed set, and keeps every queued cost shortest |
| Dijkstra.KeysOfPush | src/tracks/singlePlayer/evaluacion/src_RAMON/AgenteDijkstra.java:224 | `openNodes.add` adds exactly the identity of the new node to the queued identities |
| Dijkstra.DistinctPush | src/tracks/singlePlayer/evaluacion/src_RAMON/AgenteDijkstra.java:223-224 | queueing a node equal to no queued node keeps the queue duplicate-free |
| Dijkstra.Successors | src/tracks/singlePlayer/evaluacion/src_RAMON/AgenteDijkstra.java:217-225 | the successor states of a state are exactly the states one legal move away |
| Dijkstra.PopTakesFront | src/tracks/singlePlayer/evaluacion/src_RAMON/AgenteDijkstra.java:127-128 | the top of the stack is the first move still to make, and what remains pops in order |
| Dijkstra.DijkstraAgent.constructor | src/tracks/singlePlayer/evaluacion/src_RAMON/AgenteDijkstra.java:33-39 | the planner starts with an empty path, an empty queue and closed set, and creation counter 0 |
| Dijkstra.DijkstraAgent.TraceReachesNode | src/tracks/singlePlayer/evaluacion/src_RAMON/AgenteDijkstra.java:252-257 | following father links from any stored node gives exactly `cost` moves, and replaying them from the start state reaches that node state |
| Dijkstra.DijkstraAgent.NodeChildren | src/tracks/singlePlayer/evaluacion/src_RAMON/AgenteDijkstra.java:138-190 | one child per legal move, in generation order, each the successor with cost one more than the father, linked to the father, numbered with consecutive creation orders; the counter advances by the number of children |
| Dijkstra.DijkstraAgent.Number | src/tracks/singlePlayer/evaluacion/src_RAMON/AgenteDijkstra.java:167-187 | the last loop applies the pickup rule to each child and gives child j the creation number counter+j; the counter advances by the number of children |
| Dijkstra.DijkstraAgent.ChildrenFit | src/tracks/singlePlayer/evaluacion/src_RAMON/AgenteDijkstra.java:146-187 | every child is a legal successor of the expanded node, one move further, with the expanded node as father; the children carry strictly increasing creation numbers from the counter value before `nodeChildren` up to the counter after it |
| Dijkstra.DijkstraAgent.ChildrenShortest | src/tracks/singlePlayer/evaluacion/src_RAMON/AgenteDijkstra.java:219-225 | every child whose state is not yet known is discovered at a shortest cost |
| Dijkstra.DijkstraAgent.ChildKeys | src/tracks/singlePlayer/evaluacion/src_RAMON/AgenteDijkstra.java:217-225 | the identities of the expanded node's children are exactly the successor states of its state |
| Dijkstra.DijkstraAgent.InsertKeeps | src/tracks/singlePlayer/evaluacion/src_RAMON/AgenteDijkstra.java:224 | appending a well-formed node keeps every stored node well formed and adds exactly its identity to the queue |
| Dijkstra.DijkstraAgent.InsertTidy | src/tracks/singlePlayer/evaluacion/src_RAMON/AgenteDijkstra.java:219-225 | adding a node equal to no closed and no queued node, at a shortest cost, keeps the queue duplicate-free, disjoint from closed and shortest |
| Dijkstra.DijkstraAgent.Offer | src/tracks/singlePlayer/evaluacion/src_RAMON/AgenteDijkstra.java:221-225 | a child is queued exactly when no equal node is closed or queued; otherwise nothing changes; the queued identities grow by the child unless it is closed; a duplicate-free queue stays duplicate-free |
| Dijkstra.DijkstraAgent.PushedStep | src/tracks/singlePlayer/evaluacion/src_RAMON/AgenteDijkstra.java:221-225 | offering one more child extends the loop state: the known identities gain the child's, and a new child is appended and queued once |
| Dijkstra.DijkstraAgent.PushChildren | src/tracks/singlePlayer/evaluacion/src_RAMON/AgenteDijkstra.java:219-225 | afterwards the known identities are exactly the old ones plus the children's; the old arena and queue are kept as prefixes; each appended node is one of the offered children, appended to the arena and queued at its own index, and the appended nodes are pairwise unequal and were unknown before, so each new identity is queued once; with nothing new the queue is unchanged; a duplicate-free queue stays duplicate-free and a tidy one tidy; the appended nodes keep the children's order, so their creation numbers increase along the arena and stay in the children's range |
| Dijkstra.DijkstraAgent.HeadBound | src/tracks/singlePlayer/evaluacion/src_RAMON/AgenteDijkstra.java:207 | with every heuristic 0, the polled minimum is no further from the start than any queued state |
| Dijkstra.DijkstraAgent.Expand | src/tracks/singlePlayer/evaluacion/src_RAMON/AgenteDijkstra.java:214-225 | after expanding a closed node the known identities are exactly the old ones plus its successor states; the creation counter advances by exactly the number of legal moves; the appended nodes are children of the expanded node (legal successor state, cost one more, that father, that move), pairwise unequal and unknown before, each queued once after the old queue, with creation numbers strictly increasing along the arena within the counter's old and new values; a duplicate-free queue stays duplicate-free; from scratch the search invariant holds again |
| Dijkstra.DijkstraAgent.Poll | src/tracks/singlePlayer/evaluacion/src_RAMON/AgenteDijkstra.java:207 | `poll` removes exactly one entry, a minimum of the queue under `compareTo`: the queue afterwards is the old one as a multiset minus that entry; the other identities are kept, and the queue stays tidy against the closed set plus the polled state |
| Dijkstra.DijkstraAgent.PolledAtPortal | src/tracks/singlePlayer/evaluacion/src_RAMON/AgenteDijkstra.java:207-211 | when a portal node is polled from a covered, shortest-first frontier, every route from the start to the portal is at least its cost long |
| Dijkstra.DijkstraAgent.ExpandNext | src/tracks/singlePlayer/evaluacion/src_RAMON/AgenteDijkstra.java:203-225 | one iteration polls a minimum; a portal node leaves the arena, the closed set and the creation counter unchanged and the queue is the old one minus the polled entry; otherwise the node is closed, the rest of the old queue is followed by its newly queued children, the known identities gain exactly its successor states, the counter advances by the number of legal moves, and the children are distinct, were unknown and carry increasing creation numbers from the counter's range; from scratch the polled cost is shortest |
| Dijkstra.DijkstraAgent.RootOk | src/tracks/singlePlayer/evaluacion/src_RAMON/AgenteDijkstra.java:198 | the root node built from the start cell has the start state, cost 0, no father and `ACTION_NIL` |
| Dijkstra.DijkstraAgent.QueueRoot | src/tracks/singlePlayer/evaluacion/src_RAMON/AgenteDijkstra.java:198 | the root node built from the start cell is appended to the arena and queued; from an empty queue and closed set the search invariant then holds |
| Dijkstra.DijkstraAgent.RootSearchInv | src/tracks/singlePlayer/evaluacion/src_RAMON/AgenteDijkstra.java:198 | a queue holding only the root, with nothing closed, covers the frontier, has no duplicates and a shortest cost |
| Dijkstra.DijkstraAgent.Search | src/tracks/singlePlayer/evaluacion/src_RAMON/AgenteDijkstra.java:198-246 | the loop ends on a portal node or with an empty queue; from scratch a portal node is at a shortest distance, and an empty queue means the portal is unreachable |
| Dijkstra.DijkstraAgent.PushPath | src/tracks/singlePlayer/evaluacion/src_RAMON/AgenteDijkstra.java:252-257 | walking father links until `ACTION_NIL` pushes the goal route so that the stack pops it from root to goal |
| Dijkstra.DijkstraAgent.FatherLink | src/tracks/singlePlayer/evaluacion/src_RAMON/AgenteDijkstra.java:254-256 | a stored node has a father exactly when its last action is not `ACTION_NIL`; the father comes earlier and the route extends the father route by the last action |
| Dijkstra.DijkstraAgent.CalculatePath | src/tracks/singlePlayer/evaluacion/src_RAMON/AgenteDijkstra.java:196-261 | returns true exactly when it stops on a portal node; then the pushed moves are a route of `cost` moves from the start to it, shortest from scratch; false leaves the path unchanged and, from scratch, means the portal is unreachable; a start on the portal gives true with nothing pushed |
| Dijkstra.DijkstraAgent.Pop | src/tracks/singlePlayer/evaluacion/src_RAMON/AgenteDijkstra.java:127-130 | an empty stack gives `ACTION_NIL`; otherwise exactly the first remaining move is returned and the rest stay in order |
| Dijkstra.DijkstraAgent.Act | src/tracks/singlePlayer/evaluacion/src_RAMON/AgenteDijkstra.java:114-131 | plans only when the path is empty and the game is running; otherwise the search state and the creation counter are untouched and one move is popped; after a successful plan successive calls return the route from root to portal, shortest from scratch; a failed plan returns `ACTION_NIL` |
| Lrta.Manhattan | src/tracks/singlePlayer/evaluacion/src_RAMON/AgenteLRTAStar.java:186 | the Manhattan distance to the portal is never negative and is 0 exactly on the portal |
| Lrta.Max | src/tracks/singlePlayer/evaluacion/src_RAMON/AgenteLRTAStar.java:231 | `Math.max` is at least both arguments and equal to one of them |
| Lrta.FirstMinIsFirstMinimal | src/tracks/singlePlayer/evaluacion/src_RAMON/AgenteLRTAStar.java:222 | the element the sort takes first is ranked no later than every element, and every element before it is ranked strictly later |
| Lrta.SortPermutes | src/tracks/singlePlayer/evaluacion/src_RAMON/AgenteLRTAStar.java:222 | the stable sort is a permutation of the children |
| Lrta.SortOrders | src/tracks/singlePlayer/evaluacion/src_RAMON/AgenteLRTAStar.java:222 | the stable sort is in ascending `compareTo` order |
| Lrta.SortedHeadIsBest | src/tracks/singlePlayer/evaluacion/src_RAMON/AgenteLRTAStar.java:222-223 | among children of cost 1 and creation order 0 in generation order, the head after sorting has the least heuristic, and every child generated before it has a strictly greater one |
| Lrta.SortedFromChildren | src/tracks/singlePlayer/evaluacion/src_RAMON/AgenteLRTAStar.java:223-226 | the first and second child read after sorting are children |
| Lrta.RankIsHeuristic | src/tracks/singlePlayer/evaluacion/src_RAMON/AgenteLRTAStar.java:222 | children with equal cost and creation order compare by heuristic alone |
| Lrta.Recorded | src/tracks/singlePlayer/evaluacion/src_RAMON/AgenteLRTAStar.java:217-219 | after the insertion loop every child state maps to that child heuristic, given that equal states were seeded alike |
| Lrta.LrtaAgent.constructor | src/tracks/singlePlayer/evaluacion/src_RAMON/AgenteLRTAStar.java:36-37 | the agent starts with no current node and an empty table |
| Lrta.LrtaAgent.NodeChildren | src/tracks/singlePlayer/evaluacion/src_RAMON/AgenteLRTAStar.java:133-190 | one child per legal move, in generation order, each the successor with cost 1 and creation order 0, its heuristic seeded from the table or the Manhattan distance |
| Lrta.LrtaAgent.SeedAll | src/tracks/singlePlayer/evaluacion/src_RAMON/AgenteLRTAStar.java:162-187 | the last loop applies the pickup rule to each child and then sets its heuristic to the table value of its state, or to its Manhattan distance when the state is not in the table |
| Lrta.LrtaAgent.SeededSteps | src/tracks/singlePlayer/evaluacion/src_RAMON/AgenteLRTAStar.java:140-186 | each child is the successor of the parent by its move, with cost 1, creation order 0, that move as last action and the seeded heuristic |
| Lrta.LrtaAgent.BestChild | src/tracks/singlePlayer/evaluacion/src_RAMON/AgenteLRTAStar.java:222-223 | the first child after sorting is a legal successor of cost 1 that carries its state's seeded heuristic; that heuristic is the least over all legal moves and strictly less than that of every move generated before it |
| Lrta.LrtaAgent.BestMoveUnique | src/tracks/singlePlayer/evaluacion/src_RAMON/AgenteLRTAStar.java:222-236 | the best-move condition fixes the move: any two children meeting it take the same move to the same state with the same heuristic |
| Lrta.LrtaAgent.ChildOfMove | src/tracks/singlePlayer/evaluacion/src_RAMON/AgenteLRTAStar.java:140-186 | every legal move has a child, which carries the seeded heuristic of the successor state |
| Lrta.LrtaAgent.Remember | src/tracks/singlePlayer/evaluacion/src_RAMON/AgenteLRTAStar.java:217-219 | the table gains exactly the child states it lacked, each with a heuristic of a child of that state; existing entries are never overwritten |
| Lrta.LrtaAgent.NewEntriesSeeded | src/tracks/singlePlayer/evaluacion/src_RAMON/AgenteLRTAStar.java:183-186 | every entry the insertion loop adds for seeded children is a successor state whose value is its table-or-Manhattan seed |
| Lrta.LrtaAgent.RecordChildren | src/tracks/singlePlayer/evaluacion/src_RAMON/AgenteLRTAStar.java:213-219 | the children are the seeded successors under the old table; afterwards every child state maps to that child's heuristic, old entries are unchanged, and every new entry is a successor state holding its seeded heuristic |
| Lrta.LrtaAgent.Picked | src/tracks/singlePlayer/evaluacion/src_RAMON/AgenteLRTAStar.java:222-226 | the first and second child are children of cost 1; the first stands on the grid off the parent state and holds its heuristic in the table; every successor state is in the table |
| Lrta.LrtaAgent.ChildMoves | src/tracks/singlePlayer/evaluacion/src_RAMON/AgenteLRTAStar.java:140-150 | a child stands on the grid next to its parent, so its state differs from the parent state |
| Lrta.LrtaAgent.SuccessorsRecorded | src/tracks/singlePlayer/evaluacion/src_RAMON/AgenteLRTAStar.java:217-219 | once every child state is in the table, every successor state is |
| Lrta.LrtaAgent.Backup | src/tracks/singlePlayer/evaluacion/src_RAMON/AgenteLRTAStar.java:231 | writing max(h, 1 + best h) for the current state, after the children were recorded, records every successor, keeps other entries, admits only successor states holding their seeds as new entries, never lowers any entry and keeps the best child's entry |
| Lrta.LrtaAgent.SortedChildren | src/tracks/singlePlayer/evaluacion/src_RAMON/AgenteLRTAStar.java:213-226 | one sorted child per legal move; the first is the best move under the old table, carries its state's seeded heuristic, costs 1, stands on the grid off the parent and holds its heuristic in the table; every successor is recorded, new entries are successor states holding their seeds, and no old entry changes |
| Lrta.LrtaAgent.Advance | src/tracks/singlePlayer/evaluacion/src_RAMON/AgenteLRTAStar.java:213-236 | with no legal move it fails with nothing changed; otherwise it moves to the unique best child (least seeded heuristic, first in generation order on ties) and returns its move; the table then records every successor, whose new entries hold their seeds, keeps every other entry, and sets the left state to max(h, 1 + best h); learned values never decrease |
| Lrta.LrtaAgent.CalculateNextMovement | src/tracks/singlePlayer/evaluacion/src_RAMON/AgenteLRTAStar.java:196-237 | the first call starts at the avatar cell; on the portal it returns `ACTION_NIL` and changes nothing; otherwise it takes the LRTA* step of `Advance`: the unique best child, new entries holding their seeds, the left state backed up; learned values never decrease |

## Left out

- Agent constructors: reading the host observation, the pixel-to-cell scaling with `Math.floor`, and classifying object types are not modelled. The grid extent, forbidden cells, wall cells, pickup lists, start cell and portal cell are parameters (`Grid`, constructor arguments).
- Timing, logging and the expanded-node counters in both `act` methods are telemetry and are not modelled. So is the avatar-position conversion that LRTA `act` performs only for logging. LRTA `act` itself only forwards to `calculateNextMovement`, whose avatar cell is a parameter.
- The commented-out "better cost" block of `calculatePath` (AgenteDijkstra.java lines 229-243) is dead code.
- `PriorityQueue`, `HashSet`, `HashMap` and `Stack` are values. The queue is a sequence of arena indices, and `poll` removes a minimum under `compareTo` found by a scan. When several nodes tie, the queue's internal heap may pick a different minimum. The contracts hold for every minimum, because ties under `compareTo` always have equal cost.
- `Collections.sort` is `Lrta.StableSort`, a selection of the first minimum. Any stable sort gives the same output, since the output is fixed by being ordered, a permutation and stable. The in-place mutation of the Java list is not modelled.
- `tools.Vector2d` holds doubles. Cells here are integer pairs, and the int-to-double portal comparisons are integer comparisons.
- Aliasing: nodes are values. The source stores the initial pickup lists by reference in the root node, but children always work on fresh copies, so no list is ever shared and mutated. The null lists of placeholder children are empty lists, since they are overwritten before use.
- Nodes.Compare: `cost + heuristic` and the creation counter are unbounded integers. Java `int` sums would wrap around past 2^31 - 1, which grid searches never reach.
- Lrta.LrtaAgent.NodeChildren: LRTA children carry no father link (`NoParent`) instead of the current node, because the LRTA agent never reads `father`.
- Lrta.LrtaAgent.Advance: with no legal move the source fails at `children.get(0)` with an index exception. The model returns the outcome `NoChildren` and leaves the current node and the table unchanged, as at that point the source has changed nothing. A caller that wants a no-op here must map `NoChildren` to `ACTION_NIL`.
- Dijkstra.DijkstraAgent.constructor: requires the start cell to be on the grid. From an off-grid start, the array accesses of `nodeChildren` would throw during the first expansion.
- Lrta.LrtaAgent.CalculateNextMovement: the first call requires the avatar cell to be on the grid, and `nodeChildren` requires the same of its father. Off the grid, the source's array accesses would throw.
- Dijkstra.DijkstraAgent.CalculatePath: shortest distance and completeness are stated only for a call that starts from an empty queue and closed set. After the stack drains, `act` calls it again with the stale queue and closed set. For such reruns the model proves only that the well-formedness invariants hold and the search terminates, plus the route facts (a portal result has a route of `cost` moves that replays from the start).
- Dijkstra.DijkstraAgent.Act: the same restriction applies to the optimality of the moves it returns.
- Dijkstra.DijkstraAgent.Search: termination uses a measure over the finite state space (cells on the grid times cape flags times short lists drawn from the initial pickups). Complexity bounds are not modelled.
