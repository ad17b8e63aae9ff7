# Shortest paths over the road map

This project models the path search of the road-map back end,
`DijkstraAlgorithm.findShortestPath`, and its helper `getNodeByCode`, and
proves what the search promises.

The search runs over an array of locations ("nodes"). Each node has a code,
eight neighbour slots (`nearNode0..7` with `weight0..7`) and a `centralNode`
marker. Given a start code and a finish code, the search does the following:

- It fills a distance table: every node's code at infinity, and the start at 0.
- It queues the start node.
- It polls the nearest queued node and skips the node if it is already visited.
  Otherwise it marks the node visited. It stops when that node is the finish;
  otherwise it relaxes the node's eight slots.
- It relaxes a slot only into a node the search may enter. A central node may
  be entered only when it is the finish, or when the link leaves the start.
  It relaxes only on a strictly shorter distance. A relaxation records the
  predecessor and queues the neighbour again.
- Finally it reads the path back from the predecessor map, starting at the
  finish, and reverses it.

The model keeps the program's own steps:

- The outer loop is `Dijkstra.Search`, and one pass of it is `Dijkstra.Poll`.
- The slot loop is `Dijkstra.Expand`, and one slot is `Dijkstra.RelaxSlot`.
- The path loop is `Dijkstra.Reconstruct`.
- The lookup loop is `Dijkstra.GetNodeByCode`.

Each of these is proved against the invariants of the search and against
specification functions:

- `Graph.Lookup` is the first match by code.
- `Dijkstra.Nearest` is the entry `poll()` removes.
- `Graph.IsRoute` is a walk along links the search may follow.
- `Graph.Cost` is the cost of such a walk.
- `Chains.IsChain` is a path read back from the predecessor map.

Files:

- `graph.dfy` (module `Graph`): nodes, slots, lookup by code, the
  central-node rule, walks, routes and their cost.
- `search.dfy` (module `SearchState`): the state of the search (distance
  table, predecessor map, visited set, queue) and its invariants, with small
  lemmas about how they are kept.
- `steps.dfy` (module `SearchSteps`): how each step of the search keeps the
  invariants, and why the finish's distance is no more than the cost of any
  route when it is polled.
- `chain.dfy` (module `Chains`): the path read back from the predecessor map.
- `dijkstra.dfy` (module `Dijkstra`): the methods of the search itself.

Two proof devices are ghost state and do not exist in the program:

- `stamp` gives each node the time of its last relaxation, and `clock` the
  next time. Along every predecessor link the pair (distance, stamp) strictly
  rises, even across zero-weight links. This is why the predecessor map has no
  cycle and the path loop stops.
- `level` is the distance of the node visited last.

## Model

| member | source | states |
|---|---|---|
| `Dijkstra.GetNodeByCode` | Src/roadmap/src/main/java/com/react/roadmap/function/DijkstraAlgorithm.java:135-142 | The result is the first position in array order whose node has the code; it is None exactly when no node has the code |
| `Graph.Lookup` | Src/roadmap/src/main/java/com/react/roadmap/function/DijkstraAlgorithm.java:135-142 | A found position holds a node with the requested code |
| `Graph.LookupSpec` | Src/roadmap/src/main/java/com/react/roadmap/function/DijkstraAlgorithm.java:135-142 | Lookup fails exactly for codes no node carries; when it succeeds, every earlier node has another code |
| `Graph.LookupIsFirstMatch` | Src/roadmap/src/main/java/com/react/roadmap/function/DijkstraAlgorithm.java:135-142 | The first node carrying a code is the one found, whatever the later nodes hold |
| `Graph.Central` | Src/roadmap/src/main/java/com/react/roadmap/function/DijkstraAlgorithm.java:87-88 | A code is central only when some node carries it; a code no node carries is never central |
| `Graph.CentralIsFirstMarked` | Src/roadmap/src/main/java/com/react/roadmap/function/DijkstraAlgorithm.java:87-88 | A code is central exactly when the first node carrying it, the one getNodeByCode returns, is marked central |
| `Graph.Allowed` | Src/roadmap/src/main/java/com/react/roadmap/function/DijkstraAlgorithm.java:82-92 | The central-node rule for entering a node: only a code some node carries may be entered; a non-central node may always be entered, any node from the start, the finish always, and otherwise a central node never |
| `Graph.NoRouteToUnknownFinish` | Src/roadmap/src/main/java/com/react/roadmap/function/DijkstraAlgorithm.java:81-82 | A slot is followed only into a code of the distance table, so no route ends at a code that no node carries |
| `Graph.CentralOnlyNextToEnds` | Src/roadmap/src/main/java/com/react/roadmap/function/DijkstraAlgorithm.java:87-92 | On a route that repeats no node, a central node can stand inside the route only directly after the start |
| `Dijkstra.InitDistances` | Src/roadmap/src/main/java/com/react/roadmap/function/DijkstraAlgorithm.java:57-60 | The table's keys are the nodes' codes plus the start; the start is at 0 and every other code is at infinity |
| `Dijkstra.Initialize` | Src/roadmap/src/main/java/com/react/roadmap/function/DijkstraAlgorithm.java:53-63 | The start state: nothing visited, no predecessors, only the start's node queued, and every invariant of the search holds |
| `SearchState.Remove` | Src/roadmap/src/main/java/com/react/roadmap/function/DijkstraAlgorithm.java:66 | Polling removes exactly the polled entry and keeps the others in order |
| `Dijkstra.Key` | Src/roadmap/src/main/java/com/react/roadmap/function/DijkstraAlgorithm.java:62 | The comparator's key for an entry is its node's current finite distance in the table, or 0 when the entry has none |
| `Dijkstra.Nearest` | Src/roadmap/src/main/java/com/react/roadmap/function/DijkstraAlgorithm.java:62-66 | The polled entry is an entry of the non-empty queue |
| `Dijkstra.NearestIsFirstMinimal` | Src/roadmap/src/main/java/com/react/roadmap/function/DijkstraAlgorithm.java:62-66 | No queued entry has a smaller current distance than the polled one, and every entry before it has a larger one |
| `SearchState.EntriesRemove` | Src/roadmap/src/main/java/com/react/roadmap/function/DijkstraAlgorithm.java:66 | After a poll, every remaining entry is still the first node with its code and has a finite distance |
| `SearchState.WaitingRemove` | Src/roadmap/src/main/java/com/react/roadmap/function/DijkstraAlgorithm.java:66-74 | Polling the entry of a node that is, or now becomes, visited leaves every reached unvisited node queued |
| `SearchState.LinkedMoreVisited` | Src/roadmap/src/main/java/com/react/roadmap/function/DijkstraAlgorithm.java:74 | Marking more nodes visited keeps every predecessor link valid |
| `SearchState.LayeredVisit` | Src/roadmap/src/main/java/com/react/roadmap/function/DijkstraAlgorithm.java:66-74 | The node polled nearest-first lies no closer than any visited node and no further than any reached unvisited node |
| `SearchSteps.SkipKeeps` | Src/roadmap/src/main/java/com/react/roadmap/function/DijkstraAlgorithm.java:71-73 | Skipping an entry of a visited node keeps every invariant of the search |
| `SearchSteps.VisitKeeps` | Src/roadmap/src/main/java/com/react/roadmap/function/DijkstraAlgorithm.java:66-74 | Marking the nearest unvisited node visited keeps every invariant, and that node becomes the furthest visited one |
| `SearchState.LinkedRelax` | Src/roadmap/src/main/java/com/react/roadmap/function/DijkstraAlgorithm.java:94-97 | After a relaxation, the neighbour's new predecessor is an expanded node other than the finish, along an allowed link, with the neighbour's distance at least the predecessor's plus the link weight; the other links stay valid |
| `SearchState.QueueRelax` | Src/roadmap/src/main/java/com/react/roadmap/function/DijkstraAlgorithm.java:96-98 | Queueing the neighbour's first node after lowering its distance keeps the entries valid and every reached unvisited node queued |
| `SearchState.LayeredRelax` | Src/roadmap/src/main/java/com/react/roadmap/function/DijkstraAlgorithm.java:94-96 | A strictly shorter distance is never given to a visited node, and it only lowers the table |
| `SearchState.MapsRelax` | Src/roadmap/src/main/java/com/react/roadmap/function/DijkstraAlgorithm.java:95-97 | Relaxing a node other than the start keeps the start at 0 without a predecessor, and keeps a distance finite exactly for the start and the nodes with a predecessor |
| `SearchState.Shorter` | Src/roadmap/src/main/java/com/react/roadmap/function/DijkstraAlgorithm.java:95 | The relaxation test is strict: the new distance replaces the old one only when the old one is not already at most the new one, so ties never re-parent a node |
| `Dijkstra.Improves` | Src/roadmap/src/main/java/com/react/roadmap/function/DijkstraAlgorithm.java:82-95 | The guard of a relaxation: it holds only for a filled slot leading to a node of the array, and never for a slot leading back to the expanded node itself |
| `SearchSteps.RelaxKeeps` | Src/roadmap/src/main/java/com/react/roadmap/function/DijkstraAlgorithm.java:94-98 | A relaxation along an allowed slot with a strictly shorter distance keeps every invariant and only lowers distances; the neighbour is not visited |
| `Dijkstra.RelaxSlot` | Src/roadmap/src/main/java/com/react/roadmap/function/DijkstraAlgorithm.java:81-99 | One slot: the new table, predecessor map and queue exactly when the slot leads to a table code that the central-node rule lets the node enter, at a strictly shorter distance; otherwise nothing changes. Every invariant holds, distances only drop, visited nodes keep theirs, and the slot ends relaxed |
| `SearchState.RelaxedMonotone` | Src/roadmap/src/main/java/com/react/roadmap/function/DijkstraAlgorithm.java:94-96 | A slot stays relaxed while distances only drop and the expanded node's own distance stays put |
| `SearchState.SettledLower` | Src/roadmap/src/main/java/com/react/roadmap/function/DijkstraAlgorithm.java:94-96 | The slots of all expanded nodes stay relaxed while distances only drop and the visited nodes keep theirs |
| `Dijkstra.ExpandStep` | Src/roadmap/src/main/java/com/react/roadmap/function/DijkstraAlgorithm.java:80-101 | Relaxing one more slot of the expanded node keeps the record of what changed: only targets of its slots, each re-parented to it at a strictly lower distance, with the old queue as a prefix of the new one |
| `Dijkstra.Expand` | Src/roadmap/src/main/java/com/react/roadmap/function/DijkstraAlgorithm.java:80-101 | After the eight slots every slot of every expanded node is relaxed, every invariant holds and distances only dropped. Exactly the codes whose distance or predecessor changed are targets of the node's slots; each got the node as predecessor and a strictly lower distance equal to the node's distance plus that slot's weight. Every other code keeps its distance and predecessor, and the old queue is a prefix of the new one whose added entries are nodes re-parented to the expanded node |
| `Dijkstra.FewerUnvisited` | Src/roadmap/src/main/java/com/react/roadmap/function/DijkstraAlgorithm.java:74 | Each visit leaves fewer table codes unvisited, which is the first half of the measure that ends the search loop |
| `Dijkstra.Poll` | Src/roadmap/src/main/java/com/react/roadmap/function/DijkstraAlgorithm.java:65-101 | One pass polls the nearest entry. A visited node is skipped with only that entry removed. Otherwise the node is added to the visited set, and the pass stops exactly when it is the finish: then the table and the predecessor map are unchanged, the queue has only lost that entry, and the finish's distance is no more than any route's cost. Otherwise the node is expanded, with the changes Expand states. Distances only drop, every invariant holds, and the number of unvisited codes falls or the queue shrinks |
| `SearchSteps.WalkBound` | Src/roadmap/src/main/java/com/react/roadmap/function/DijkstraAlgorithm.java:65-101 | While the search runs, every walk from the start either ends at a visited node whose distance is at most the walk's cost, or costs at least the distance of some queued entry |
| `SearchSteps.NearestFinishIsOptimal` | Src/roadmap/src/main/java/com/react/roadmap/function/DijkstraAlgorithm.java:76-77 | When the nearest entry is the finish, its distance is no more than the cost of any route |
| `SearchSteps.ExhaustedMeansNoRoute` | Src/roadmap/src/main/java/com/react/roadmap/function/DijkstraAlgorithm.java:65 | When the queue runs empty before the finish is visited, no route reaches the finish |
| `Dijkstra.Search` | Src/roadmap/src/main/java/com/react/roadmap/function/DijkstraAlgorithm.java:52-102 | The search loop ends in one of two ways. Either the finish is visited at a distance no route beats, or the finish is not the start, has no predecessor, and no route reaches it. The start keeps 0 and no predecessor, a distance is finite exactly for the start and the nodes with a predecessor, and every predecessor is an expanded node other than the finish, along an allowed link |
| `Chains.LinkedIsAcyclic` | Src/roadmap/src/main/java/com/react/roadmap/function/DijkstraAlgorithm.java:94-97 | Every recorded predecessor lies strictly below its node in (distance, relaxation time), so the predecessor map has no cycle |
| `Chains.ChainsAgree` | Src/roadmap/src/main/java/com/react/roadmap/function/DijkstraAlgorithm.java:104-110 | The path read back from the predecessor map is determined by the node it ends at |
| `Chains.ChainRises` | Src/roadmap/src/main/java/com/react/roadmap/function/DijkstraAlgorithm.java:107-110 | Along a path read back from the predecessor map, every node is strictly below each later one |
| `Chains.ChainDistinct` | Src/roadmap/src/main/java/com/react/roadmap/function/DijkstraAlgorithm.java:107-110 | A path read back from the predecessor map repeats no node |
| `Chains.ChainIsWalk` | Src/roadmap/src/main/java/com/react/roadmap/function/DijkstraAlgorithm.java:104-110 | A path read back to a reached node starts at the start, follows allowed links only, and costs no more than that node's distance |
| `Dijkstra.Reversed` | Src/roadmap/src/main/java/com/react/roadmap/function/DijkstraAlgorithm.java:112 | The reversal has the same length, and element k is the k-th from the end |
| `Dijkstra.Reconstruct` | Src/roadmap/src/main/java/com/react/roadmap/function/DijkstraAlgorithm.java:104-112 | The path loop stops, and its reversed result is the chain of recorded predecessors that ends at the finish |
| `Dijkstra.FindShortestPath` | Src/roadmap/src/main/java/com/react/roadmap/function/DijkstraAlgorithm.java:52-115 | The result ends at the finish. If some route reaches the finish, the result is such a route, no route is cheaper, no node repeats, and a central node stands inside it only right after the start. Otherwise the result is exactly the finish. It is exactly the start when start and finish coincide, and exactly the finish when no node carries the finish code |

## Left out

- `main`, `loadNodesFromFile` and the JSON mapping are left out. They are
  command-line handling, file I/O and library calls.
- The `Node` class is not part of this model. A node is a datatype with its
  code, its eight slots as `Option<Edge>` values and a boolean for
  `centralNode` equal to "O". This replaces the reflective getters
  `getNodeProperty`, `getNodePropertyDouble` and `capitalizeFirstLetter`.
  Their exception fallbacks (null, or a weight of 0.0) and the locale-dependent
  `toUpperCase` are not modelled. One fallback still shows through: a code no
  node carries is not central.
- Codes are an abstract type that is only compared and used as a key. Their
  text is not modelled.
- Distances and weights are natural numbers with an explicit infinity, not
  `double` and `Double.POSITIVE_INFINITY`. Negative weights, rounding and NaN
  are not modelled.
- Java's `PriorityQueue` is modelled as the sequence of offered entries. A poll
  removes the first entry with the smallest current distance. The heap itself
  is not modelled. Its comparator reads the live distance table, so after a
  distance drops the real heap may poll an entry that is not the smallest.
  Every result rests on the extract-min poll, not only optimality: the
  acyclic predecessor map, the shape of the returned route, the central-node
  rule and termination are all proved through invariants that `Poll` keeps
  only because it takes `Dijkstra.Nearest`. Ties are broken by offer order,
  not by the heap's order.
- `Dijkstra.Search`: the start code must belong to some node. Otherwise
  `offer(null)` throws a NullPointerException, and the model does not include
  the exception. The null check in the search loop can then never fire and is
  left out.
- Node codes need not be unique. Lookups take the first node carrying a code,
  as `getNodeByCode` does. A later node with the same code is never offered to
  the queue, so its own slots are never read.
- Nothing is shared between calls, and the search has no I/O or concurrency.
