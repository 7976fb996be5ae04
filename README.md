# Starfield navigator graph engine, modelled in Dafny

The graph engine of the Starfield navigator turns a universe of named star
systems into an undirected, weighted graph: one node per system, in the
universe's order, and one connection for every pair of systems whose
distance is within the jump range, weighted by that distance. On that graph
it answers several queries:

- neighbour queries (`are_neighbors`, `get_neighbor_info`);
- a shortest-path tree from one source (`get_dijkstra`), which marks
  unreachable nodes with a sentinel distance and predecessor -1;
- the cheapest route between two named systems (`get_jump_path`), read off
  that tree by following predecessors back from the destination;
- every system ordered by distance from a named one (`get_closest`).

Connections are stored in a map keyed by the unordered pair of their
endpoints. Each node keeps an adjacency list of the keys of the connections
that touch it.

The model does not follow the C++ function bodies. Each operation is
written as the standard algorithm its declaration and field defaults call
for, and is proved against what `graph.h` declares.

Layout:

- `pair_id.dfy` (`PairIds`): the connection key, taken as the sorted index
  pair, and its symmetry and injectivity.
- `universe.dfy` (`Universe`): systems, positions and lookup by name.
- `graph_types.dfy` (`GraphTypes`): these value types:
  - nodes;
  - connections;
  - `shortest_path` entries, with the sentinel `NoDistance`;
  - the shortest-path tree;
  - neighbour information;
  - jump paths;
  - the storage invariant `WellFormed`.
- `paths.dfy` (`Paths`): adjacency, weights, walks, walk cost and
  reachability. These are the terms that shortest paths and routes are
  specified in.
- `dijkstra.dfy` (`Dijkstra`): what a finished tree promises, and the
  select-and-relax loop's state and steps, with the lemmas that prove it.
  It also holds the predecessor walk behind `get_jump_path`.
- `graph.dfy` (`Graph`): the `graph` class. It has the fields
  `jumpRange`, `nodes` and `connections`, its constructors and methods, and
  the ascending sort behind `get_closest`.

Weights and distances are mathematical reals. The constructor takes the
distance between two positions as a function supplied by the caller,
required to be non-negative and symmetric. `GetClosest` takes its metric
as a separate parameter, with no requirement on it and no tie to the
function the graph was built with; the C++ uses the positions' Euclidean
distance for both.

## Model

| member | source | states |
|---|---|---|
| Universe.FirstIndexOf | starfield_navigator/graph.h:36 | result is -1 exactly when the name is absent; otherwise it is an index holding the name with no earlier occurrence |
| Universe.Universe.GetIndexByName | starfield_navigator/graph.h:36 | -1 iff no system has the name; otherwise the first system with that name |
| Universe.Universe.GetPositionByName | starfield_navigator/graph.h:35 | for a name that exists, the position of the first system with that name |
| PairIds.PairId | starfield_navigator/graph.h:96 | the connection key holds the two endpoints as an ordered pair (low <= high) |
| PairIds.PairIdInjective | starfield_navigator/graph.h:96 | two pairs have the same key iff they are the same unordered pair |
| GraphTypes.Connection.ContainsNodeIndex | starfield_navigator/graph.h:53 | true iff the index is one of the two endpoints, that is, iff the connection joins it to some node |
| GraphTypes.ContainsNodeIndexMatchesKey | starfield_navigator/graph.h:53 | for a stored connection, `contains_node_index(i)` holds iff i is one of the two nodes its key names, and the connection joins those two |
| GraphTypes.NewShortestPathTree | starfield_navigator/graph.h:57-70 | a fresh tree records its source and has one entry per node, each with the sentinel distance and predecessor -1 |
| GraphTypes.JumpPath.ContainsConnection | starfield_navigator/graph.h:83 | true iff the connection's endpoints are two consecutive stops, in either order |
| GraphTypes.StopsContain | starfield_navigator/graph.h:83 | the recursive scan behind `contains_connection`; it is true iff some consecutive pair of stops is joined by the connection |
| Graph.Graph.Empty | starfield_navigator/graph.h:98 | the default graph has jump range 0, no nodes and no connections, and satisfies the storage invariant |
| Graph.Graph.constructor | starfield_navigator/graph.h:99 | one node per system in order, with name and position; two distinct nodes are neighbours iff their distance is at most the jump range; the connection's weight is that distance; the storage invariant holds |
| Graph.Graph.ConnectRow | starfield_navigator/graph.h:99 | connects node i to exactly the later nodes within range, with their distance as weight, and leaves every other pair unchanged |
| Graph.Graph.GetNodeIndexByName | starfield_navigator/graph.h:101 | -1 iff no node has the name; otherwise a node with that name and no earlier one |
| Graph.Graph.Connect | starfield_navigator/graph.h:102 | stores the connection under its pair key, replacing an existing one; names and positions are unchanged; adjacency lists stay in step with the map |
| Graph.Graph.AddConnection | starfield_navigator/graph.h:102 | with both names present and distinct, the connection map becomes the old map with the pair's key mapped to the new connection |
| Graph.ReversedPairReplaces | starfield_navigator/graph.h:102 | storing (a,b) and then (b,a) leaves one key for the pair, holding the second connection |
| Graph.Graph.GetDijkstra | starfield_navigator/graph.h:103 | the tree for source s has the source at distance 0 with predecessor -1; a node keeps the sentinel and -1 iff it is unreachable; every recorded distance is the weight of some walk from s and no walk is lighter; each reached non-source node's predecessor is a reached neighbour whose distance plus the connecting weight is the node's own; predecessor chains end |
| Dijkstra.NextToVisit | starfield_navigator/graph.h:103 | picks an unvisited reached node of least distance, or -1 iff every unvisited node is unreached |
| Dijkstra.RelaxConnection | starfield_navigator/graph.h:103 | relaxing one connection of the visited node changes only its far end, never raises a distance, and bounds the far end by the visited node's distance plus the weight |
| Dijkstra.RelaxFrom | starfield_navigator/graph.h:103 | after relaxing every connection of the newly visited node, each connection from a visited to an unvisited node is relaxed; visited entries are unchanged |
| Dijkstra.Visit | starfield_navigator/graph.h:103 | visiting the nearest unvisited node keeps the loop state: visited distances are final, every recorded distance has a witness walk, and predecessors are visited and ranked |
| Dijkstra.NextToVisitIsShortest | starfield_navigator/graph.h:103 | the unvisited reached node of least distance already has its shortest distance |
| Dijkstra.UnvisitedEndBound | starfield_navigator/graph.h:103 | every walk from the source to an unvisited node weighs at least the least unvisited distance |
| Dijkstra.ExhaustedWalkEndsVisited | starfield_navigator/graph.h:103 | when no unvisited node is reached, every node reachable from the source has been visited |
| Dijkstra.FinishedTree | starfield_navigator/graph.h:103 | the loop state at exit gives every property of the finished tree |
| Graph.Graph.AreNeighbors | starfield_navigator/graph.h:104 | true iff a stored connection joins the two nodes, in either order; neighbours are distinct valid indices |
| Graph.Graph.AreNeighborsSymmetric | starfield_navigator/graph.h:104 | adjacency does not depend on the order of the arguments |
| Graph.Graph.GetNeighborInfo | starfield_navigator/graph.h:105 | for neighbours, returns the weight of the connection joining them and the second index as the other end |
| Dijkstra.TracePredecessors | starfield_navigator/graph.h:106 | following predecessors back from a reached node and reversing gives a walk from the source to it whose weight is its recorded distance |
| Dijkstra.ShortestWalkCostIsDistance | starfield_navigator/graph.h:106 | a walk that is no heavier than any other weighs exactly the tree's recorded distance |
| Graph.Graph.GetJumpPath | starfield_navigator/graph.h:106 | no route iff a name is missing or the destination is unreachable; otherwise the stops start at the start node and end at the destination, consecutive stops are neighbours, and no walk between them is lighter |
| Graph.Graph.GetClosest | starfield_navigator/graph.h:109 | every node index exactly once, in ascending distance from the named system |
| Graph.SortByKey | starfield_navigator/graph.h:109 | a permutation of the indices of the keys, sorted ascending by key |

## Left out

- `universe_creation.h` is not part of this model. It drives an external black-box optimiser over floating-point geometry.
- `graph::print_path`: console output.
- `get_min_jump_dist`: its behaviour is not visible.
- `shortest_path_tree::get_distance_from_source` is modelled as a plain field read, with no contract of its own.
- IEEE single-precision floats are not modelled. Weights and distances are reals. The sentinel `numeric_limits<float>::max()` is the separate value `NoDistance`, not a large number.
- Positions are not `glm` vectors computed on: the distance between positions is a caller-supplied function, assumed non-negative and symmetric.
- The hash function of the connection key and the `id` type of `tools.h` are not part of this model. The key is the sorted pair of indices.
- `system::m_info_quality`, the factions enum and the commented-out system fields are not modelled.
- The `operator==` and `operator<=>` overloads are not modelled.
- Graph.Graph.AddConnection: it requires both names to exist, the two to be different nodes, and a non-negative weight. The header does not say what happens otherwise.
- Graph.Graph.GetClosest: it requires the name to exist. It returns all nodes, including the named one. The order among equally distant nodes is left open, as with `std::sort`.
- Graph.Graph.GetJumpPath: it does not promise that the cost equals the distance from a separately computed tree. It promises that the route is no heavier than any walk, and `Dijkstra.ShortestWalkCostIsDistance` links that to any tree.
- Graph.Graph.GetDijkstra: ties between equally distant unvisited nodes are broken by lowest index. The header fixes no order, so predecessors may differ from the C++ ones when several shortest paths exist.
