# PathPilot routing core in Dafny

PathPilot is a route planner for OpenStreetMap road graphs. This project models its routing core and proves
properties about the model.

**Routing**
- The conversion of a road multigraph into compact row-pointer arrays (`prepare_graph_data`).
- The A* search of the native extension over those arrays (`astar_cpp`).
- The heap-based A* and Dijkstra searches of the scripts.
- The dispatcher `astar_path`: the conversion cache keyed on graph identity, the fallback to NetworkX, and the
  distance recomputed from the original graph.
- The alternative-route generator `get_k_shortest_paths`, which uses the penalty method.

**Rules around routing**
- The traffic rule that computes `weight_time`.
- Turn classification and the skeleton of the turn-by-turn instructions.
- The map-cache file names.
- The frame sampling of the video pre-processing step.

**How the model is written**
- A graph is a sequence of nodes plus an adjacency map. Each connection carries its parallel edges in key order.
- Weights and coordinates are `real`.
- Searches are pure functions or methods. Their loops are bounded by an explicit `fuel` count.
- The native search's priority queue is a multiset with extract-min. The scripts' heap is a sequence with
  `(priority, node)` ordering, as Python compares tuples.
- Exceptions the source raises or catches appear as explicit cases of result datatypes: `Raised`, `None`,
  `IndexError`, `DivisionByZero`, and so on.

**Modules, one per source component**

| module | models |
|---|---|
| `Wrappers`, `Text` | `Option`; ASCII lower-casing, splitting, number formatting |
| `RoadGraph` | the graph, parallel-edge selection, path distances |
| `Csr` | `prepare_graph_data` |
| `CppSearch` | `astar_cpp` |
| `HeapSearch` | the two script searches |
| `StaleSkip` | the Dijkstra counterexample |
| `GraphCache` | `_graph_cache` and `clear_cache` |
| `Routing` | `astar_path` |
| `Alternatives` | `get_k_shortest_paths` |
| `Traffic` | `simulate_conditions` |
| `Navigation` | `get_turn_instruction`, `generate_instructions` |
| `MapFiles` | the file-name rules of both `get_map`s |
| `Frames` | `FrameExtractor.extract` |

## Model

| member | source | states |
|---|---|---|
| RoadGraph.MinKey | api/core/pathfinding.py:74-78 | the least value of the key over the parallel edges that carry it; None exactly when no parallel edge carries the key |
| RoadGraph.SelectEdgeIsMinimal | scripts/pathfinding.py:45 | `min(..., key=e.get(weight, inf))` picks one of the parallel edges, and the key value of that edge is the minimum over them |
| RoadGraph.EdgeCostIsMinOrZero | scripts/pathfinding.py:45-46 | the cost added per connection is the minimum of the key over the parallel edges, or 0 when no parallel edge carries the key |
| RoadGraph.EdgeCostNonNegative | scripts/pathfinding.py:45-47 | on a well-formed graph a connection's cost is non-negative |
| RoadGraph.PathDistanceDefined | api/core/pathfinding.py:123-129 | the distance of a path exists exactly when every consecutive pair has non-empty edge data; otherwise the loop raises |
| RoadGraph.PathDistanceOfGraphPath | api/core/pathfinding.py:150-154 | on a well-formed graph every path of the graph has a distance, and it is non-negative |
| RoadGraph.PathDistanceJoin | api/core/pathfinding.py:122-128 | the summed distance is additive: a path joined from two paths at a shared node has a distance exactly when both parts have one, and it is the sum of the two |
| Csr.ToIndex | api/core/pathfinding.py:54 | the id-to-index table holds exactly the node ids, and it maps each id to a position that holds that id |
| Csr.Offsets | api/core/pathfinding.py:64-84 | `row_ptr` has one more entry than there are rows, starts at 0, never decreases, grows by each row's length and ends at the number of slots |
| Csr.PrepareShape | api/core/pathfinding.py:53-86 | the arrays are what the native search needs for in-bounds access: `row_ptr` of `num_nodes+1` entries from 0 to `len(cols) == len(weights)`, non-decreasing, columns below `num_nodes`, non-negative weights |
| Csr.PrepareTables | api/core/pathfinding.py:53-60 | the tables are built from the node order, and the coordinates are the nodes' `x` and `y` in that order |
| Csr.PrepareIndexDomain | api/core/pathfinding.py:54-55 | an id is in `node_to_idx` exactly when it is a node of the graph; an index is in `idx_to_node` exactly when it is below `num_nodes` |
| Csr.PrepareIndexInverse | api/core/pathfinding.py:54-55 | `node_to_idx` and `idx_to_node` are mutually inverse over the nodes |
| Csr.IndexTablesInverse | api/core/pathfinding.py:54-55 | with distinct ids, the two tables are inverse in both directions in node order |
| Csr.PrepareSlot | api/core/pathfinding.py:69-83 | every slot of row `i` is a connection of the graph, and its weight is the minimum of the key over that connection's parallel edges |
| Csr.PrepareNeighbour | api/core/pathfinding.py:71-83 | a neighbour with at least one keyed parallel edge gets a slot holding that minimum |
| Csr.PrepareKeylessNeighbour | api/core/pathfinding.py:80 | a neighbour none of whose parallel edges carries the key gets no slot |
| Csr.PrepareRowDistinct | api/core/pathfinding.py:70-83 | no neighbour index repeats within a row |
| Csr.WellFormedIsConvertible | api/core/pathfinding.py:81 | on a graph as NetworkX builds it, every neighbour is in `node_to_idx`, so the conversion raises no `KeyError` |
| CppSearch.InitInv | api/cpp/pathfinder.cpp:46-53 | the initial state has `g_score[start] = 0`, every other score infinite, no predecessors and a frontier holding only the start; it meets the search invariant |
| CppSearch.RelaxSlotEffect | api/cpp/pathfinder.cpp:92-102 | relaxing a slot changes at most its target `v`, whose score only goes down and ends no larger than through `u`; when the score changes, `v` is pushed with its new f-score; the frontier only grows |
| CppSearch.RelaxSlotSound | api/cpp/pathfinder.cpp:96-99 | relaxation keeps `g_score[start] = 0` with no predecessor, and keeps every other scored node linked to a predecessor whose score plus the slot's weight is at most its own and that comes strictly earlier, so the links stay acyclic |
| CppSearch.GoalPopOptimal | api/cpp/pathfinder.cpp:61-78 | with a consistent heuristic and non-negative weights, when the goal is popped its score is at most the cost of every start-to-goal walk |
| CppSearch.EmptyQueueUnreachable | api/cpp/pathfinder.cpp:55-106 | a frontier that empties without popping the goal means the goal cannot be reached |
| CppSearch.Reconstruct | api/cpp/pathfinder.cpp:63-70 | following `came_from` from the goal terminates and gives a walk from the start to the goal whose cost is at most `g_score[goal]`; it gives `[start]` when start is the goal |
| CppSearch.ExpandRow | api/cpp/pathfinder.cpp:89-103 | relaxing every slot of the popped node's row keeps the search invariant; stale entries are not skipped |
| CppSearch.AStarCpp | api/cpp/pathfinder.cpp:36-107 | a non-empty result is a walk through the arrays from the start to the goal; with a consistent heuristic it is a shortest one; an empty result without exhausted fuel means the goal is unreachable; start = goal gives `[start]` |
| HeapSearch.Init | scripts/pathfinding.py:20-28 | the heap holds only the start with its heuristic, the hash set is `{start}`, there are no predecessors and no visits, and every node scores infinity except the start, which scores 0 |
| HeapSearch.MinAt | scripts/pathfinding.py:31 | `heappop` takes an entry no other entry precedes in `(priority, node)` order |
| HeapSearch.HeapNodesWithout | scripts/pathfinding.py:31-32 | removing the popped entry removes exactly its node from the heap's node set, and no node is held twice |
| HeapSearch.HeapNodesPush | scripts/pathfinding.py:53-55 | pushing adds exactly the pushed node, and a node not yet in the hash set is never held twice |
| HeapSearch.PopKeeps | scripts/pathfinding.py:31-33 | a pop keeps `open_set_hash` equal to the heap's node set, and the popped node was queued |
| HeapSearch.RelaxOneMonotone | scripts/pathfinding.py:47-55 | relaxation never raises a score and never shrinks the hash set, and the neighbour ends up reached |
| HeapSearch.RelaxOneImproves | scripts/pathfinding.py:47-55 | a smaller tentative score sets `g_score[v]` and `came_from[v]`, and pushes `v` only when it is not in the hash set |
| HeapSearch.RelaxOneStays | scripts/pathfinding.py:49 | a tentative score that is not smaller changes nothing, `came_from` included |
| HeapSearch.RelaxAllKeeps | scripts/pathfinding.py:44-55 | relaxing every neighbour keeps the invariant: the hash set matches the heap, no node is queued twice, and the predecessor links form paths of the graph |
| HeapSearch.BacktrackPath | scripts/pathfinding.py:36-41 | following `came_from` from a reached node ends and gives a path of the graph from the start to that node |
| HeapSearch.PySearchFound | scripts/pathfinding.py:15-103 | both searches return only paths of the graph from the start to the goal, with `nodes_visited` equal to the number of heap pops |
| HeapSearch.RunCounts | scripts/pathfinding.py:30-77 | the returned count is the starting count plus the number of iterations, on both the found and the no-path return |
| HeapSearch.StartIsGoal | scripts/pathfinding.py:35-90 | with start equal to goal, both searches return `([start], 1)` |
| HeapSearch.AStarPyRaises | scripts/pathfinding.py:44 | the A* raises exactly for a start that is not a node of the graph and is not the goal |
| HeapSearch.DijkstraPyRaises | scripts/pathfinding.py:92 | the Dijkstra search raises exactly for a start that is not a node of the graph and is not the goal |
| HeapSearch.AStarPyComplete | scripts/pathfinding.py:15-56 | `astar_path`, which never discards an entry, reports no path only when no path of the graph leads from the start to the goal |
| StaleSkip.DijkstraMissesDetour | scripts/pathfinding.py:79-102 | on the well-formed graph s→a 10, s→b 1, b→a 1, a→g 1, which has the path s,b,a,g, `dijkstra_path` reports no path after 3 pops |
| StaleSkip.DijkstraFixedFindsDetour | scripts/pathfinding.py:58-103 | without the stale skip, the same search finds s,b,a,g after 4 pops |
| StaleSkip.DijkstraFixedCorrect | scripts/pathfinding.py:58-103 | without the stale skip, the search returns only paths of the graph, reports no path only when none exists, and raises only for an unknown start that is not the goal |
| GraphCache.Lookup | api/core/pathfinding.py:96-101 | an entry stored for the graph identity is reused as is; otherwise the graph is converted with this request's key and stored; other identities are untouched |
| GraphCache.FirstKeyWins | api/core/pathfinding.py:96-99 | a later request for the same identity gets the arrays built with the first request's key and graph, whatever its own key is |
| GraphCache.Clear | api/core/pathfinding.py:40-43 | `clear_cache` leaves no entry |
| GraphCache.ClearRebuilds | api/core/pathfinding.py:40-99 | after clearing, the next request converts the current graph with its own key |
| GraphCache.LookupKeepsFaithful | api/core/pathfinding.py:96-99 | a request for a graph under its own identity keeps every entry a conversion of the graph behind its identity |
| GraphCache.LookupKeepsOk | api/core/pathfinding.py:96-101 | a request for a well-formed graph keeps every entry usable by the native search |
| Routing.FoundIsGraphPath | api/core/pathfinding.py:123-132 | a reported path is a path of the graph with its recomputed distance and a visited count of -1; on a well-formed graph a graph path is always reported |
| Routing.NxReplyCases | api/core/pathfinding.py:144-159 | on a well-formed graph, the NetworkX branch raises exactly for an unknown node; otherwise it reports NetworkX's path with its distance, or `(None, inf, 0)` |
| Routing.ToIds | api/core/pathfinding.py:117 | the index path translates exactly when every index is in `idx_to_node`, element by element |
| Routing.AStarPath | api/core/pathfinding.py:88-159 | the reply is a graph path with its distance and visited -1, or `(None, inf, 0)`, or an exception; without the extension the cache is untouched and NetworkX answers; with it, the cache is looked up first and NetworkX answers exactly when start or goal is missing from `node_to_idx`; an empty native result for known nodes gives `(None, inf, 0)` |
| Routing.AStarPathFresh | api/core/pathfinding.py:103-142 | with arrays converted from the graph itself and both nodes in it, the native branch never raises |
| Routing.KeylessDivergence | scripts/pathfinding.py:45-46 | a connection none of whose parallel edges carries the key costs 0 to the Python searches but has no slot in the arrays built at api/core/pathfinding.py:80 |
| Alternatives.FirstFrom | api/core/pathfinding.py:216-220 | the inner loop stops at the first slot of the row whose column is `v`, or finds none |
| Alternatives.PassFromScales | api/core/pathfinding.py:202-220 | a penalty pass multiplies each slot by 1.5 once per consecutive pair of the route that raises it, and leaves every other slot alone |
| Alternatives.PenaltiesCompound | api/core/pathfinding.py:192-220 | two passes on the working copy multiply a slot by 1.5 raised to the sum of both routes' hits |
| Alternatives.PassKeepsNonNegative | api/core/pathfinding.py:219 | a pass only raises non-negative weights |
| Alternatives.PenaltySlotJoins | api/core/pathfinding.py:206-220 | the slot a pair raises joins the pair's indices and is the first such slot of its row |
| Alternatives.ReweightKeepsWalks | api/core/pathfinding.py:202-224 | penalising only changes weights, so the penalised arrays have exactly the walks, and the reachability, of the cached ones |
| Alternatives.NextRoute | api/core/pathfinding.py:194-242 | one round penalises the last route and searches again; it keeps a route exactly when the search result is non-empty, translates back to ids, differs from the last route and has a distance over the graph, and the route kept is that translation, a graph path from start to goal labelled "Alternative i" with its unpenalised distance; a non-empty result is a walk of the arrays, and an empty one not caused by exhausted fuel means the arrays have no walk from start to goal; the search runs on the penalised copy, and with a heuristic consistent for it a non-empty result is a shortest walk of that copy |
| Alternatives.PenaltyLoop | api/core/pathfinding.py:194-247 | the primary route stays first and at most `k-1` alternatives follow, each well labelled and different from its predecessor; the list falls short of `max(k,1)` routes exactly when a round's search result ended the loop (empty, untranslatable, converged, or without a distance), and then the routes collected before it are kept; the working copy it returns is the cached weights after the penalty passes for every route whose round ran (all routes when a round ended the loop, all but the last otherwise), and with a heuristic consistent for the cached weights the search that ended the loop returned a shortest walk of that copy |
| Alternatives.PassesScale | api/core/pathfinding.py:191-224 | across the rounds penalties compound on the one working copy: after the passes for the routes so far, each slot is its original weight times 1.5 once per pair of every such route that raised it |
| Alternatives.GrowingKeepsConsistent | api/core/pathfinding.py:219-225 | raising weights keeps a consistent heuristic consistent, so each penalised search keeps its optimality |
| Alternatives.KShortest | api/core/pathfinding.py:161-248 | the result is None exactly when the primary search raises, and empty exactly when it finds no path; the primary route comes first, labelled "Fastest" or "Shortest"; there are at most `max(k,1)` routes, only one without the extension, and every alternative is a well-labelled graph path that differs from its predecessor; the cache is only the primary search's lookup; when the extension is present and the cached arrays know both ends, the list is short of `max(k,1)` routes exactly when a round's search result ended the loop, and when they do not know an end, the `node_to_idx` KeyError leaves the primary route alone |
| Traffic.IntensityRangeChoice | api/core/traffic.py:24-29 | "low" selects (1.0, 1.2), "high" selects (1.5, 3.0), and every other intensity selects (1.1, 1.5) |
| Traffic.UniformInRange | api/core/traffic.py:63 | the congestion factor lies in the selected range |
| Traffic.SurfaceFactorCases | api/core/traffic.py:33-58 | the table value for the lower-cased surface, or 1.2 when it is not in the table; 1.0 when the surface is absent; the first element of a list-valued surface |
| Traffic.BaseTimeCases | api/core/traffic.py:46-51 | `travel_time` when present and non-zero; otherwise `length / (speed_kph / 3.6)`, which with both defaults (1 and 30) is 0.12; it fails exactly for a recorded speed of 0 |
| Traffic.SimulateUpdatesEveryEdge | api/core/traffic.py:43-73 | every parallel edge gets `weight_time` = base × surface factor × congestion factor and stores both factors; every other attribute, including `length` and `travel_time`, is unchanged |
| Traffic.NeverFaster | api/core/traffic.py:24-71 | all factors are at least 1, so `weight_time` is at least a non-negative base time |
| Traffic.SimulateKeepsWellFormed | api/core/traffic.py:43-73 | the updated graph is still well-formed, so the searches can run on `weight_time` |
| Navigation.TurnBands | api/routes/navigation.py:56-67 | Turn Right exactly for 45 ≤ diff < 135, Turn Left for 225 ≤ diff < 315, Continue for diff ≥ 315 or diff < 45, and U-Turn for 135 ≤ diff < 225 |
| Navigation.BandsCover | api/routes/navigation.py:58-67 | the four bands cover [0, 360), so the final fallback is unreachable |
| Navigation.SameBearingContinues | api/routes/navigation.py:58-64 | equal bearings give "Continue" |
| Navigation.InstructionsShape | api/routes/navigation.py:71-116 | "Arrive at destination" is last; "Start your journey" is first exactly when there is an edge to walk; there is at most one line per edge plus one; every line in between is a turn or a continue line |
| Navigation.GenerateShape | api/routes/navigation.py:69-116 | one coordinate pair per path node, in order; "Start your journey" exactly for a path of more than one node; for a path of more than one node, no more lines than path nodes |
| Navigation.StraightRouteIsQuiet | api/routes/navigation.py:102-110 | a route along one street without turns gives only the start and arrival lines |
| Navigation.StreetChange | api/routes/navigation.py:108-110 | a change of street without a turn announces "Continue on" exactly when the accumulated length exceeds 5 |
| Navigation.TurnAnnounced | api/routes/navigation.py:102-110 | a turn at the second edge is announced as "<turn> onto <street>", and the distance reset means the change of street is not announced again |
| MapFiles.ServiceFileOutcome | api/core/map_manager.py:30-39 | the error result comes exactly without a bounding box and a place name; a bounding box of fewer than four parts raises; otherwise there is a file |
| MapFiles.BoundingBoxWins | api/core/map_manager.py:32-34 | with a bounding box, the place name does not matter |
| MapFiles.ServiceFileSuffix | api/core/map_manager.py:30-36 | every file name ends in ".graphml", preceded by "_optimized" exactly when the map is optimised |
| MapFiles.ServiceFileOfPlace | api/core/map_manager.py:35-36 | for a place the file name starts with the sanitised stem, then "_", then the network type |
| MapFiles.ServiceSeparatesNetworks | api/core/map_manager.py:36 | two network types of one place get two different files |
| MapFiles.Stem | api/core/map_manager.py:35 | the stem holds no ',' and no ' ' |
| MapFiles.StemChars | api/core/map_manager.py:35 | each character of the stem is the lower-cased character of the part before the first comma, with a space turned into '_' |
| MapFiles.StemIdempotent | scripts/map_manager.py:31 | sanitising a stem again leaves it unchanged |
| MapFiles.ToolSharesNetworks | scripts/map_manager.py:12-31 | different network types of one place share one file |
| MapFiles.ToolFileSanitised | scripts/map_manager.py:31 | the tool's stem holds no ',' and no ' ', and naming the file of its own stem gives the same file |
| MapFiles.ToolIgnoresRegion | scripts/map_manager.py:31 | "City, Region" shares the file of "City" |
| Frames.Trunc | api/converter/preprocess.py:36 | `int()` truncates toward zero |
| Frames.IntervalOfPositiveRate | api/converter/preprocess.py:36 | for a positive rate the interval is at least 1: for a faster video it is the whole number of video frames per requested frame; otherwise it is 1 |
| Frames.SaveFrames | api/converter/preprocess.py:38-63 | frame `m·abs(interval)` is the `m`-th saved frame under the `m`-th name; the number saved is the ceiling of total/abs(interval), the absolute value covering the negative interval a negative `fps` gives; an interval of 0 raises at the first frame |
| Frames.SavedAreMultiples | api/converter/preprocess.py:49 | a frame is saved exactly when its index is below the total and the interval divides it |
| Frames.FrameNamesDistinct | api/converter/preprocess.py:53 | different saved counts give different file names, including counts beyond five digits |
| Frames.Extract | api/converter/preprocess.py:26-63 | a missing video raises before the directory is made; a video that cannot be opened raises after it; a positive rate always saves, with the counts and names of the loop |
| Frames.EveryFifteenth | api/converter/preprocess.py:20-36 | a 30 fps video sampled at 2 fps keeps every 15th frame |

## Left out

- I/O: map download, projection, simplification and graphml load and save in both `get_map`s; `os.path.join` and
  absolute paths; `cv2` capture and `imwrite`; logging and `print`.
- HTTP and app glue: the FastAPI routes, the response models, `main.py`, `config.py`, the pybind11 bindings and the
  build script.
- The 3D converter stages (training, structure from motion, semantics, pipeline), the benchmarks and the test
  scripts.
- Concurrency: `_graph_cache` is a module global. The model is sequential.
- Floating point: weights, coordinates, bearings and factors are `real`, with no float32 rounding in the native
  search and no `inf`/`nan` values beyond the explicit `Inf` score.
- Geometry: `euclidean_distance`, `haversine_distance`, `get_bearing`, the projector and the native `heuristic` are
  parameters. The native search takes a heuristic aimed at the goal; the navigation model takes a projection and a
  bearing function.
- The NetworkX search inside the fallback is an input. It is constrained only to return a path of the graph, no
  path, or an unknown-node error.
- The randomness of `random.uniform`: the congestion factor comes from a noise function. `Traffic.Uniform` maps it
  into the selected range.
- Termination of the searches: they run on a `fuel` bound.
  - `CppSearch.AStarCpp` returns `exhausted` when the bound runs out.
  - The script searches return `OutOfFuel` when the bound runs out.
  - The dispatcher treats an exhausted native search like an empty result.
- CppSearch.AStarCpp: optimality is stated for a consistent heuristic only, not for an arbitrary admissible one.
- Alternatives.NextRoute: a penalised search that runs out of fuel returns an empty result and ends the loop, so the
  loop's stopping rule holds up to the fuel bound: an empty result is claimed unreachable only when fuel remained.
- Alternatives.KShortest: an exhausted native search ends the alternatives like an empty result. The duplicate check
  compares the node lists themselves, not their `str()` forms, which agree for integer ids.
- Alternatives.KShortest: the `k`-th shortest property is not claimed, because the penalty method does not
  promise it. Optimality is stated per round instead: on `NextRoute` for the penalised copy it searched, and on
  `PenaltyLoop` for the round that ended the loop. The working copy itself is not part of the result.
- Routing.AStarPath: when the extension is present and both nodes are known, the model does not fall back to
  NetworkX. The source cannot reach that fallback either, because its `except` branch returns `(None, inf, 0)` for
  known nodes.
- Traffic.Simulate: the source updates each edge's data in place while it iterates, so an edge without a base time
  raises ZeroDivisionError after the edges visited before it already carry their new factors and `weight_time`,
  and the caller's `clear_cache()` is not reached. The model returns None for that case and does not describe the
  partially updated graph, because the adjacency map carries no iteration order over the edges.
- RoadGraph.WellFormed: it asks every numeric attribute of every edge to be non-negative, not only the weight key
  and the three attributes the traffic rule reads. The searches and `get_k_shortest_paths` therefore are not
  modelled on graphs with a negative attribute they never read, such as a negative `grade`.
- MapFiles.ServiceFile: a bounding box is given as its four formatted parts, not as a tuple of floats; a truthy
  bounding box is a non-empty sequence.
- MapFiles.Stem: lower-casing is ASCII only.
- Navigation.Generate: the coordinates are gathered apart from the instruction loop. Only the coordinate pairs and
  line order are modelled, not the text of a bearing computation. A list-valued street name uses its first element.
  An empty list cannot be expressed.
- Frames.Extract: the video is its count of readable frames and its reported frame rate. A frame that fails to read
  ends the loop, as in the source.

## Findings

| source | as written | input that shows it | evidently intended | confidence | as-written member | corrected member |
|---|---|---|---|---|---|---|
| scripts/pathfinding.py:79-102 | a node whose score improves while it is queued is not pushed again, and its one old entry is then discarded as stale, so the node is never expanded | edges s→a 10, s→b 1, b→a 1, a→g 1 from s to g: `dijkstra_path` returns `(None, 3)` though s,b,a,g exists | report a path whenever one exists | high, not executed | StaleSkip.DijkstraMissesDetour | StaleSkip.DijkstraFixedCorrect |
