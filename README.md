# Route search between Ecuadorian cities, modelled in Dafny

The system finds road routes between cities over an undirected graph. The graph's nodes are city names and its edge weights are road distances in km. This project models the graph construction and the searches:

- `Deber/algoritmos_busqueda.py` has three searches:
  - `dijkstra`, which delegates to networkx and then builds the per-segment breakdown;
  - greedy best-first search `busqueda_voraz`;
  - A* `a_estrella`, with its `g_scores` pruning.

  It also has `comparar_algoritmos`, which runs all three.
- `Deber/anterior/grafo_deber.py` is the older route finder:
  - it builds the graph from id/distance records;
  - breadth-first search through `nx.shortest_path`, with a segment and total loop;
  - the hand-written depth-first search `dfs_paths`;
  - uniform-cost search;
  - case-insensitive partial name matching in front of the uniform-cost search.
- `Deber/generador_grafo.py` is the later graph builder. It tags nodes with ids, builds a coordinate table for the heuristics, and adds one edge per unordered city pair, the first record winning.
- `Deber/anterior/deber.py` builds the graph from a distance matrix and contains a route finder that matches names and then runs Dijkstra.

## How the model is organised

**Graph.** The graph is a value `Graph(nodes, adj)` (graphs.dfy).
- `nodes` is networkx's node order. The name matching depends on it.
- `adj` is a symmetric map of maps, with one weight per edge.
- networkx's `add_node`/`add_edge` are functions on this value (nx_graph.dfy).
- Each `for` loop that calls them is a method whose invariant ties the graph built so far to a weight table over the records processed so far:
  - `LastWeight` when later records overwrite a weight;
  - `FirstWeight` when later duplicates are skipped.

**Frontier.** The search frontier is a sequence of `(priority, node, path, cost)` tuples. `heappop` removes the smallest one under Python's full tuple order: the priority, then the node name, then the path. That smallest tuple is unique, so the order of the heap and of the neighbour loop cannot change which tuple is popped.

**Searches.** Each search is a method with the source's `while` loop.
- Its invariant says:
  - every tuple holds a path of the graph from the origin, with its cost;
  - the visited set only grows;
  - every neighbour of a visited node has been pushed.
- Each method's contract states what a result promises: a simple path, its cost, and its segments. It also states when each message or exception occurs.
- networkx's Dijkstra is modelled by a uniform-cost search of our own, proved to return a path of minimal cost.
- `nx.shortest_path` without weights is the same search on the graph with every weight set to 1. It is proved to return a path with the fewest edges.

**Heuristic and outcomes.**
- The geodesic heuristic is a function parameter over a coordinate table.
- A node without coordinates raises `KeyError`, as in the source.
- A result is `Found(dictionary)`, `Message(string)` or `Raised(exception)`.

**Behaviour of the code that is easy to overlook.** The model keeps each of these:
- A missing origin makes `dijkstra` and `busqueda_costo_uniforme` raise networkx's `NodeNotFound`; only `NetworkXNoPath` is caught. A missing destination gives the no-route message instead.
- `busqueda_amplitud` lets `NodeNotFound` escape for either end.
- `comparar_algoritmos` does not isolate a strategy's exception; it escapes and the later strategies do not run.
- The older `crear_grafo` raises `KeyError` on a distance record with an unknown id. Only the later builder skips such records.
- `dfs_paths` pushes every neighbour, visited or not.
- Python's `if not match` also treats an empty node name as "not found".

## Model

| member | source | states |
|---|---|---|
| Frontier.PopMin | Deber/algoritmos_busqueda.py:62 | `heappop` returns a tuple that no frontier tuple precedes in Python's tuple order; the rest is the frontier minus exactly that tuple (as multisets) |
| Frontier.PopMinDeterministic | Deber/algoritmos_busqueda.py:135 | the smallest tuple is unique, so the popped tuple does not depend on the heap layout or push order |
| Frontier.EntryLessTotal | Deber/algoritmos_busqueda.py:98 | two distinct tuples are always ordered one way or the other (priority, then node name, then path) |
| Frontier.EntryLessTransitive | Deber/algoritmos_busqueda.py:179 | the tuple order is transitive |
| Frontier.EntryLessIrreflexive | Deber/algoritmos_busqueda.py:179 | no tuple precedes itself |
| Frontier.ExtendEntry | Deber/algoritmos_busqueda.py:88-98 | `camino + [vecino]` with `dist_acumulada + weight` is again a path from the origin, and its cost is the sum of its edge weights |
| Graphs.PathCostPrefix | Deber/algoritmos_busqueda.py:91 | with non-negative weights, a prefix of a path never costs more than the path |
| Graphs.ClosedSetUnreachable | Deber/algoritmos_busqueda.py:100 | when the frontier empties, every neighbour of a visited node has been visited, so the destination, never visited, is unreachable |
| Reporting.BuildSegments | Deber/algoritmos_busqueda.py:21-26 | the segment list has `len(ruta)-1` entries, the i-th being `(ruta[i], ruta[i+1], G[ruta[i]][ruta[i+1]]['weight'])` |
| Reporting.BuildSegmentsWithTotal | Deber/anterior/grafo_deber.py:96-103 | the same segments, with `distancia_total` equal both to their sum and to the path's cost |
| Reporting.SegmentsTotalIsPathCost | Deber/anterior/grafo_deber.py:140-147 | the segments of a path add up to the sum of its edge weights |
| Reporting.MessagesDiffer | Deber/algoritmos_busqueda.py:50-51 | the not-in-graph message differs from every no-route message, so a caller can tell the two apart |
| ShortestPaths.ShortestPath | Deber/algoritmos_busqueda.py:17-18 | a path is returned exactly when the destination is reachable; it is simple, of minimal cost among all paths, and its length is its cost |
| ShortestPaths.DijkstraRoute | Deber/algoritmos_busqueda.py:15-35 | `NodeNotFound` exactly for a missing origin; a result exactly when the destination is reachable, being a minimal simple path with its cost and segments; otherwise the no-route message |
| AlgoritmosBusqueda.Dijkstra | Deber/algoritmos_busqueda.py:10-35 | `dijkstra` keeps the contract above under the label `Dijkstra` |
| AlgoritmosBusqueda.ExpandirVoraz | Deber/algoritmos_busqueda.py:88-98 | the old tuples stay in front; after them, exactly one tuple is pushed for each unvisited neighbour and none for a visited one, with priority the heuristic distance of the neighbour, path `camino + [vecino]` and cost `dist_acumulada + weight`; a `KeyError` names an unvisited neighbour without coordinates |
| AlgoritmosBusqueda.VorazPushesStep | Deber/algoritmos_busqueda.py:89-98 | pushing the tuple of a pending unvisited neighbour handles that neighbour and keeps one tuple per node |
| AlgoritmosBusqueda.BusquedaVoraz | Deber/algoritmos_busqueda.py:38-100 | the not-in-graph message exactly when an end is missing (before any coordinate lookup); a result is a simple path with its cost as total and its segments; the no-route message only when no path exists; `KeyError` only for a node lacking coordinates; `[origen]`, total 0 and no segments when origin equals destination |
| AlgoritmosBusqueda.NotOnPath | Deber/algoritmos_busqueda.py:166-170 | a neighbour that passes the strict-improvement test is never already on the current path, because every node on a path has a recorded cost no larger than the cost of reaching it |
| AlgoritmosBusqueda.ExpandirAEstrella | Deber/algoritmos_busqueda.py:161-179 | the old tuples stay in front; after them, exactly one tuple is pushed for each neighbour whose tentative cost strictly improves on its recorded best cost (or that has none), and none for the others; the tuple has priority cost plus heuristic distance, path `camino + [vecino]`, and that cost becomes the neighbour's `g_scores` entry; every other entry is unchanged; a `KeyError` names a strictly improved neighbour without coordinates |
| AlgoritmosBusqueda.AEstrellaPushesStep | Deber/algoritmos_busqueda.py:166-179 | recording and pushing the strict improvement of a pending neighbour handles it, one tuple per node |
| AlgoritmosBusqueda.AEstrellaLowers | Deber/algoritmos_busqueda.py:166-170 | an expansion only lowers recorded best costs and forgets none |
| AlgoritmosBusqueda.EstimateAlongPath | Deber/algoritmos_busqueda.py:172-176 | under a consistent heuristic, cost so far plus heuristic distance never decreases along a path |
| AlgoritmosBusqueda.AEstrellaFrontierBound | Deber/algoritmos_busqueda.py:134-155 | under a consistent heuristic, the tuple `heappop` returns for an unvisited node costs no more than any path to that node |
| AlgoritmosBusqueda.AEstrellaFoundShortest | Deber/algoritmos_busqueda.py:138-152 | under a consistent heuristic, the path popped for the destination is a shortest one |
| AlgoritmosBusqueda.AEstrella | Deber/algoritmos_busqueda.py:103-181 | the same contract as the greedy search, for A* with `g_scores` starting at 0 for the origin; with a consistent heuristic, the route found is a shortest path |
| AlgoritmosBusqueda.CompararAlgoritmos | Deber/algoritmos_busqueda.py:184-208 | the three searches run in order; the dictionary has exactly the keys `Dijkstra`, `Voraz` and `A_estrella`, each entry keeping its search's contract; it aborts with `NodeNotFound` exactly for a missing origin, and otherwise only with the `KeyError` of a graph node lacking coordinates, so never when every node has them; a missing destination yields three messages; with a consistent heuristic the A* entry is a shortest route |
| AlgoritmosBusqueda.ShortestRoutesAgree | Deber/algoritmos_busqueda.py:200-202 | when a heuristic search returns a shortest route, Dijkstra finds a route of the same total |
| AlgoritmosBusqueda.DijkstraNoWorse | Deber/algoritmos_busqueda.py:200-202 | whenever a heuristic search finds a route, Dijkstra finds one no longer |
| AlgoritmosBusqueda.SearchesAgree | Deber/algoritmos_busqueda.py:200-202 | when nothing is raised, a heuristic search finds a route exactly when Dijkstra does |
| NxGraph.AddNode | Deber/anterior/grafo_deber.py:42 | `add_node` appends a new name to the node order and adds no edge; adding an existing node changes nothing |
| NxGraph.AddEdge | Deber/anterior/grafo_deber.py:50 | `add_edge` adds the missing endpoints, sets the weight in both directions, replaces an earlier weight and leaves every other pair alone |
| NxGraph.AddEdgeWellFormed | Deber/anterior/grafo_deber.py:50 | `add_edge` keeps the graph symmetric with one weight per edge |
| NxGraph.AddNodes | Deber/anterior/grafo_deber.py:41-42 | the node loop makes every name a node, in the order of first occurrence, with no edges |
| NxGraph.FirstOccurrences | Deber/anterior/grafo_deber.py:41-42 | the node order holds each name exactly once |
| NxGraph.LastWeightIsLast | Deber/anterior/grafo_deber.py:45-50 | the overwriting table gives the weight of the last record about a pair, and nothing when no record names it |
| NxGraph.FirstWeightIsFirst | Deber/generador_grafo.py:84-89 | the first-wins table gives the weight of the first record about a pair, and nothing when no record names it |
| NxGraph.WeightsSymmetric | Deber/generador_grafo.py:84 | both weight tables are symmetric in the pair |
| NxGraph.BuiltOnNodes | Deber/anterior/grafo_deber.py:45-50 | after the edge loop on an edgeless graph, every pair carries the last record's weight, and the nodes are the old ones plus the record endpoints |
| Registros.IdANombreLastWins | Deber/anterior/grafo_deber.py:38 | `id_a_nombre` has every record id as a key, mapped to the name of the last record with that id |
| Registros.IdANombreValues | Deber/anterior/grafo_deber.py:38 | every name `id_a_nombre` gives is the name of some record |
| Registros.NombreAIdLastWins | Deber/generador_grafo.py:54 | `nombre_a_id` has every record name as a key, mapped to the id of the last record with that name |
| NxGraph.AddEdgesBuilt | Deber/anterior/grafo_deber.py:45-50 | adding a list of edges one by one keeps the graph symmetric, adds exactly their endpoints as nodes, and gives every pair the weight of the last edge about it |
| GrafoDeber.AgregarAristas | Deber/anterior/grafo_deber.py:45-50 | the edge loop stops with the `KeyError` of the first record naming an unknown id, the origin id being looked up first; otherwise it adds every record in order |
| GrafoDeber.CrearGrafo | Deber/anterior/grafo_deber.py:33-53 | every city name is a node, in record order; every record is an undirected edge weighted by the last record about its pair; an unknown id raises on the first record carrying one |
| GrafoDeber.NamesAreNodes | Deber/anterior/grafo_deber.py:38-42 | every name `id_a_nombre` yields is a node before any edge is added |
| GrafoDeber.CrearGrafoWeights | Deber/anterior/grafo_deber.py:45-50 | two cities are adjacent exactly when some record names the pair, and the weight is that of the last such record |
| GrafoDeber.Unweighted | Deber/anterior/grafo_deber.py:92-93 | the graph with every weight set to 1 has the same nodes and the same adjacency |
| GrafoDeber.UnweightedWellFormed | Deber/anterior/grafo_deber.py:93 | the unit-weight graph is again symmetric with one weight per edge |
| GrafoDeber.UnweightedCost | Deber/anterior/grafo_deber.py:93 | in the unit-weight graph, a path costs its number of edges |
| GrafoDeber.UnweightedPaths | Deber/anterior/grafo_deber.py:93 | both graphs have the same paths |
| GrafoDeber.BusquedaAmplitud | Deber/anterior/grafo_deber.py:85-112 | `NodeNotFound` exactly when an end is missing; a result exactly when reachable, being a simple path with the fewest edges, its segments and `distancia_total` equal to their sum and to its cost; otherwise the no-route message |
| GrafoDeber.PushNeighbours | Deber/anterior/grafo_deber.py:129-130 | every neighbour, visited or not, is pushed above the old stack with `path + [neighbor]`, in an unspecified order, keeping the search invariant |
| GrafoDeber.DfsPaths | Deber/anterior/grafo_deber.py:119-131 | `[start]` when start equals goal, even for a start outside the graph; `KeyError` exactly when a start outside the graph differs from the goal; a path is simple and links start to goal; `None` exactly when the goal is unreachable from a start in the graph; this holds for every neighbour order |
| GrafoDeber.BusquedaProfundidad | Deber/anterior/grafo_deber.py:114-156 | nothing escapes: the `KeyError` becomes the `Error en DFS` message; a route exactly when reachable, being a simple path with its segments and total; otherwise the no-route message |
| GrafoDeber.BusquedaCostoUniforme | Deber/anterior/grafo_deber.py:158-183 | the Dijkstra contract under the label `Costo Uniforme (Dijkstra)` |
| GrafoDeber.EncontrarRutaOptima | Deber/anterior/grafo_deber.py:185-218 | the origin is reported missing before the destination and no search runs in either case; otherwise nothing is raised, and the uniform-cost contract holds between the first matching nodes |
| NameMatch.ContainsAt | Deber/anterior/grafo_deber.py:195 | the substring test holds exactly when the query spells out the name from some offset |
| NameMatch.LowerIdempotent | Deber/anterior/grafo_deber.py:191-192 | lower-casing keeps the length and is idempotent |
| NameMatch.MatchesCaseInsensitive | Deber/anterior/grafo_deber.py:191-195 | lower-casing the query first does not change whether it matches |
| NameMatch.FirstMatchOfIsFirst | Deber/anterior/grafo_deber.py:194-202 | the chosen city matches, and no node before it in node order does; nothing is chosen only when no node matches |
| NameMatch.FirstMatch | Deber/anterior/grafo_deber.py:194-197 | the `for ... break` loop settles on the first matching node in node order |
| NameMatch.EmptyQueryMatchesFirst | Deber/anterior/grafo_deber.py:194-197 | an empty query selects the first node |
| NameMatch.SelectCities | Deber/anterior/grafo_deber.py:188-208 | both loops run, then a missing origin is reported before a missing destination; otherwise the two first matches are selected |
| NameMatch.SelectedAreFirstMatches | Deber/anterior/grafo_deber.py:194-202 | each selected city is a node whose name contains its query |
| GeneradorGrafo.UltimasCoordsIsLast | Deber/generador_grafo.py:65-66 | a name has coordinates exactly when some record of that name has both latitude and longitude, taken from the last such record |
| GeneradorGrafo.AgregarCiudades | Deber/generador_grafo.py:60-66 | every city is a node, in record order, tagged with the id `nombre_a_id` gives it; `coords` holds exactly the names with both coordinates present |
| GeneradorGrafo.ClaveIsPair | Deber/generador_grafo.py:84 | two records share a sorted key exactly when they are about the same unordered pair |
| GeneradorGrafo.ClaveSeen | Deber/generador_grafo.py:86 | a key is already in `conexiones_agregadas` exactly when an earlier known record named the pair |
| GeneradorGrafo.ConexionStep | Deber/generador_grafo.py:78-89 | a record about a new pair adds its edge; a record about a connected pair, in either direction, changes nothing |
| GeneradorGrafo.AgregarConexiones | Deber/generador_grafo.py:71-89 | records with an unknown id are skipped; every pair carries the weight of the first known record about it; the nodes stay as they were |
| GeneradorGrafo.CrearGrafo | Deber/generador_grafo.py:46-102 | `None` exactly when either table is empty; otherwise the node order, the id tags, `nombre_a_id`, the coordinate table and the first-wins weights, as above |
| GeneradorGrafo.FirstRecordWins | Deber/generador_grafo.py:84-89 | an edge exists exactly when a known record names the pair; its weight comes from the first such record, later duplicates being ignored |
| Deber.AristasFilaSonValidas | Deber/anterior/deber.py:79-81 | a row contributes exactly one edge per entry with `origen != destino and distancia > 0` |
| Deber.AristasMatrizSonDeFilas | Deber/anterior/deber.py:78-81 | the matrix contributes exactly the edges of its rows |
| Deber.AristasPropias | Deber/anterior/deber.py:80 | no matrix edge is a self-loop, and every weight is positive |
| Deber.AgregarAristas | Deber/anterior/deber.py:78-81 | the nested loops add the matrix edges in row and entry order |
| Deber.AgregarFila | Deber/anterior/deber.py:79-81 | the inner loop adds the edges of one row in entry order, new endpoints joining the node order origin first, in order of first appearance |
| Deber.CrearGrafo | Deber/anterior/deber.py:69-83 | the node order is the keys, then the endpoints of the kept entries in row and entry order (origin before destination), each name at its first occurrence; the nodes are exactly the keys and those endpoints; each pair carries the weight of the last entry about it |
| NxGraph.FirstOccurrencesOfPrefix | Deber/anterior/deber.py:74-81 | adding the nodes of a list one by one and then more names gives the same order as taking the first occurrences of the whole list |
| Deber.GrafoSinLazos | Deber/anterior/deber.py:80 | the graph has no self-loop and only positive weights |
| Deber.AristaDeLaMatriz | Deber/anterior/deber.py:78-81 | every edge comes from a matrix entry that passes the guard, in one direction or the other |
| Deber.EncontrarRutaOptima | Deber/anterior/deber.py:115-162 | the origin is reported missing before the destination; otherwise a route exactly when the matched cities are connected, being a shortest path with its cost and segments; otherwise the no-route message naming the matched cities |
| Escenario.OnlyCheapRoute | Deber/algoritmos_busqueda.py:17 | on the diamond A-B (10), B-D (10), A-C (5), C-D (5), the only simple route from A to D costing at most 10 is A, C, D |
| Escenario.ViaCIsShortest | Deber/algoritmos_busqueda.py:17-18 | A, C, D is a shortest route from A to D, of cost 10 |
| Escenario.DijkstraEnElRombo | Deber/algoritmos_busqueda.py:10-35 | `dijkstra` on the diamond returns A, C, D with total 10 and the segments (A, C, 5) and (C, D, 5) |

## Left out

- Supabase persistence is not modelled. This covers `cargar_datos_bd`, `guardar_ruta_bd` (called by the older `encontrar_ruta_optima` after a route is found), the Excel/pandas reading in `deber.py`, and the batch inserts. The graph builders receive the loaded records as sequences.
- The Tkinter interface, its threads, and the matplotlib drawing functions are not modelled.
- `geopy.geodesic` is floating-point and foreign. It is a parameter `(Coord, Coord) -> nat` of the heuristic searches, and nothing is assumed about it.
- Distances are non-negative integers in the model, but floats in the source. Matrix entries are integers, so that the `distancia > 0` guard keeps its meaning.
- `str.lower` is modelled for the Latin-1 range only: `A`-`Z` and `À`-`Þ` except `×`. Other scripts and the multi-character lower-case forms are left out.
- `DfsErrorMessage` renders `str(KeyError(k))` as the quoted key `'k'`. Python's `repr` quoting of keys that themselves contain quotes is not modelled.
- networkx's `dijkstra_path` and `shortest_path` are not modelled line by line. A uniform-cost search of our own stands in for them, proved to return a minimal simple path. Where several paths tie, networkx may return a different one of equal cost (or equal edge count).
- `AlgoritmosBusqueda.BusquedaVoraz`: the model does not say which path the greedy search returns, only that it is valid and simple. Its non-optimality on a misleading heuristic is therefore not shown.
- `AlgoritmosBusqueda.AEstrella`: optimality is proved only under a consistent heuristic (`Consistent`). With a closed set, A* can return a longer route when the heuristic is inconsistent, and the source assumes nothing about the geodesic distance. For other heuristics the contract promises a valid simple path, as for the greedy search.
- `GrafoDeber.DfsPaths` does not fix the order of the neighbours, so the model does not determine which path the DFS returns. Its properties are proved for every order.
- `AlgoritmosBusqueda.ExpandirVoraz` / `AlgoritmosBusqueda.ExpandirAEstrella`: networkx's adjacency order (edge insertion order) is not modelled. The neighbour loop takes the neighbours in an unspecified order. When two or more neighbours that would be pushed lack coordinates, the source's `KeyError` names the first of them in adjacency order. The model's `KeyError` may name any of them, and so may the one `AlgoritmosBusqueda.CompararAlgoritmos` lets escape. Which tuples are pushed does not depend on this order.
- `GeneradorGrafo.CrearGrafo`: the connectivity check after the edge loop only prints, and all progress messages are left out. They do not change the returned values.
- `AlgoritmosBusqueda.CompararAlgoritmos` and `GrafoDeber.CrearGrafo`: their `print` calls (the comparison banner, and the older builder's summary of nodes and edges) are left out. They write to the console only and do not change the returned values.
- `nx.Graph.add_node(nombre, id=...)` node attributes are modelled as a separate map, `idsNodo`, from node name to id.
- Dictionary iteration order of the matrix is its insertion order, given as the order of the rows and entries.

