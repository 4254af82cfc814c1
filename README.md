# Algorithms: a verified model

This project models, in Dafny, the algorithmic core of a small Python
collection of graph and string exercises:

- `graph_abc.py`: the abstract `Graph` class. It has a fixed number of vertices
  `0 .. n - 1`, a `directed` flag and, per vertex, a list of `(neighbour,
  weight)` entries. It offers three derived views: the sorted adjacency list,
  the adjacency matrix and the incidence matrix.
- `graph-tasks/algorithmics.py`: `GraphAlgorithms` over such a graph:
  - breadth-first and depth-first visit orders;
  - weakly connected components;
  - per-component statistics with a ranking.
- `prefix_function.py`: the KMP prefix (failure) function, and the longest
  proper prefix that is also a suffix.
- `Number_of_Provinces.py`, `Flood_Fill.py` and `Max_Area_of_Island.py`: three
  depth-first searches over a matrix or a grid, which change a `visited` array
  or the grid in place.

The modules follow the source files:

| module | file | models |
|---|---|---|
| `Errors` | errors.dfy | the two exceptions raised (`ValueError`, `IndexError`) as `Result` and `Outcome` values |
| `Paths` | paths.dfy | reachability over a relation; the set a depth-first search marks (`Component`); the exploration invariant shared by all recursive searches |
| `Sorting` | sorting.dfy | Python's stable `sorted`/`list.sort` by a key (`Sort`), and `sorted(list(S))` of a set (`SortedSet`) |
| `GraphAbc` | graph_abc.dfy | class `Graph` and its views |
| `Sweep` | sweep.dfy | the FIFO queue loop shared by `bfs` and `connected_components` |
| `GraphAlgorithms` | graph_algorithms.dfy | `bfs`, `dfs`, `connected_components`, `components_with_stats` |
| `PrefixFunction` | prefix_function.dfy | `prefix_function`, `main_function` |
| `NumberOfProvinces` | number_of_provinces.dfy | `findCircleNum` and its DFS over a `visited` array |
| `GridRegions` | grid_regions.dfy | 4-connected regions of a grid; the recursive grid search as a function (`Search`) |
| `FloodFill` | flood_fill.dfy | `floodFill` on a 2-D array, in place |
| `MaxAreaOfIsland` | max_area_of_island.dfy | `maxAreaOfIsland` on a 2-D array, in place |

Each procedure that changes state in the source changes state here:
- `Graph` is a class whose `store` field `AddEdge` updates.
- The matrices are arrays filled by nested loops.
- Provinces marks a `visited: array<bool>`.
- The grid searches recolour an `array2<int>` by recursion.

Each loop is a `while`/`for` with its invariants. The searches over values
work on `seq`s and `set`s, which stand in for the deque, the `visited` set
and the result lists.

## Model

| member | source | states |
|---|---|---|
| GraphAbc.Graph.Create | graph_abc.py:15-22 | A negative vertex count raises `ValueError`. Otherwise the result is a fresh valid graph with the given count and flag, every list empty. |
| GraphAbc.Graph.constructor | graph_abc.py:18-22 | The store has one empty list per vertex `0 .. vertices - 1`. |
| GraphAbc.Graph.CheckVertex | graph_abc.py:25-28 | Passes exactly when `0 <= v < vertices`; otherwise the failure is `IndexError`. |
| GraphAbc.Graph.IsDirected | graph_abc.py:97-99 | Returns the `directed` flag. |
| GraphAbc.Graph.AddEdge | graph_abc.py:30-36 | Assumed contract for the abstract method. Out-of-range ends fail with `IndexError` and leave the store unchanged. Otherwise `(v, w)` is appended to `u`'s list and, when undirected and not a self loop, `(u, w)` to `v`'s. Validity and symmetric storage are kept. |
| GraphAbc.AddedEdgeWeight | graph_abc.py:30-36 | After adding an edge, the adjacency-matrix weight of `(u, v)` is the new weight (and of `(v, u)` when undirected). |
| GraphAbc.AddedEdgeSucc | graph_abc.py:30-36 | After adding an edge, the successor relation is the old one plus `u -> v` (and `v -> u` when undirected). An undirected graph's store stays symmetric. |
| GraphAbc.Graph.GetAdjacencyList | graph_abc.py:38-47 | One list per vertex. Each list:<br>- is a permutation of the stored list;<br>- is sorted non-decreasing by neighbour;<br>- keeps the stored order of the entries to each neighbour (stable sort).<br>The store is unchanged. |
| GraphAbc.ByNeighbourOrders | graph_abc.py:45 | The sort key `item[0]` is a total preorder. |
| GraphAbc.EntriesToAre | graph_abc.py:45 | The entries to one neighbour are exactly the elements the key ranks equal, so stability keeps their order. |
| GraphAbc.SortedRows | graph_abc.py:43-46 | Permuted lists of a well-formed store are well formed. |
| GraphAbc.Graph.GetAdjacencyMatrix | graph_abc.py:50-59 | A fresh `vertices x vertices` matrix whose cell `(u, v)` is `Weight(store[u], v)`. |
| GraphAbc.WriteRow | graph_abc.py:56-58 | Writing one vertex's entries sets its row to `Weight` of each column and leaves other rows unchanged. |
| GraphAbc.WeightOfLast | graph_abc.py:57-58 | The cell holds the weight of the last entry to `v` (last write wins). |
| GraphAbc.WeightOfAbsent | graph_abc.py:55 | The cell is `0.0` when `v` never occurs in `u`'s list. |
| GraphAbc.CollectEdges | graph_abc.py:63-72 | The nested loops collect exactly `EdgeSet`: `(u, v)` per entry when directed, `(min, max)` when undirected. |
| GraphAbc.EdgeSetMembers | graph_abc.py:63-72 | A pair is in the edge set exactly when some stored entry records it. |
| GraphAbc.EdgeSetBounds | graph_abc.py:67-72 | Both ends of a collected edge are vertices, and an undirected edge has its smaller end first. |
| GraphAbc.LexLessOrders | graph_abc.py:75 | Python's tuple order on edges is a strict total order, so `sorted(list(edges))` is well defined. |
| GraphAbc.Graph.GetIncidenceMatrix | graph_abc.py:61-95 | A fresh matrix with `vertices` rows and one column per distinct edge, in increasing lexicographic order (none when there are no edges). Cell `(x, j)`:<br>- directed: `-1` at the tail, `+1` at the head (also for a self loop), `0` elsewhere;<br>- undirected: `1` at both ends, `0` elsewhere. |
| GraphAbc.WriteColumns | graph_abc.py:86-93 | Filling a zero matrix column by column gives `Incidence` of each column's edge in every cell. |
| Sorting.SortSorted | graph-tasks/algorithmics.py:154 | The stable sort's result is ordered by any total-preorder key. |
| Sorting.SortStable | graph_abc.py:45 | Elements the key ranks equal keep their relative order. |
| Sorting.SortedSet | graph_abc.py:75 | `sorted(list(S))` lists each member of `S` once, in increasing order. |
| Sorting.IncreasingUnique | graph_abc.py:75 | Only one increasing list has a given set of members, so the edge order is determined by the edge set. |
| Sorting.SortOfSorted | graph-tasks/algorithmics.py:112 | Sorting a list already ordered by the key leaves it unchanged. |
| Sorting.SortDistinct | graph-tasks/algorithmics.py:154 | Sorting a list without repeats gives a list without repeats. |
| Sorting.SortMembers | graph-tasks/algorithmics.py:154 | Sorting keeps exactly the members. |
| Paths.ComponentSame | Number_of_Provinces.py:19-25 | Over a symmetric relation, two vertices that reach each other have the same component. |
| Paths.ComponentOfAll | graph-tasks/algorithmics.py:28-38 | When every step stays inside the vertex set, the component of `x` is exactly what `x` reaches. |
| Paths.ExploreDone | Number_of_Provinces.py:9-17 | When no neighbour is pending, the cities marked by a search are exactly what the start reaches through unmarked cities. |
| Sweep.SweepFrom | graph-tasks/algorithmics.py:23-36 | The FIFO loop from `s` over adjacency rows:<br>- visits exactly the vertices `s` reaches through unvisited vertices, each once, `s` first;<br>- marks exactly those;<br>- every vertex after the first is a successor of an earlier one (discovery order). |
| Sweep.ElemsSize | graph-tasks/algorithmics.py:24-36 | A list without repeats has as many members as entries. |
| GraphAlgorithms.TargetRows | graph-tasks/algorithmics.py:86-88 | The undirected search lists `[v for v, _ in neighbors]` have the same edges as the store. |
| GraphAlgorithms.MirrorRow | graph-tasks/algorithmics.py:79-82 | The inner loop over `u`'s list extends the mirrored lists by exactly the edges of `u`, both ways. |
| GraphAlgorithms.MirrorRows | graph-tasks/algorithmics.py:77-85 | The directed search lists are in range and strictly increasing, and list `v` under `u` exactly when the store has `u -> v` or `v -> u`. |
| GraphAlgorithms.SearchIsWeak | graph-tasks/algorithmics.py:77-88 | On both branches, given symmetric storage when undirected, the search lists are the store's edges taken either way. |
| GraphAlgorithms.Bfs | graph-tasks/algorithmics.py:13-38 | Raises `IndexError` exactly when `start` is out of range. Otherwise the visit order:<br>- starts with `start` and has no repeats;<br>- holds exactly the vertices reachable from `start` along stored edges;<br>- lists each vertex after `start` later than a predecessor of it. |
| GraphAlgorithms.DfsVisit | graph-tasks/algorithmics.py:53-59 | `_dfs_recursive(u)` appends `u` and then exactly what `u` reaches through unvisited vertices, each once. Each vertex after `u` has a predecessor earlier in the appended part. Depth-first nesting: every appended vertex `x` heads a contiguous block (`Block`). The block lists exactly what `x` reaches through vertices not listed before `x`, and each of its vertices after `x` has a predecessor earlier in the block. |
| GraphAlgorithms.Dfs | graph-tasks/algorithmics.py:41-63 | Raises `IndexError` exactly when `start` is out of range. Otherwise the order starts with `start`, has no repeats and is exactly the reachable set. Each vertex after `start` has a predecessor listed before it. Depth-first nesting (`Nested`): each vertex `x` heads a contiguous block of exactly what `x` reaches through vertices not listed before `x`, and each vertex in the block after `x` has a predecessor earlier in the block. |
| GraphAlgorithms.HeadsExtend | graph-tasks/algorithmics.py:55-59 | A block appended by a recursive call stays a block when later calls append more. |
| GraphAlgorithms.BreadthOrderNotNested | graph-tasks/algorithmics.py:53-59 | On the store 0 -> 1, 0 -> 2, 1 -> 3, the breadth-first order `[0, 1, 2, 3]` meets the predecessor condition, but 1 heads no block. |
| GraphAlgorithms.CrossOrderNotNested | graph-tasks/algorithmics.py:53-59 | On the store 0 -> 1, 0 -> 2, 1 -> 3, 3 -> 2, the breadth-first order `[0, 1, 2, 3]` meets the predecessor condition. `[1, 2, 3]` is exactly what 1 reaches beyond 0, yet the list is not nested: 2 has no predecessor inside 1's block. |
| GraphAlgorithms.PreorderReach | graph-tasks/algorithmics.py:57-59 | In a list where each vertex after position `lo` has an earlier predecessor, `all[lo]` reaches every later vertex through the listed ones. |
| GraphAlgorithms.LastBlock | graph-tasks/algorithmics.py:53-59 | In a list of all vertices without repeats, a vertex that every later one follows by predecessors heads the block that runs to the end. |
| GraphAlgorithms.DepthOrderNested | graph-tasks/algorithmics.py:53-59 | On the store 0 -> 1, 0 -> 2, 1 -> 3, 3 -> 2, the order `[0, 1, 3, 2]` that the recursion yields is nested. |
| GraphAlgorithms.SortIncreasing | graph-tasks/algorithmics.py:109 | `current_component.sort()` of a list without repeats is strictly increasing with the same members. |
| GraphAlgorithms.GatherNew | graph-tasks/algorithmics.py:94-110 | A sweep from an unvisited vertex adds a new sorted component. The components stay disjoint, cover the visited vertices and are in increasing order of first element. |
| GraphAlgorithms.GatherOld | graph-tasks/algorithmics.py:94-95 | A visited vertex starts no sweep and changes nothing. |
| GraphAlgorithms.Gather | graph-tasks/algorithmics.py:94-112 | The outer loop ends with the gathering invariant at `vertices` (`Gathered`):<br>- every vertex is visited, and the visited vertices are exactly those in some component;<br>- components are disjoint, nonempty, strictly increasing and ordered by first vertex;<br>- their sizes add up to the visited count;<br>- on symmetric lists each one is the component of its first vertex. |
| GraphAlgorithms.GatherDone | graph-tasks/algorithmics.py:94-112 | After the outer loop the components cover every vertex, their sizes add up to `vertices`, and they are already ordered by first element. |
| GraphAlgorithms.WeakComponents | graph-tasks/algorithmics.py:66-70 | Each component is what any of its members reaches over edges taken either way. Both ends of every stored edge share a component. |
| GraphAlgorithms.ConnectedComponents | graph-tasks/algorithmics.py:66-113 | Partition and order facts:<br>- every vertex is in exactly one component;<br>- each component is nonempty and strictly increasing;<br>- components come in increasing order of first element;<br>- the sizes add up to `vertices`.<br>Given symmetric storage when undirected:<br>- each component is a weakly connected component;<br>- the ends of every stored edge share one. |
| GraphAlgorithms.CountInternal | graph-tasks/algorithmics.py:135-144 | The nested loops count the entries of the component's lists that lead into the component: all of them when directed, those with `u < v` when undirected. |
| GraphAlgorithms.RowCountSort | graph-tasks/algorithmics.py:136 | The count does not depend on the order of a list, so the sorted adjacency list gives the count of the stored one. |
| GraphAlgorithms.EdgeCountSorted | graph-tasks/algorithmics.py:130-144 | `edge_count` over the sorted adjacency lists equals the count over the store. |
| GraphAlgorithms.RankOrder | graph-tasks/algorithmics.py:154 | The key `(-node_count, -edge_count, smallest_vertex)` is a total preorder. |
| GraphAlgorithms.NodeTotalSort | graph-tasks/algorithmics.py:154 | Sorting the entries keeps the sum of `node_count`. |
| GraphAlgorithms.ListStats | graph-tasks/algorithmics.py:129-152 | One entry per component, in component order. Each entry holds the component, its length, its internal edge count and its first vertex. The node counts sum to the components' total size. |
| GraphAlgorithms.ListSummary | graph-tasks/algorithmics.py:129-152 | The unsorted entries:<br>- each summarises its component;<br>- they cover every vertex once;<br>- their node counts sum to `vertices`;<br>- they have no repeats. |
| GraphAlgorithms.RankedSummary | graph-tasks/algorithmics.py:154 | Sorting by the rank keeps all of that and orders the entries by the key. |
| GraphAlgorithms.ComponentsWithStats | graph-tasks/algorithmics.py:116-156 | Each entry has:<br>- a nonempty, increasing vertex list;<br>- `node_count` = its length;<br>- `smallest_vertex` = its first vertex;<br>- `edge_count` = the internal stored entries (`u < v` only when undirected).<br>The entries cover every vertex exactly once and `node_count` sums to `vertices`. They are sorted by `(-node_count, -edge_count, smallest_vertex)` and, given symmetric storage, are the weak components. |
| PrefixFunction.LongestBorder | prefix_function.py:3 | The value is a border of the first `n` characters, and no longer proper border exists. |
| PrefixFunction.BorderOfBorder | prefix_function.py:11-12 | Borders shorter than a border `j` are exactly that border's own borders, so falling back to `pi[j - 1]` loses no candidate. |
| PrefixFunction.LongestBorderStep | prefix_function.py:8-17 | `pi[i] <= pi[i - 1] + 1`. |
| PrefixFunction.FallBackDone | prefix_function.py:11-17 | When the back-off loop stops, `j + 1` on a match (else `0`) is the longest border of `s[..i + 1]`. |
| PrefixFunction.NextEntry | prefix_function.py:9-17 | The inner loop, started from `pi[i - 1]`, finds the longest border of `s[..i + 1]`. It terminates because `pi[j - 1] < j`. |
| PrefixFunction.ComputePrefixFunction | prefix_function.py:1-18 | The length is `len(s)` and `pi[0] = 0`. Each `pi[i] <= i` is the length of the longest proper border of `s[..i + 1]`, and `pi[i] <= pi[i - 1] + 1`. |
| PrefixFunction.LongestPrefixSuffix | prefix_function.py:21-34 | `""` for the empty string. Otherwise the longest proper prefix of `s` that is also a suffix. |
| PrefixFunction.LongestProperBorderUnique | prefix_function.py:21-34 | That answer is unique. |
| PrefixFunction.Examples | prefix_function.py:38-48 | `"motomoto"` gives `"moto"`, `"jojo"` gives `"jo"` and `"gibbsgibbon"` gives `""`. |
| NumberOfProvinces.Dfs | Number_of_Provinces.py:9-17 | Marks exactly the unvisited cities reachable from the city through unvisited cities, over entries equal to `1`. Other flags are untouched. The matrix is a value and is never changed. |
| NumberOfProvinces.CountNew | Number_of_Provinces.py:20-25 | An unvisited city starts one more search, which adds its province. |
| NumberOfProvinces.NewProvince | Number_of_Provinces.py:20-25 | For a symmetric matrix, that province was not counted before. |
| NumberOfProvinces.CountOld | Number_of_Provinces.py:20-22 | A visited city's province is already counted. |
| NumberOfProvinces.CountDone | Number_of_Provinces.py:20-27 | At the end: `0 <= count <= n`, `count >= 1` when `n >= 1` and, for a symmetric matrix, `count` = the number of provinces. |
| NumberOfProvinces.FindCircleNum | Number_of_Provinces.py:3-27 | `count` is in `[0, n]` (so `0` for no cities) and at least `1` when `n >= 1`. For a symmetric matrix it is the number of connected groups. |
| NumberOfProvinces.ProvincesPartition | Number_of_Provinces.py:19-25 | For a symmetric matrix every city lies in exactly one province. |
| GridRegions.Search | Flood_Fill.py:15-24 | The recursive search as a function of the grid. Each call removes as many cells of the searched colour as it counts, which is its termination measure. |
| GridRegions.SearchFloods | Flood_Fill.py:15-24 | A search from `(r, c)` recolours exactly the 4-connected region of cells of the initial colour containing `(r, c)`, and its count is that region's size. |
| GridRegions.RecolorCells | Flood_Fill.py:17-18 | Recolouring cells of colour `v` to another colour removes exactly those cells from colour `v`. |
| GridRegions.RecolorTwice | Flood_Fill.py:18 | Recolouring `A` and then `B` to one colour recolours `A + B`. |
| GridRegions.SetCell | Flood_Fill.py:18 | Writing one cell changes the grid exactly as recolouring that cell. |
| GridRegions.CellsBound | Max_Area_of_Island.py:9-10 | The cells of one colour number at most `rows * cols`. |
| FloodFill.Fill | Flood_Fill.py:15-24 | The inner `DFS(r, c)` leaves the image in the state the `Search` function gives. |
| FloodFill.FillNeighbours | Flood_Fill.py:21-24 | The four recursive calls, down, up, right and left, leave the image as `SearchNeighbours` gives. |
| FloodFill.FillPair | Flood_Fill.py:21-24 | Two of those calls in a row leave the image as `SearchPair` gives. |
| FloodFill.FloodFill | Flood_Fill.py:2-30 | Behaviour:<br>- the same array is returned;<br>- if the start already has the new colour, nothing changes;<br>- otherwise the start's 4-connected region of its initial colour takes the new colour;<br>- every other cell keeps its value. |
| MaxAreaOfIsland.Sink | Max_Area_of_Island.py:13-28 | The inner `DFS(r, c)` leaves the grid and returns the area as the `Search` function gives (`0` off the grid or on water). |
| MaxAreaOfIsland.SinkIsland | Max_Area_of_Island.py:13-28 | On a land cell the area is the size of its island, exactly that island sinks, and nothing else changes. |
| MaxAreaOfIsland.SinkNeighbours | Max_Area_of_Island.py:22-26 | The four recursive calls leave the grid as `SearchNeighbours` gives and return the sum of their areas. |
| MaxAreaOfIsland.SinkPair | Max_Area_of_Island.py:23-26 | Two of those calls in a row leave the grid and return the area as `SearchPair` gives. |
| MaxAreaOfIsland.Visit | Max_Area_of_Island.py:32-37 | One cell of the scan: land is sunk as a whole island and `max_area` keeps the scan invariant (`Scanning`); afterwards no land is left up to and including that cell. |
| MaxAreaOfIsland.ScanRow | Max_Area_of_Island.py:32-37 | One pass of the inner loop keeps the scan invariant and leaves no land in rows up to `r`. |
| MaxAreaOfIsland.BestStep | Max_Area_of_Island.py:36-37 | `max(max_area, area)` is the largest island among those scanned. |
| MaxAreaOfIsland.ScanEnd | Max_Area_of_Island.py:31-39 | After the scan:<br>- no land is left;<br>- `max_area` is the size of the largest island, `0` exactly when there is none;<br>- it is at most the number of land cells. |
| MaxAreaOfIsland.MaxAreaOfIsland | Max_Area_of_Island.py:3-39 | The result:<br>- is at least the size of every island and equals the size of one of them;<br>- is `0` exactly when there is no land (hence for an empty grid);<br>- is at most `rows * cols`.<br>Every land cell ends as water. |

## Left out

- The `weighted` flag (graph_abc.py:20) is never read, so the class has no such field.
- GraphAbc.Graph.AddEdge: the source method is abstract and has no body. The model gives it the contract its concrete variants are meant to meet. A self loop on an undirected graph is stored once. No proof ties this contract to a subclass, because none exists.
- Weights are `real` values that are only copied; no floating-point behaviour is modelled.
- Python dictionaries are indexed by vertex:
  - the store, the adjacency list and `search_adj` are sequences indexed by vertex, and iteration over them runs in key order `0 .. n - 1`, the insertion order of the source's dictionaries;
  - `adj.get(u, [])` is `adj[u]`, since every vertex has a list.
- `sorted(...)` and `list.sort(key=...)` are the stable insertion sort `Sorting.Sort`. `sorted(list(set(...)))` is `Sorting.SortedSet`. The in-place sorts are modelled as a new value assigned to the variable.
- The deque, the `visited` set and the result lists are `seq` and `set` values.
- GraphAlgorithms.Bfs: the order is characterised by these facts only:
  - `start` first;
  - no repeats;
  - exactly the reachable set;
  - every later vertex has an earlier predecessor.

  The exact queue order and the level-by-level property are not stated.
- GraphAlgorithms.Dfs: the order is characterised by these facts: `start` first, no repeats, exactly the reachable set, a predecessor before each vertex, and depth-first nesting with a predecessor inside each block. The contract does not state that neighbours are tried in increasing order, so the exact order among a vertex's children is not fixed.
- GraphAlgorithms.ConnectedComponents and GraphAlgorithms.ComponentsWithStats: the weak-component claims are stated under `Mirrored`. `Mirrored` holds always for a directed graph and means symmetric storage for an undirected one. The undirected branch searches the stored lists without mirroring them, so an undirected graph filled by other means than `AddEdge` may have lopsided lists. `Mirrored` holds for every graph built by `Create` and `AddEdge`.
- The recursion depth limit of `_dfs_recursive` and of the grid searches is not modelled.
- NumberOfProvinces.FindCircleNum requires each row to have at least `n` entries (LeetCode's square `n x n` matrix). A shorter row would make the source raise `IndexError`.
- Grids are `array2<int>`, so ragged grids cannot occur.
- FloodFill.FloodFill requires the start cell to be in the image (LeetCode's constraint). The source reads `image[sr][sc]` without a check, and Python would accept a negative index there.
- The top-level `print` calls of `prefix_function.py` are console output. Their three strings become the `PrefixFunction.Examples` lemma.
- The missing `List` import of the three LeetCode files has no counterpart.
