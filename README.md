# algs4ruby core, modelled in Dafny

This project models the algorithmic core of `algs4ruby`, a Ruby port of the
textbook library of algorithms and data structures, and proves what its
documentation and its tests promise. There is one Dafny module per Ruby file:

- **Disjoint sets.**
  - `UnionFind` is a parent forest with path halving and union by rank.
  - `UnionFindQuickUnion` is the plain parent forest.
- **The undirected multigraph** `Graph` and its traversals:
  - `DepthFirstSearch`, `DepthFirstPaths`, `BreadthFirstPaths` (single or multiple sources);
  - `ConnectedComponents`;
  - `Cycle` (self-loops, parallel edges, DFS cycle);
  - the two bipartiteness checks, `BipartiteDFS` and `BipartiteBFS`, with their odd-cycle certificates.
- **The graph generators**: `Edge`, `complete`, `path`, `cycle`, `star`, `wheel`, `binary_tree`, the Prüfer-sequence `tree`, `regular`, `eulerian_path` and `eulerian_cycle`, plus the argument checks of `simple` and `bipartite`.
- **Containers**:
  - the stack, queue and bag, each as a resizing array and as a linked list;
  - the binary heap `MinPQ`.
- **Sorting and searching**: `Insertion`, `BinaryInsertion`, `BinarySearch`, `ThreeSum` and `ThreeSumFast`.
- **Utilities**:
  - `Counter`;
  - `StandardStats.min`, `max` and `sum`;
  - `StandardRandom.shuffle!`, `shuffle`, `discrete_frequencies` and its two argument validators.

How the model is built:

- **State.** Objects whose fields the Ruby code updates in place are Dafny
  classes. Their buffers are arrays, and their methods carry `modifies` clauses.
  Each class has a ghost abstraction (`contents`, `root`, `Keys()`, the
  reachability predicates) that the methods are proved against.
- **Exceptions** are values of `Errors.Error`: `Result` for a raised
  exception or a value, and `Outcome` for a raised exception or success.
- **Ruby's `nil`** is `Option.None`.
- **Randomness.** `StandardRandom.uniform(n)` is an oracle. Its draws are
  input sequences whose entries lie in range, so every generator is proved
  for every possible run of the random number generator.
- **Traversal classes** keep a snapshot of the graph's bags that they take at
  construction (`adj`). Every statement about reachability, distances or
  colourings is made about that snapshot.
- **The `Bag`, `Stack` and `Queue`** that the graph algorithms use
  internally are sequences. A bag iterates most recent first; a stack and a
  queue have their usual order.

Where the code and its documentation disagree, the model follows the code:

- `BreadthFirstPaths.new` with a source outside the graph raises the
  IndexError of `graph.adjacent`; it does not ignore the source.
- `ConnectedComponents` ids are `0...count` in discovery order
  (connected_components.rb:88), not vertex identifiers. On an edgeless graph
  the two coincide (`EdgelessIds`).
- `Cycle`'s DFS cycle lists its vertices once each, without repeating the
  first vertex (cycle.rb:111-115), while the self-loop and parallel-edge
  cycles are closed. The model states both shapes as written.
- `BipartiteBFS`'s `odd_cycle` is the queue that `set_cycle` builds as
  written (bipartite_bfs.rb:126): an odd cycle followed by its middle
  vertex, which closes on the first vertex only for a self-loop. The cycle
  closed on its first vertex that the algorithm intends is `SetCycle`
  (see Findings).

## Model

| member | source | states |
|---|---|---|
| UnionFinds.UnionFind.New | lib/algs4ruby/fundamentals/union_find.rb:56-65 | ArgumentError exactly when `n < 0`; otherwise `n` singletons: every element its own root, every rank 0, `size == n` |
| UnionFinds.UnionFind.Singletons | lib/algs4ruby/fundamentals/union_find.rb:56-65 | the parents are the identity, the ranks all 0 and `size == n` |
| UnionFinds.UnionFind.Count | lib/algs4ruby/fundamentals/union_find.rb:49 | `size` is the number of roots of the forest |
| UnionFinds.UnionFind.Find | lib/algs4ruby/fundamentals/union_find.rb:72-83 | RangeError, with the parents untouched, outside `0...n`; otherwise the root of `i`. Path halving keeps the forest, its roots and the root of every element |
| UnionFinds.HalvingKeepsForest | lib/algs4ruby/fundamentals/union_find.rb:78 | re-pointing `x` at its grandparent keeps the forest and its roots; every element keeps its root; the grandparent is strictly nearer the root |
| UnionFinds.UnionFind.Link | lib/algs4ruby/fundamentals/union_find.rb:99-109 | root `loser` goes under root `winner`. The two components merge, `size` drops by 1, `loser` stops being a root, and the winner's rank grows by one exactly on a tie |
| UnionFinds.LinkKeepsForest | lib/algs4ruby/fundamentals/union_find.rb:99-107 | linking a root under another root keeps a ranked forest in which the two trees are joined |
| UnionFinds.UnionFind.Union | lib/algs4ruby/fundamentals/union_find.rb:92-110 | RangeError with nothing changed when an index is out of range. Already connected: nothing changes. Otherwise `size` drops by 1. The lower-rank root goes under the other; on a tie `root_b` goes under `root_a`, whose rank grows by 1. Two elements are connected afterwards exactly when they were before or their components were the two merged |
| UnionFinds.UnionFind.Connected | lib/algs4ruby/fundamentals/union_find.rb:118-120 | RangeError exactly when an index is out of range; otherwise whether the two share a root, with every root unchanged |
| UnionFinds.JoinAllWithZero | spec/support/union_find_shared_spec.rb:21-31 | `union(0, i)` for `i` in `1...n` leaves `n - i` components after each call, and one at the end |
| UnionFindQuickUnions.UnionFindQuickUnion.New | lib/algs4ruby/fundamentals/union_find_quick_union.rb:52-60 | ArgumentError exactly when `n < 0`; otherwise the parents are the identity and `size == n` |
| UnionFindQuickUnions.UnionFindQuickUnion.Singletons | lib/algs4ruby/fundamentals/union_find_quick_union.rb:52-60 | the parents are the identity, and `size == n` |
| UnionFindQuickUnions.UnionFindQuickUnion.Count | lib/algs4ruby/fundamentals/union_find_quick_union.rb:45 | `size` is the number of roots of the forest |
| UnionFindQuickUnions.UnionFindQuickUnion.Find | lib/algs4ruby/fundamentals/union_find_quick_union.rb:67-75 | RangeError exactly outside `0...n`; otherwise the root `i` reaches, a fixed point of the parents, with nothing changed |
| UnionFindQuickUnions.LinkKeepsForest | lib/algs4ruby/fundamentals/union_find_quick_union.rb:97 | linking a root under a root of another tree keeps a forest, so every `find` walk ends |
| UnionFindQuickUnions.UnionFindQuickUnion.Union | lib/algs4ruby/fundamentals/union_find_quick_union.rb:84-100 | RangeError with nothing changed for either index out of range. Already connected: nothing changes. Otherwise `root_a` goes under `root_b` and `size` drops by 1. Connectivity changes only by merging the two components |
| UnionFindQuickUnions.UnionFindQuickUnion.Connected | lib/algs4ruby/fundamentals/union_find_quick_union.rb:108-110 | RangeError exactly when an index is out of range; otherwise whether the two share a root |
| UnionFindQuickUnions.JoinAllWithZero | spec/support/union_find_shared_spec.rb:132-138 | after unioning every element with 0, `find` gives one representative for all elements and `size == 1` |
| Graphs.Graph.New | lib/algs4ruby/graphs/graph.rb:68-77 | ArgumentError exactly when `v < 0`; otherwise `v` empty bags and no edges |
| Graphs.Graph.Empty | lib/algs4ruby/graphs/graph.rb:68-77 | `v` vertices, 0 edges, every bag empty, and the graph invariant holds. The invariant: bags hold only vertices, each edge appears at both ends, and the degrees sum to `2 * e` |
| Graphs.Graph.ValidateVertex | lib/algs4ruby/graphs/graph.rb:129-133 | passes exactly for `0 <= x < v`, otherwise IndexError |
| Graphs.Graph.AddEdge | lib/algs4ruby/graphs/graph.rb:83-91 | IndexError with nothing changed unless both ends are vertices; otherwise `e` grows by 1 and the bags become `Added(adj, a, b)`, keeping the invariant (degree sum `2 * e`) |
| Graphs.AddedBags | lib/algs4ruby/graphs/graph.rb:87-90 | for distinct ends each bag gains the other end in front. A self-loop puts the vertex twice in its own bag. No other bag changes |
| Graphs.AddedMembers | lib/algs4ruby/graphs/graph.rb:87-90 | after an edge is added, a vertex is in a bag exactly when it was before or is the other endpoint |
| Graphs.AddedKeepsInvariant | lib/algs4ruby/graphs/graph.rb:87-90 | adding an edge keeps the bags well formed and symmetric and adds 2 to the degree sum |
| Graphs.TotalDegreeUpdate | lib/algs4ruby/graphs/graph.rb:87-90 | replacing one bag changes the degree sum by the change in that bag's size |
| Graphs.Graph.Adjacent | lib/algs4ruby/graphs/graph.rb:97-101 | IndexError exactly for a non-vertex; otherwise its bag, whose entries are vertices that list it back |
| Graphs.Graph.Degree | lib/algs4ruby/graphs/graph.rb:107-111 | IndexError exactly for a non-vertex; otherwise the size of its bag |
| Graphs.NoEdgesNoDegree | lib/algs4ruby/graphs/graph.rb:68-77 | a graph whose bags are all empty has degree sum 0 |
| Graphs.DegreesOfSmallGraph | spec/algs4ruby/graphs/graph_spec.rb:54-91 | edges 0-1 and 1-1 on three vertices give degrees 1, 3, 0 and `e == 2`; an edge to vertex 3 is refused with IndexError |
| Graphs.ReachableSymmetric | lib/algs4ruby/graphs/graph.rb:87-90 | in the symmetric bags of an undirected graph every walk reverses |
| Graphs.ReachableTransitive | lib/algs4ruby/graphs/graph.rb:87-90 | walks join end to end |
| Graphs.MarkedIsReachable | lib/algs4ruby/graphs/depth_first_search.rb:58-63 | marks closed under adjacency, containing `s` and all reachable from `s`, are exactly the vertices `s` reaches |
| Graphs.OddCycleNotColourable | lib/algs4ruby/graphs/bipartite_dfs.rb:89-96 | a graph with an odd cycle has no proper two-colouring |
| Graphs.Alternates | lib/algs4ruby/graphs/bipartite_dfs.rb:76-79 | along a walk of a properly two-coloured graph the colours alternate |
| Graphs.ClosedHoldsReachable | lib/algs4ruby/graphs/depth_first_search.rb:58-63 | marks closed under adjacency hold every vertex reachable from a marked one |
| DepthFirstSearches.DepthFirstSearch.New | lib/algs4ruby/graphs/depth_first_search.rb:34-42 | IndexError exactly when `source` is not a vertex; otherwise the finished search from `source` |
| DepthFirstSearches.DepthFirstSearch.Search | lib/algs4ruby/graphs/depth_first_search.rb:34-42 | the finished search: marks are exactly the vertices the source reaches, and `count` is their number |
| DepthFirstSearches.DepthFirstSearch.Dfs | lib/algs4ruby/graphs/depth_first_search.rb:58-63 | marks only grow and include `v`; the new marks are closed beyond the old ones, all reachable from the source, and `count` is the number of marks |
| DepthFirstSearches.DepthFirstSearch.IsMarked | lib/algs4ruby/graphs/depth_first_search.rb:47-50 | false for `w` outside the graph, otherwise whether `w` is marked |
| DepthFirstSearches.DepthFirstSearch.MarkedMeansReachable | lib/algs4ruby/graphs/depth_first_search.rb:47-63 | `marked?(w)` holds exactly for the vertices `w` reachable from the source |
| DepthFirstSearches.DepthFirstSearch.Count | lib/algs4ruby/graphs/depth_first_search.rb:27 | `count` is the number of vertices the source reaches, at least 1 (the source) |
| DepthFirstSearches.OneEdgeGraph | spec/algs4ruby/graphs/depth_first_search_spec.rb:17-35 | in the three-vertex graph with the one edge 0-1, 0 reaches 1 but not 2 |
| DepthFirstSearches.SearchSmallGraph | spec/algs4ruby/graphs/depth_first_search_spec.rb:17-35 | in that graph the search from 0 marks 0 and 1 but not 2, and answers false for the non-vertex 5 |
| DepthFirstPathsModel.DepthFirstPaths.New | lib/algs4ruby/graphs/depth_first_paths.rb:25-31 | IndexError (from `graph.adjacent`) exactly when `source` is not a vertex; otherwise the finished search |
| DepthFirstPathsModel.DepthFirstPaths.Search | lib/algs4ruby/graphs/depth_first_paths.rb:25-31 | the finished search: marks are reachability from the source, and the recorded edges form a tree rooted at the source |
| DepthFirstPathsModel.DepthFirstPaths.Dfs | lib/algs4ruby/graphs/depth_first_paths.rb:66-74 | marks grow and include `v` and the source; new marks are closed beyond the old; `edge_to[w] = v` only for `w` in the bag of `v`, so the tree links stay sound |
| DepthFirstPathsModel.DepthFirstPaths.Visit | lib/algs4ruby/graphs/depth_first_paths.rb:68-73 | one loop turn: an unmarked neighbour gets `v` as its edge and is searched, keeping the tree |
| DepthFirstPathsModel.TreeReaches | lib/algs4ruby/graphs/depth_first_paths.rb:51-54 | following the recorded edges back from any marked vertex reaches the source, so `path_to`'s loop ends |
| DepthFirstPathsModel.MarkLinked | lib/algs4ruby/graphs/depth_first_paths.rb:67 | marking a vertex that is the source or linked into the tree keeps the tree links sound |
| DepthFirstPathsModel.LinkUnmarked | lib/algs4ruby/graphs/depth_first_paths.rb:69-70 | recording `edge_to[w] = v` for an unmarked neighbour of a marked `v` keeps the tree links sound and links `w` one level below `v` |
| DepthFirstPathsModel.DepthFirstPaths.HasPathTo | lib/algs4ruby/graphs/depth_first_paths.rb:36-38 | `nil` past the last vertex, otherwise whether the source reaches `x` |
| DepthFirstPathsModel.DepthFirstPaths.MarkedMeansReachable | lib/algs4ruby/graphs/depth_first_paths.rb:30 | in the finished search `marked[x]` holds exactly when the source reaches `x` |
| DepthFirstPathsModel.DepthFirstPaths.PathTo | lib/algs4ruby/graphs/depth_first_paths.rb:46-58 | `nil` exactly when `x` is not a reachable vertex; otherwise a walk of the graph from the source to `x` |
| BreadthFirstPathsModel.BreadthFirstPaths.New | lib/algs4ruby/graphs/breadth_first_paths.rb:30-37 | IndexError exactly when some source is not a vertex; otherwise the finished multi-source search |
| BreadthFirstPathsModel.BreadthFirstPaths.NewSingle | lib/algs4ruby/graphs/breadth_first_paths.rb:35 | a single source is wrapped as `[source]`: IndexError exactly when it is not a vertex |
| BreadthFirstPathsModel.BreadthFirstPaths.Search | lib/algs4ruby/graphs/breadth_first_paths.rb:30-37 | for in-range sources, the finished search's invariant holds on the graph's bags |
| BreadthFirstPathsModel.BreadthFirstPaths.Bfs | lib/algs4ruby/graphs/breadth_first_paths.rb:80-100 | from all-unmarked arrays, the queue loop leaves marks = reachability from some source and distances = shortest distances, every source at distance 0, tree edges one level apart |
| BreadthFirstPathsModel.BreadthFirstPaths.Scan | lib/algs4ruby/graphs/breadth_first_paths.rb:91-98 | the neighbour loop marks every unmarked neighbour one level beyond `v`, with edge `v`, and queues it, keeping the queue layered |
| BreadthFirstPathsModel.BreadthFirstPaths.Visit | lib/algs4ruby/graphs/breadth_first_paths.rb:92-97 | one unmarked neighbour is marked at `d + 1`, gets edge `v`, and is appended to the queue |
| BreadthFirstPathsModel.Seeded | lib/algs4ruby/graphs/breadth_first_paths.rb:83-87 | with exactly the sources marked at distance 0 and queued, every invariant of the search holds |
| BreadthFirstPathsModel.ParentEdge | lib/algs4ruby/graphs/breadth_first_paths.rb:93-94 | a marked non-source `w` has its edge from a marked neighbour one level nearer |
| BreadthFirstPathsModel.TreeReaches | lib/algs4ruby/graphs/breadth_first_paths.rb:60-72 | following the edges back from a marked vertex reaches a source in exactly its level many steps |
| BreadthFirstPathsModel.NoShorterWalk | lib/algs4ruby/graphs/breadth_first_paths.rb:89-99 | when every edge leads at most one level on, no walk from a source is shorter than the level of its end |
| BreadthFirstPathsModel.BreadthFirstPaths.HasPathTo | lib/algs4ruby/graphs/breadth_first_paths.rb:42-44 | `nil` past the last vertex, otherwise whether some source reaches `x` |
| BreadthFirstPathsModel.BreadthFirstPaths.DistanceTo | lib/algs4ruby/graphs/breadth_first_paths.rb:51-53 | `nil` past the last vertex or when no source reaches `x`; otherwise the length of a shortest walk from any source |
| BreadthFirstPathsModel.BreadthFirstPaths.DistanceIsShortest | lib/algs4ruby/graphs/breadth_first_paths.rb:89-99 | in the finished search marks are reachability and each recorded distance is the shortest |
| BreadthFirstPathsModel.BreadthFirstPaths.PathTo | lib/algs4ruby/graphs/breadth_first_paths.rb:60-72 | `nil` exactly when no source reaches `x`; otherwise a walk from a source to `x` of shortest length |
| ConnectedComponentsModel.ConnectedComponents.constructor | lib/algs4ruby/graphs/connected_components.rb:34-45 | the finished scan: same id exactly when connected, ids `0...count` in discovery order, each `size` the component's size |
| ConnectedComponentsModel.ConnectedComponents.Discover | lib/algs4ruby/graphs/connected_components.rb:40-44 | one scan step: the search from the unmarked `w` labels a whole new component `count`, and `count` grows by 1 |
| ConnectedComponentsModel.ConnectedComponents.Dfs | lib/algs4ruby/graphs/connected_components.rb:86-92 | marks grow and include `v`; the new marks are closed beyond the old, reachable from the root, labelled `count`, and counted in `size[count]` |
| ConnectedComponentsModel.NewComponent | lib/algs4ruby/graphs/connected_components.rb:86-92 | the vertices a search from the unmarked `w` newly marks form one new component, keeping "same id iff connected" |
| ConnectedComponentsModel.ScanStep | lib/algs4ruby/graphs/connected_components.rb:40-44 | a search from the first unmarked vertex adds one component, discovered in index order |
| ConnectedComponentsModel.ConnectedComponents.Id | lib/algs4ruby/graphs/connected_components.rb:51-54 | `nil` exactly for a non-vertex; otherwise an id below `count` shared exactly with the vertices connected to `x` |
| ConnectedComponentsModel.ConnectedComponents.Size | lib/algs4ruby/graphs/connected_components.rb:61-64 | `nil` exactly for a non-vertex; otherwise the number of vertices connected to `x`, at least 1 |
| ConnectedComponentsModel.ConnectedComponents.Connected | lib/algs4ruby/graphs/connected_components.rb:73-78 | true exactly when both are vertices and connected (false for out-of-range indices even when equal) |
| ConnectedComponentsModel.ConnectedComponents.SizesSum | lib/algs4ruby/graphs/connected_components.rb:89 | the sizes of ids `0...count` add up to the number of vertices |
| ConnectedComponentsModel.ConnectedComponents.CountIsComponents | lib/algs4ruby/graphs/connected_components.rb:40-44 | `count` is the number of components: the first vertices of the ids are exactly the least vertices of the components |
| ConnectedComponentsModel.ConnectedComponents.EdgelessIds | spec/algs4ruby/graphs/connected_components_spec.rb:65-73 | with no edges, `count == v` and `id(w) == w` |
| ConnectedComponentsModel.ConnectedComponents.ConnectedGraphOneComponent | spec/algs4ruby/graphs/connected_components_spec.rb:16-24 | when one vertex reaches all, `count == 1` and every id is 0 |
| ConnectedComponentsModel.SizesCountVertices | lib/algs4ruby/graphs/connected_components.rb:89 | the sizes of the components in use sum to the number of vertices |
| Cycles.FindSelfLoop | lib/algs4ruby/graphs/cycle.rb:53-67 | None exactly when no bag holds its own vertex; otherwise the first such vertex `w`, giving the cycle `[w, w]` |
| Cycles.FindParallelEdges | lib/algs4ruby/graphs/cycle.rb:73-95 | None exactly when no bag repeats an entry; otherwise the first vertex `w` whose bag repeats, and the first repeated entry `u`, giving `[w, u, w]` |
| Cycles.MarkBag | lib/algs4ruby/graphs/cycle.rb:76-87 | with no marks on entry: either the first repeated entry of the bag, or (none repeating) exactly the bag's entries marked |
| Cycles.ClearBag | lib/algs4ruby/graphs/cycle.rb:89-91 | clears every mark the scan of one bag set, leaving no marks |
| Cycles.Cycle.constructor | lib/algs4ruby/graphs/cycle.rb:32-39 | a self-loop gives `[w, w]`; otherwise parallel edges give `[w, u, w]`; on a simple graph a cycle is found exactly when one exists, and it is simple |
| Cycles.Cycle.HasCycle | lib/algs4ruby/graphs/cycle.rb:43-45 | true for any self-loop or parallel edges; on a simple graph exactly when the graph has a cycle |
| Cycles.Cycle.Cycle | lib/algs4ruby/graphs/cycle.rb:28 | a walk of the graph, either closed (self-loop, parallel edges) or, on a simple graph, a cycle of distinct vertices whose last is adjacent to its first; `nil` exactly for an acyclic simple graph |
| Cycles.Cycle.Search | lib/algs4ruby/graphs/cycle.rb:36-38 | the search from every unmarked vertex reports a simple cycle exactly when the simple graph has one |
| Cycles.Cycle.Root | lib/algs4ruby/graphs/cycle.rb:38 | one turn of the loop over vertices keeps the search invariants with one more vertex covered |
| Cycles.Cycle.Dfs | lib/algs4ruby/graphs/cycle.rb:103-122 | marks grow to include `v`; the search forest is kept; a reported cycle is a simple cycle of the graph; with none reported, every vertex marked here is finished |
| Cycles.Cycle.Visit | lib/algs4ruby/graphs/cycle.rb:105-121 | one neighbour: a marked neighbour other than the parent closes a cycle, an unmarked one is searched |
| Cycles.Cycle.Descend | lib/algs4ruby/graphs/cycle.rb:117-120 | an unmarked neighbour gets `v` as its edge and is searched, one level deeper |
| Cycles.Cycle.MeetMarked | lib/algs4ruby/graphs/cycle.rb:108-116 | a marked neighbour other than the parent lies on the search path, and the tree path from it to `v` is a simple cycle |
| Cycles.Cycle.CycleTo | lib/algs4ruby/graphs/cycle.rb:110-115 | pushing `v` and its ancestors up to `w` lists `path[j..] + [v]`, a simple cycle |
| Cycles.ForestHasNoCycle | lib/algs4ruby/graphs/cycle.rb:103-122 | a finished search forest without a reported cycle means the graph has no cycle |
| Cycles.MarkedNeighbourOnPath | lib/algs4ruby/graphs/cycle.rb:108-109 | a marked neighbour that is not the parent lies on the current search path |
| Cycles.PathStretchIsCycle | lib/algs4ruby/graphs/cycle.rb:110-115 | the stretch of the search path from an adjacent vertex down to `v` is a simple cycle |
| Cycles.SelfLoopGraph | spec/algs4ruby/graphs/cycle_spec.rb:6-17 | the self-loop 0-0 is reported as `[0, 0]` |
| Cycles.PathHasNoCycle | spec/algs4ruby/graphs/cycle_spec.rb:42-49 | the path 0-1-2 has no cycle |
| Cycles.TriangleHasCycle | spec/algs4ruby/graphs/cycle_spec.rb:51-58 | the triangle 0-1-2 has a cycle |
| Cycles.PathGraphIsAcyclic | spec/algs4ruby/graphs/cycle_spec.rb:42-49 | the path 0-1-2 is a search tree, so it holds no cycle |
| BipartiteDepthFirst.BipartiteDFS.constructor | lib/algs4ruby/graphs/bipartite_dfs.rb:28-35 | bipartite exactly when the graph has a proper two-colouring, the colours then being one; otherwise an odd cycle is recorded |
| BipartiteDepthFirst.BipartiteDFS.IsBipartite | lib/algs4ruby/graphs/bipartite_dfs.rb:39-41 | true exactly when some two-colouring is proper |
| BipartiteDepthFirst.BipartiteDFS.Color | lib/algs4ruby/graphs/bipartite_dfs.rb:50-58 | NotBipartiteError first; then RangeError for a non-vertex; otherwise a side that differs from every neighbour's |
| BipartiteDepthFirst.BipartiteDFS.OddCycle | lib/algs4ruby/graphs/bipartite_dfs.rb:23 | an odd cycle of the graph, present exactly when the graph is not bipartite |
| BipartiteDepthFirst.BipartiteDFS.Search | lib/algs4ruby/graphs/bipartite_dfs.rb:28-35 | the search from each unmarked vertex establishes the class invariant |
| BipartiteDepthFirst.BipartiteDFS.Dfs | lib/algs4ruby/graphs/bipartite_dfs.rb:66-82 | marks grow; a recorded odd cycle is never replaced, and `is_bipartite` is false exactly when one is recorded; with none, every vertex marked here has neighbours of the other colour |
| BipartiteDepthFirst.BipartiteDFS.Visit | lib/algs4ruby/graphs/bipartite_dfs.rb:68-81 | one neighbour, searched only while no odd cycle is known: a same-coloured marked one closes an odd cycle, an unmarked one is coloured opposite and searched |
| BipartiteDepthFirst.BipartiteDFS.Descend | lib/algs4ruby/graphs/bipartite_dfs.rb:76-80 | an unmarked neighbour gets edge `v`, the opposite colour, and is searched |
| BipartiteDepthFirst.BipartiteDFS.MeetMarked | lib/algs4ruby/graphs/bipartite_dfs.rb:71-75 | a marked neighbour with `v`'s colour is on the search path, and the stretch between them is an odd cycle |
| BipartiteDepthFirst.BipartiteDFS.SetCycle | lib/algs4ruby/graphs/bipartite_dfs.rb:89-96 | the stack built from `v` up to `w` lists `full[j..]`, an odd cycle |
| BipartiteDepthFirst.ChainStretchIsOddCycle | lib/algs4ruby/graphs/bipartite_dfs.rb:89-96 | a stretch of the search path whose adjacent ends share a colour is an odd cycle |
| BipartiteDepthFirst.ChainAlternates | lib/algs4ruby/graphs/bipartite_dfs.rb:77-78 | along the search path colours alternate: two entries share a colour exactly when their distance is even |
| BipartiteDepthFirst.SameColourOnPath | lib/algs4ruby/graphs/bipartite_dfs.rb:72 | a marked neighbour coloured like `v` lies on the search path or is `v` |
| BipartiteDepthFirst.PathIsBipartite | spec/support/bipartite_shared_spec.rb:35-43 | the path 0-1-2 (the star on three vertices) is bipartite with 0 and 1 on different sides |
| BipartiteDepthFirst.TriangleIsNotBipartite | spec/support/bipartite_shared_spec.rb:45-96 | the triangle (the cycle on three vertices) is not bipartite, and `color(0)` raises NotBipartiteError |
| BipartiteBreadthFirst.BipartiteBFS.constructor | lib/algs4ruby/graphs/bipartite_bfs.rb:43-53 | bipartite exactly when the graph has a proper two-colouring; otherwise an odd cycle followed by its middle vertex is recorded, as `set_cycle` builds it, and no further vertex is searched |
| BipartiteBreadthFirst.BipartiteBFS.IsBipartite | lib/algs4ruby/graphs/bipartite_bfs.rb:57-59 | true exactly when some two-colouring is proper |
| BipartiteBreadthFirst.BipartiteBFS.Color | lib/algs4ruby/graphs/bipartite_bfs.rb:68-76 | NotBipartiteError first; then RangeError for a non-vertex; otherwise a side that differs from every neighbour's |
| BipartiteBreadthFirst.BipartiteBFS.OddCycle | lib/algs4ruby/graphs/bipartite_bfs.rb:38 | an odd cycle followed by its middle vertex (the queue of `set_cycle` as written), present exactly when the graph is not bipartite |
| BipartiteBreadthFirst.BipartiteBFS.Search | lib/algs4ruby/graphs/bipartite_bfs.rb:49-52 | the loop over vertices stops at the first conflict and establishes the class invariant |
| BipartiteBreadthFirst.BipartiteBFS.Bfs | lib/algs4ruby/graphs/bipartite_bfs.rb:84-106 | either the component of `s` is properly coloured and finished, or `is_bipartite` is false and an odd cycle followed by its middle vertex is recorded |
| BipartiteBreadthFirst.BipartiteBFS.Scan | lib/algs4ruby/graphs/bipartite_bfs.rb:91-104 | the neighbour loop colours and queues each unmarked neighbour and stops at the first same-coloured marked one |
| BipartiteBreadthFirst.BipartiteBFS.Reach | lib/algs4ruby/graphs/bipartite_bfs.rb:98-103 | an unmarked neighbour is marked, gets edge `v`, the opposite colour, and is queued one level deeper |
| BipartiteBreadthFirst.BipartiteBFS.Conflict | lib/algs4ruby/graphs/bipartite_bfs.rb:92-97 | a same-coloured marked neighbour sets `is_bipartite` false and records the queue of `set_cycle` as written: an odd cycle, then its middle vertex |
| BipartiteBreadthFirst.ConflictAtSameDistance | lib/algs4ruby/graphs/bipartite_bfs.rb:93 | a same-coloured marked neighbour is `v` itself or at the same distance from the root |
| BipartiteBreadthFirst.Climb | lib/algs4ruby/graphs/bipartite_bfs.rb:117-122 | moving `v` and `w` up in lockstep reaches a common ancestor, with the walk's queue and stack as stated |
| BipartiteBreadthFirst.LockstepWalk | lib/algs4ruby/graphs/bipartite_bfs.rb:113-125 | the walk lists an odd cycle from `w0` to `v0`, with the common ancestor in its middle |
| BipartiteBreadthFirst.WalkIsOddCycle | lib/algs4ruby/graphs/bipartite_bfs.rb:113-125 | the finished walk lists an odd cycle |
| BipartiteBreadthFirst.SetCycleAsWritten | lib/algs4ruby/graphs/bipartite_bfs.rb:113-127 | as written: the entries before the last form an odd cycle starting at `w0`, and the last entry is the common ancestor, not `w0` |
| BipartiteBreadthFirst.SetCycle | lib/algs4ruby/graphs/bipartite_bfs.rb:113-127 | as intended: the queue is an odd cycle closed on `w0` |
| BipartiteBreadthFirst.AncestorClosesOnlySelfLoop | lib/algs4ruby/graphs/bipartite_bfs.rb:126 | a queue of the as-written shape ends on its first vertex exactly when the odd cycle is a self-loop |
| BipartiteBreadthFirst.PathIsBipartite | spec/support/bipartite_shared_spec.rb:35-43 | the path 0-1-2 (the star on three vertices) is bipartite with neighbours on different sides |
| BipartiteBreadthFirst.TriangleIsNotBipartite | spec/support/bipartite_shared_spec.rb:45-96 | the triangle is not bipartite; `color(0)` raises NotBipartiteError; the reported queue has four entries, the last repeating the second and differing from the first |
| BipartiteBreadthFirst.TriangleQueue | lib/algs4ruby/graphs/bipartite_bfs.rb:113-127 | on the triangle, a queue of the as-written shape lists the three vertices and then the middle one again |
| GraphGenerator.NewEdge | lib/algs4ruby/graphs/graph_generator.rb:392-400 | an `Edge` holds its two ends as an ordered pair, smaller first |
| GraphGenerator.NewEdgeIdentifiesPair | lib/algs4ruby/graphs/graph_generator.rb:392-400 | two edges are equal exactly when they join the same two vertices, in either order |
| GraphGenerator.Compare | lib/algs4ruby/graphs/graph_generator.rb:407-409 | `<=>` is -1, 0 or 1; 0 exactly for equal edges, -1 exactly for the lexicographically smaller pair |
| GraphGenerator.CompareIsTotalOrder | lib/algs4ruby/graphs/graph_generator.rb:407-409 | `<=>` is antisymmetric and transitive |
| GraphGenerator.SimpleCheck | lib/algs4ruby/graphs/graph_generator.rb:29-33 | passes exactly when `0 <= e <= v(v-1)/2`, otherwise ArgumentError |
| GraphGenerator.SimpleCheckCountsPairs | lib/algs4ruby/graphs/graph_generator.rb:29-33 | that bound is the number of edges of the complete graph, so the check passes exactly when `e` distinct edges exist |
| GraphGenerator.BipartiteCheck | lib/algs4ruby/graphs/graph_generator.rb:94-98 | passes exactly when `0 <= e <= v1 * v2`, otherwise ArgumentError |
| GraphGenerator.AddAll | lib/algs4ruby/graphs/graph_generator.rb:81-83 | adding a list of edges to a graph raises `e` by their number, keeps the graph invariant, and gives the bags `AddedAll` |
| GraphGenerator.AddedAllBags | lib/algs4ruby/graphs/graph.rb:83-91 | after adding a list of edges, a bag grows by the number of edge ends at its vertex, and holds `y` exactly when it did or some edge joins the two |
| GraphGenerator.BuiltBags | lib/algs4ruby/graphs/graph.rb:83-91 | in a graph built from empty bags, a bag has as many entries as edge ends at its vertex and holds exactly the vertices some edge joins to it |
| GraphGenerator.Arranged | lib/algs4ruby/graphs/graph_generator.rb:169-170 | the vertices shuffled by the draws are an arrangement of `0...n` |
| GraphGenerator.CompleteIsComplete | lib/algs4ruby/graphs/graph_generator.rb:81-83 | the edge list of `complete(v)` holds `v(v-1)/2` distinct edges, and joins every two distinct vertices and no vertex to itself |
| GraphGenerator.Complete | lib/algs4ruby/graphs/graph_generator.rb:81-83 | ArgumentError exactly when `v < 0` (raised by `Graph.new(v)`, since `complete` calls `erdos_renyi(v, 1.0)`); otherwise `v(v-1)/2` edges, `y` adjacent to `x` exactly when `x != y` |
| GraphGenerator.PathIsPath | lib/algs4ruby/graphs/graph_generator.rb:166-175 | the consecutive edges of an arrangement make it a walk of the built graph |
| GraphGenerator.Path | lib/algs4ruby/graphs/graph_generator.rb:166-175 | ArgumentError exactly when `v < 0`; otherwise `v - 1` edges (0 for `v == 0`) that link the shuffled vertices in order |
| GraphGenerator.CycleIsCycle | lib/algs4ruby/graphs/graph_generator.rb:243-253 | for `v > 1` the arrangement is a walk and its last vertex is joined to its first |
| GraphGenerator.Cycle | lib/algs4ruby/graphs/graph_generator.rb:243-253 | ArgumentError exactly when `v < 0`; otherwise `v` edges for `v > 1` (0 otherwise) closing the shuffled vertices into a cycle |
| GraphGenerator.StarIsStar | lib/algs4ruby/graphs/graph_generator.rb:282-294 | in the built star, `y` is adjacent to `x` exactly when one of the two is the hub, and the hub has degree `v - 1` |
| GraphGenerator.Star | lib/algs4ruby/graphs/graph_generator.rb:282-294 | ArgumentError exactly when `v < 1`; otherwise `v - 1` edges, every vertex adjacent exactly to the hub and the hub to all others |
| GraphGenerator.WheelEdges | lib/algs4ruby/graphs/graph_generator.rb:260-276 | the intended wheel has `2(v - 1)` edges: `v - 1` spokes and `v - 1` rim edges |
| GraphGenerator.WheelAsWrittenLeavesRimOpen | lib/algs4ruby/graphs/graph_generator.rb:269-270 | as written, `wheel(4)` on the arrangement `[0, 1, 2, 3]` joins vertex 3 to neither 1 nor 2, so the rim is no cycle |
| GraphGenerator.WheelClosesRim | lib/algs4ruby/graphs/graph_generator.rb:269-270 | with the rim closed through `vertices[1...v]`, vertex 3 is adjacent to 1 and 2 |
| GraphGenerator.WheelIsWheel | lib/algs4ruby/graphs/graph_generator.rb:260-276 | for `v >= 2` the intended edges make the hub adjacent to every rim vertex, and the rim a cycle |
| GraphGenerator.Wheel | lib/algs4ruby/graphs/graph_generator.rb:260-276 | ArgumentError exactly when `v < 2`; otherwise the intended wheel with `2(v - 1)` edges |
| GraphGenerator.BinaryTreeSpans | lib/algs4ruby/graphs/graph_generator.rb:228-237 | every vertex is reachable from the first of the arrangement through the parent edges |
| GraphGenerator.BinaryTreeReaches | lib/algs4ruby/graphs/graph_generator.rb:228-237 | each shuffled vertex is reached from the root through its heap parents |
| GraphGenerator.BinaryTree | lib/algs4ruby/graphs/graph_generator.rb:228-237 | ArgumentError exactly when `v < 0`; otherwise `v - 1` edges (0 when empty) joining every shuffled vertex to its heap parent, so all vertices connect |
| GraphGenerator.EulerianPathWalks | lib/algs4ruby/graphs/graph_generator.rb:183-198 | the drawn vertex sequence is a walk of the built graph |
| GraphGenerator.EulerianPath | lib/algs4ruby/graphs/graph_generator.rb:183-198 | ArgumentError exactly when `e < 0` or `v < 1`; otherwise `e` edges along the drawn walk of `e + 1` vertices |
| GraphGenerator.EulerianCycleCloses | lib/algs4ruby/graphs/graph_generator.rb:206-222 | the drawn sequence is a walk and its last vertex is joined back to the first |
| GraphGenerator.EulerianCycle | lib/algs4ruby/graphs/graph_generator.rb:206-222 | ArgumentError exactly when `e < 1` or `v < 1`; otherwise `e` edges along the closed walk of the `e` drawn vertices |
| GraphGenerator.BipartiteAsWrittenDrawsInsideOnePart | lib/algs4ruby/graphs/graph_generator.rb:109 | as written, `bipartite(2, 2, 4)` passes its checks, and every edge it can draw lies inside {0, 1}: the draws give only `0-0`, `0-1` and `1-1`, so the result is neither bipartite nor free of self-loops |
| GraphGenerator.DrawnEdgesCross | lib/algs4ruby/graphs/graph_generator.rb:109 | drawing from the second side at `vertices[v1 + b]` gives an edge between the two sides, never a self-loop, and distinct draws give distinct edges |
| GraphGenerator.RegularCheckAsWritten | lib/algs4ruby/graphs/graph_generator.rb:316-320 | as written, a negative `k` raises NoMethodError; otherwise ArgumentError exactly when `v * k` is odd |
| GraphGenerator.RegularCheck | lib/algs4ruby/graphs/graph_generator.rb:316-320 | passes exactly when `k >= 0` and `v * k` is even, otherwise ArgumentError |
| GraphGenerator.RegularNegativeDegree | lib/algs4ruby/graphs/graph_generator.rb:316-320 | the two checks differ only on `k < 0` (NoMethodError against ArgumentError) |
| GraphGenerator.CopiesCount | lib/algs4ruby/graphs/graph_generator.rb:324-328 | the vertex list of `regular` holds each vertex exactly `k` times |
| GraphGenerator.FillCopies | lib/algs4ruby/graphs/graph_generator.rb:324-328 | the filled array lists every vertex `k` times in order |
| GraphGenerator.RegularIsRegular | lib/algs4ruby/graphs/graph_generator.rb:330-333 | pairing any arrangement of those copies gives `v * k / 2` edges and every vertex degree `k` |
| GraphGenerator.PairedEnds | lib/algs4ruby/graphs/graph_generator.rb:331-333 | pairing consecutive entries gives each vertex as many edge ends as its occurrences |
| GraphGenerator.Regular | lib/algs4ruby/graphs/graph_generator.rb:305-336 | ArgumentError exactly when `v < 0`, `k < 0` or `v * k` odd; otherwise `v * k / 2` edges and every vertex of degree `k` |
| GraphGeneratorTree.Tree | lib/algs4ruby/graphs/graph_generator.rb:344-375 | ArgumentError exactly when `v < 0`; otherwise `v - 1` edges (0 for `v < 2`), no self-loop, and each vertex's degree is 1 plus its occurrences in the Prüfer sequence |
| GraphGeneratorTree.CountDegrees | lib/algs4ruby/graphs/graph_generator.rb:355-356 | each vertex's degree is 1 plus its occurrences in the sequence |
| GraphGeneratorTree.LeafQueue | lib/algs4ruby/graphs/graph_generator.rb:358-359 | the queue holds exactly the vertices of degree 1, and the decoding invariant starts |
| GraphGeneratorTree.DecodeStep | lib/algs4ruby/graphs/graph_generator.rb:361-370 | one step adds the edge from the least leaf to the next sequence entry and keeps the decoding invariant one entry further |
| GraphGeneratorTree.TakeLeaf | lib/algs4ruby/graphs/graph_generator.rb:362 | `pq.delete_min` takes the least of the queued leaves out |
| GraphGeneratorTree.JoinTo | lib/algs4ruby/graphs/graph_generator.rb:365-367 | adds the edge and lowers both degrees by one |
| GraphGeneratorTree.AddLeaf | lib/algs4ruby/graphs/graph_generator.rb:369 | queues a new leaf |
| GraphGeneratorTree.JoinLeaf | lib/algs4ruby/graphs/graph_generator.rb:365-369 | adds the edge, lowers both degrees, and queues `b` exactly when its degree drops to 1 |
| GraphGeneratorTree.LeavesCount | lib/algs4ruby/graphs/graph_generator.rb:361-372 | at least two leaves remain while decoding, and exactly the two unremoved vertices at the end |
| GraphGeneratorTree.DecodingEnd | lib/algs4ruby/graphs/graph_generator.rb:372 | joining the two last leaves gives every vertex degree 1 plus its occurrences, with no self-loop |
| GraphGeneratorTree.FinishTree | lib/algs4ruby/graphs/graph_generator.rb:372 | the last edge joins the two remaining leaves and completes the degrees |
| MinPQs.MinPQ.constructor | lib/algs4ruby/sorting/min_pq.rb:78-88 | `MinPQ.new` (capacity 1): empty and heap-ordered, under the given comparison |
| MinPQs.MinPQ.WithRoom | lib/algs4ruby/sorting/min_pq.rb:165-173 | an empty heap for a valid capacity |
| MinPQs.MinPQ.WithCapacity | lib/algs4ruby/sorting/min_pq.rb:165-173 | ArgumentError exactly when `capacity < 1`; otherwise an empty heap |
| MinPQs.MinPQ.FromKeys | lib/algs4ruby/sorting/min_pq.rb:188-195 | heapifying by sinking `size/2` down to 1 gives a heap-ordered queue whose keys are exactly the given ones |
| MinPQs.MinPQ.IsEmpty | lib/algs4ruby/sorting/min_pq.rb:92-94 | true exactly when no key is held |
| MinPQs.MinPQ.Size | lib/algs4ruby/sorting/min_pq.rb:44 | the number of keys held, with multiplicity |
| MinPQs.MinPQ.Min | lib/algs4ruby/sorting/min_pq.rb:99-103 | PriorityQueueEmptyError exactly when empty; otherwise a held key no other key is smaller than |
| MinPQs.MinPQ.Smallest | lib/algs4ruby/sorting/min_pq.rb:99-103 | in a heap-ordered array the root is a smallest key |
| MinPQs.TopIsSmallest | lib/algs4ruby/sorting/min_pq.rb:200-218 | in a heap-ordered array no entry is smaller than the root |
| MinPQs.MinPQ.Swim | lib/algs4ruby/sorting/min_pq.rb:200-205 | moving a key up restores heap order, keeping the same keys and every slot outside `1..size` |
| MinPQs.MinPQ.Sink | lib/algs4ruby/sorting/min_pq.rb:210-218 | moving a key down restores heap order below it, keeping the same keys and every slot outside `1..size` |
| MinPQs.MinPQ.Resize | lib/algs4ruby/sorting/min_pq.rb:248-256 | ArgumentError exactly when `new_cap < size` |
| MinPQs.MinPQ.Insert | lib/algs4ruby/sorting/min_pq.rb:108-114 | the key is added, `size` grows by 1, and heap order holds |
| MinPQs.MinPQ.DeleteMin | lib/algs4ruby/sorting/min_pq.rb:119-131 | PriorityQueueEmptyError when empty; otherwise removes and returns a smallest key, `size` drops by 1, and heap order holds |
| MinPQs.MinPQ.FillCopy | lib/algs4ruby/sorting/min_pq.rb:141-142 | inserting every key into an empty copy gives it the same keys |
| MinPQs.MinPQ.Drain | lib/algs4ruby/sorting/min_pq.rb:143 | repeated `delete_min` lists exactly the copy's keys in ascending order |
| MinPQs.MinPQ.CopyAndDrain | lib/algs4ruby/sorting/min_pq.rb:141-143 | a copy drained lists exactly this queue's keys in ascending order |
| MinPQs.MinPQ.Each | lib/algs4ruby/sorting/min_pq.rb:137-146 | as written, ArgumentError exactly when empty (the copy is made with capacity `size`); otherwise the keys in ascending order |
| MinPQs.MinPQ.Ordered | lib/algs4ruby/sorting/min_pq.rb:137-146 | as intended: the keys in ascending order, the empty list when empty |
| MinPQs.EmptyEach | lib/algs4ruby/sorting/min_pq.rb:141 | on an empty queue `each` raises ArgumentError, where nothing was meant to be yielded |
| MinPQs.HeapOrderOfKeys | spec/algs4ruby/sorting/min_pq_spec.rb:106-125 | a queue built from the keys 3, 1, 2, then four `delete_min`s give 1, 2, 3 and then PriorityQueueEmptyError |
| MinPQs.IntGreaterIsStrictWeakOrder | lib/algs4ruby/sorting/min_pq.rb:226-232 | the default comparison `>` on integers is a strict weak order |
| SortOrder.IntLessIsStrictWeakOrder | lib/algs4ruby/sorting/insertion.rb:105-111 | the default `<` on integers is a strict weak order |
| SortOrder.DescendingIsStrictWeakOrder | lib/algs4ruby/sorting/insertion.rb:105-111 | the comparator block `b <=> a` yields a strict weak order that puts larger values first |
| SortOrder.Swap | lib/algs4ruby/sorting/insertion.rb:81-85 | exchanging two entries swaps them, leaves the rest, and keeps the multiset |
| SortOrder.StableIsPermutation | lib/algs4ruby/sorting/insertion.rb:63-72 | a stable rearrangement is a permutation |
| SortOrder.SortedStableUnique | lib/algs4ruby/sorting/insertion.rb:63-72 | two sorted stable rearrangements of one list are equal: a stable sort's result is unique |
| Insertion.SwapStep | lib/algs4ruby/sorting/insertion.rb:66-69 | swapping a strictly smaller entry with its left neighbour keeps the slice a stable rearrangement and leaves the outside alone |
| Insertion.SortInPlace | lib/algs4ruby/sorting/insertion.rb:63-72 | `sort!` over `lo...hi` leaves that slice sorted, a stable permutation of its old contents, and the rest of the array unchanged |
| Insertion.Sort | lib/algs4ruby/sorting/insertion.rb:40-51 | `sort` returns a copy with the same guarantees and leaves the input unchanged |
| Insertion.SortIntegers | lib/algs4ruby/sorting/insertion.rb:40-51 | sorting integers with `<` gives the ascending permutation of the input |
| BinaryInsertion.Inserted | lib/algs4ruby/sorting/binary_insertion.rb:80-81 | moving entry `i` down to `low` shifts `low...i` one place right and leaves the rest |
| BinaryInsertion.InsertionStep | lib/algs4ruby/sorting/binary_insertion.rb:64-86 | inserting entry `i` at the position the binary search found extends the sorted prefix by one and keeps stability |
| BinaryInsertion.SortInPlace | lib/algs4ruby/sorting/binary_insertion.rb:64-86 | `sort!` over `lo...hi` leaves that slice sorted, a stable permutation, and the rest unchanged. The shift's last step is modelled as written: when `low == 0` it reads `array[-1]`, the last entry, and line 81 then overwrites that slot |
| BinaryInsertion.Sort | lib/algs4ruby/sorting/binary_insertion.rb:50-52 | `sort` returns a copy with the same guarantees |
| BinaryInsertion.SortsAgree | lib/algs4ruby/sorting/binary_insertion.rb:64-86 | binary insertion sort and insertion sort return the same result on every input |
| BinarySearch.SearchResult | lib/algs4ruby/fundamentals/binary_search.rb:25-42 | the search returns -1 or an index within the range holding the key |
| BinarySearch.SearchFindsPresentKey | lib/algs4ruby/fundamentals/binary_search.rb:25-42 | on a sorted array a key within the range is found |
| BinarySearch.IndexOf | lib/algs4ruby/fundamentals/binary_search.rb:25-42 | -1 or an index holding the key; on a sorted array -1 exactly when the key is absent |
| BinarySearch.Examples | spec/algs4ruby/fundamentals/binary_search_spec.rb:6-30 | in `[1, 2, 3, 4, 5]` the absent key 7 gives -1 and the key 3 gives 2; in `[1, 2, 3, 4, 5, 5]` the key 5 gives 4 or 5 |
| ThreeSum.ZeroTriplesShort | lib/algs4ruby/fundamentals/three_sum.rb:26-39 | fewer than three entries hold no triple |
| ThreeSum.ZeroTriplesPositive | lib/algs4ruby/fundamentals/three_sum.rb:26-39 | the count is positive exactly when some `i < j < k` has a zero sum |
| ThreeSum.Count | lib/algs4ruby/fundamentals/three_sum.rb:26-39 | the triple loop counts the index triples `i < j < k` with zero sum |
| ThreeSum.CountPairs | lib/algs4ruby/fundamentals/three_sum.rb:31-35 | the inner two loops count the pairs after `i` that sum to `-a[i]` |
| ThreeSum.CountThirds | lib/algs4ruby/fundamentals/three_sum.rb:32-34 | the innermost loop counts the entries after `j` equal to `-a[i] - a[j]` |
| ThreeSum.Examples | spec/algs4ruby/fundamentals/three_sum_spec.rb:30-51 | counts of 1, 0 and 2 on the three example arrays |
| ThreeSumFast.SortIntegersInPlace | lib/algs4ruby/fundamentals/three_sum_fast.rb:29 | `sort!` leaves the array ascending and a permutation of its old contents |
| ThreeSumFast.Count | lib/algs4ruby/fundamentals/three_sum_fast.rb:26-40 | sorts the array in place, then counts the pairs `i < j` whose negated sum a binary search finds past `j` |
| ThreeSumFast.FastCountBound | lib/algs4ruby/fundamentals/three_sum_fast.rb:26-40 | the count is at most the number of pairs |
| ThreeSumFast.FastCountIsThreeSum | lib/algs4ruby/fundamentals/three_sum_fast.rb:26-40 | on sorted distinct values the count equals the brute-force count |
| ThreeSumFast.RepeatedValuesUndercount | lib/algs4ruby/fundamentals/three_sum_fast.rb:26-40 | on `[0, 0, 0]` the brute force counts 1 triple and the fast count 0 |
| ThreeSumFast.HasAdjacentDuplicate | lib/algs4ruby/fundamentals/three_sum_fast.rb:26-40 | on a sorted array, true exactly when some value repeats |
| ThreeSumFast.CountDistinct | lib/algs4ruby/fundamentals/three_sum_fast.rb:26-40 | ArgumentError exactly when a value repeats; otherwise the brute-force count |
| StandardStats.SeqMin | lib/algs4ruby/standard_io_libraries/standard_stats.rb:31-39 | an element of the list no greater than any other |
| StandardStats.SeqMax | lib/algs4ruby/standard_io_libraries/standard_stats.rb:58-66 | an element of the list no smaller than any other |
| StandardStats.Min | lib/algs4ruby/standard_io_libraries/standard_stats.rb:31-39 | `+Infinity` for an empty array; RangeError for a bad range; otherwise an element of `a[low..high]` no greater than any of it |
| StandardStats.Max | lib/algs4ruby/standard_io_libraries/standard_stats.rb:58-66 | `-Infinity` for an empty array; RangeError for a bad range; otherwise an element of `a[low..high]` no smaller than any of it |
| StandardStats.Sum | lib/algs4ruby/standard_io_libraries/standard_stats.rb:83-91 | 0 for an empty array; RangeError for a bad range |
| StandardStats.SumIsTotal | lib/algs4ruby/standard_io_libraries/standard_stats.rb:83-91 | on a valid range the sum is the total of `a[low..high]` |
| StandardStats.SumDefaultRange | lib/algs4ruby/standard_io_libraries/standard_stats.rb:83-91 | with the default range the sum is the total of the array |
| StandardStats.SumSplit | lib/algs4ruby/standard_io_libraries/standard_stats.rb:83-91 | the sum over a range splits at any midpoint |
| StandardStats.InjectIsTotal | lib/algs4ruby/standard_io_libraries/standard_stats.rb:90 | the left fold `inject(:+)` equals the total |
| StandardStats.TotalAppend | lib/algs4ruby/standard_io_libraries/standard_stats.rb:90 | the total of a concatenation is the sum of the totals |
| StandardRandom.ShuffledPermutes | lib/algs4ruby/standard_io_libraries/standard_random.rb:276-291 | the Fisher-Yates pass is a permutation of the range and leaves everything outside it unchanged |
| StandardRandom.ShuffleReachesEveryArrangement | lib/algs4ruby/standard_io_libraries/standard_random.rb:276-291 | every rearrangement of the range is produced by some sequence of draws |
| StandardRandom.ZeroDrawsKeepOrder | lib/algs4ruby/standard_io_libraries/standard_random.rb:283-288 | draws that always pick the current position leave the array unchanged |
| StandardRandom.SwapPass | lib/algs4ruby/standard_io_libraries/standard_random.rb:283-288 | the swap loop applies the Fisher-Yates pass for the given draws |
| StandardRandom.ShuffleInPlace | lib/algs4ruby/standard_io_libraries/standard_random.rb:276-291 | RangeError with the array untouched for a bad range; otherwise the shuffled range, a permutation, nothing outside it changed |
| StandardRandom.Shuffle | lib/algs4ruby/standard_io_libraries/standard_random.rb:261-263 | RangeError exactly for a bad range; otherwise a shuffled copy that permutes the range only |
| StandardRandom.FailIfHasNegativeElements | lib/algs4ruby/standard_io_libraries/standard_random.rb:299-304 | ArgumentError exactly when some entry is negative |
| StandardRandom.FailUnlessHasNonZeroElements | lib/algs4ruby/standard_io_libraries/standard_random.rb:310-315 | passes exactly when some entry is non-zero, otherwise ArgumentError |
| StandardRandom.DiscreteFrequencies | lib/algs4ruby/standard_io_libraries/standard_random.rb:233-245 | ArgumentError exactly for a negative or an all-zero list; otherwise the first index whose running sum passes the draw, with positive frequency; a single non-zero entry is always chosen |
| Counters.Spaceship | lib/algs4ruby/fundamentals/counter.rb:51-53 | Integer `<=>`: -1, 0 or 1 with the sign of the comparison |
| Counters.Counter.constructor | lib/algs4ruby/fundamentals/counter.rb:33-36 | a counter with the given id and tally 0 |
| Counters.Counter.Increment | lib/algs4ruby/fundamentals/counter.rb:41-43 | the tally grows by 1 and the new tally is returned |
| Counters.Counter.Compare | lib/algs4ruby/fundamentals/counter.rb:51-53 | the sign of `<=>` is the order of the two tallies |
| Counters.CompareAntisymmetric | lib/algs4ruby/fundamentals/counter.rb:51-53 | comparing in the other order negates the result |
| Counters.IncrementTwice | spec/algs4ruby/fundamentals/counter_spec.rb:15-27 | incrementing a new counter twice returns 1 then 2 |
| RubyArrays.RubyGet | lib/algs4ruby/sorting/min_pq.rb:99-103 | Ruby's `Array#[]`: the entry inside the array, `nil` past its end |
| RubyArrays.RubySet | lib/algs4ruby/sorting/min_pq.rb:108-114 | Ruby's `Array#[]=`: writing past the end extends the array with `nil`s; every other entry keeps its value |
| BagLinkedLists.BagLinkedList.constructor | lib/algs4ruby/fundamentals/bag_linked_list.rb:46-49 | an empty bag |
| BagLinkedLists.BagLinkedList.Size | lib/algs4ruby/fundamentals/bag_linked_list.rb:41 | the number of items |
| BagLinkedLists.BagLinkedList.IsEmpty | lib/algs4ruby/fundamentals/bag_linked_list.rb:54-56 | true exactly when the bag holds nothing |
| BagLinkedLists.BagLinkedList.Add | lib/algs4ruby/fundamentals/bag_linked_list.rb:62-65 | the item goes to the front of the list; the multiset grows by the item |
| BagLinkedLists.BagLinkedList.Each | lib/algs4ruby/fundamentals/bag_linked_list.rb:72-82 | yields the items, most recent first |
| BagLinkedLists.AddThree | spec/support/bag_shared_spec.rb:61-91 | adding 1, 2, 2 yields `[2, 2, 1]`, the same multiset |
| BagResizingArrays.BagResizingArray.constructor | lib/algs4ruby/fundamentals/bag_resizing_array.rb:42-45 | an empty bag of capacity 2 |
| BagResizingArrays.BagResizingArray.Size | lib/algs4ruby/fundamentals/bag_resizing_array.rb:37 | the number of items |
| BagResizingArrays.BagResizingArray.IsEmpty | lib/algs4ruby/fundamentals/bag_resizing_array.rb:61-63 | true exactly when the bag holds nothing |
| BagResizingArrays.BagResizingArray.Resize | lib/algs4ruby/fundamentals/bag_resizing_array.rb:92-101 | ArgumentError, storage unchanged, exactly when `new_cap <= size`; otherwise a fresh buffer of that capacity; the items never change |
| BagResizingArrays.BagResizingArray.Add | lib/algs4ruby/fundamentals/bag_resizing_array.rb:51-56 | the item is appended; the capacity doubles exactly when the buffer was full |
| BagResizingArrays.BagResizingArray.Each | lib/algs4ruby/fundamentals/bag_resizing_array.rb:70-76 | yields the items in insertion order |
| BagResizingArrays.AddThree | spec/support/bag_shared_spec.rb:61-91 | adding 1, 2, 2 to a new bag yields `[1, 2, 2]` with capacity 4 |
| StackLinkedLists.StackLinkedList.constructor | lib/algs4ruby/fundamentals/stack_linked_list.rb:47-50 | an empty stack |
| StackLinkedLists.StackLinkedList.Size | lib/algs4ruby/fundamentals/stack_linked_list.rb:42 | the number of items |
| StackLinkedLists.StackLinkedList.IsEmpty | lib/algs4ruby/fundamentals/stack_linked_list.rb:90-92 | true exactly when the stack holds nothing |
| StackLinkedLists.StackLinkedList.Push | lib/algs4ruby/fundamentals/stack_linked_list.rb:56-59 | the item goes on top |
| StackLinkedLists.StackLinkedList.Pop | lib/algs4ruby/fundamentals/stack_linked_list.rb:66-74 | StackEmptyError when empty; otherwise removes and returns the top |
| StackLinkedLists.StackLinkedList.Peek | lib/algs4ruby/fundamentals/stack_linked_list.rb:81-85 | StackEmptyError when empty; otherwise the top, nothing changed |
| StackLinkedLists.StackLinkedList.Each | lib/algs4ruby/fundamentals/stack_linked_list.rb:100-110 | yields the items top first |
| StackLinkedLists.LastInFirstOut | spec/support/stack_shared_spec.rb:35-66 | pushing 1, 2, 3 yields 3, 2, 1; pops return 3, 2, 1 and then StackEmptyError |
| StackResizingArrays.StackResizingArray.constructor | lib/algs4ruby/fundamentals/stack_resizing_array.rb:41-44 | an empty stack of capacity 2 |
| StackResizingArrays.StackResizingArray.Size | lib/algs4ruby/fundamentals/stack_resizing_array.rb:36 | the number of items |
| StackResizingArrays.StackResizingArray.IsEmpty | lib/algs4ruby/fundamentals/stack_resizing_array.rb:86-88 | true exactly when the stack holds nothing |
| StackResizingArrays.StackResizingArray.Resize | lib/algs4ruby/fundamentals/stack_resizing_array.rb:118-127 | ArgumentError, storage unchanged, exactly when `new_cap < size`; otherwise a fresh buffer of that capacity; the items never change |
| StackResizingArrays.StackResizingArray.Push | lib/algs4ruby/fundamentals/stack_resizing_array.rb:50-55 | the item goes on top; the capacity doubles exactly when the buffer was full |
| StackResizingArrays.StackResizingArray.Pop | lib/algs4ruby/fundamentals/stack_resizing_array.rb:62-71 | StackEmptyError when empty; otherwise removes and returns the top, halving the capacity when the stack is non-empty and at most a quarter full |
| StackResizingArrays.StackResizingArray.Peek | lib/algs4ruby/fundamentals/stack_resizing_array.rb:78-81 | StackEmptyError when empty; otherwise the top |
| StackResizingArrays.StackResizingArray.Each | lib/algs4ruby/fundamentals/stack_resizing_array.rb:96-102 | yields the items top first |
| StackResizingArrays.LastInFirstOut | spec/support/stack_shared_spec.rb:108-137 | pushing 1, 2, 3 yields 3, 2, 1; pops return 3, 2, 1 and then StackEmptyError |
| QueueLinkedLists.QueueLinkedList.constructor | lib/algs4ruby/fundamentals/queue_linked_list.rb:47-51 | an empty queue |
| QueueLinkedLists.QueueLinkedList.Size | lib/algs4ruby/fundamentals/queue_linked_list.rb:42 | the number of items |
| QueueLinkedLists.QueueLinkedList.IsEmpty | lib/algs4ruby/fundamentals/queue_linked_list.rb:56-58 | true exactly when the queue holds nothing |
| QueueLinkedLists.QueueLinkedList.Enqueue | lib/algs4ruby/fundamentals/queue_linked_list.rb:64-75 | the item joins the back, through a fresh last node |
| QueueLinkedLists.QueueLinkedList.Dequeue | lib/algs4ruby/fundamentals/queue_linked_list.rb:83-92 | QueueEmptyError when empty; otherwise removes and returns the front |
| QueueLinkedLists.QueueLinkedList.Peek | lib/algs4ruby/fundamentals/queue_linked_list.rb:100-104 | QueueEmptyError when empty; otherwise the front |
| QueueLinkedLists.QueueLinkedList.Each | lib/algs4ruby/fundamentals/queue_linked_list.rb:111-121 | yields the items front first |
| QueueLinkedLists.FirstInFirstOut | spec/support/queue_shared_spec.rb:34-52 | dequeues return items in the order enqueued, then QueueEmptyError |
| QueueResizingArrays.QueueResizingArray.constructor | lib/algs4ruby/fundamentals/queue_resizing_array.rb:44-49 | two `nil` slots, `first == last == size == 0` |
| QueueResizingArrays.QueueResizingArray.IsEmpty | lib/algs4ruby/fundamentals/queue_resizing_array.rb:54-56 | true exactly when `size == 0` |
| QueueResizingArrays.QueueResizingArray.Resize | lib/algs4ruby/fundamentals/queue_resizing_array.rb:137-152 | ArgumentError exactly when `new_cap < size` or negative; otherwise the buffer `Resized`: the live slots copied to the same indices of a new array of `new_cap` slots; `first` and `last` unchanged |
| QueueResizingArrays.QueueResizingArray.Enqueue | lib/algs4ruby/fundamentals/queue_resizing_array.rb:62-70 | as written: doubles a full buffer, writes at `last`, and `last` always grows by 1 (the reset at line 67 sets a local) |
| QueueResizingArrays.QueueResizingArray.Dequeue | lib/algs4ruby/fundamentals/queue_resizing_array.rb:78-91 | QueueEmptyError when empty; otherwise returns slot `first` (possibly `nil`), clears it, wraps `first`, and shrinks to a quarter when a quarter full |
| QueueResizingArrays.QueueResizingArray.Peek | lib/algs4ruby/fundamentals/queue_resizing_array.rb:99-103 | QueueEmptyError when empty; otherwise slot `first` |
| QueueResizingArrays.QueueResizingArray.Each | lib/algs4ruby/fundamentals/queue_resizing_array.rb:110-121 | yields the `Traversal` of the slots from `first` to `last` as the loop walks them |
| QueueResizingArrays.ResizedBuffer | lib/algs4ruby/fundamentals/queue_resizing_array.rb:143-151 | the two copy loops build exactly the `Resized` buffer, the second range running up to the new array's size |
| QueueResizingArrays.LastNeverWraps | lib/algs4ruby/fundamentals/queue_resizing_array.rb:67 | enqueue 1, 2, dequeue twice, enqueue 3: `dequeue` returns `nil` instead of 3 |
| QueueResizingArrays.EmptyTraversalYieldsNils | lib/algs4ruby/fundamentals/queue_resizing_array.rb:110-121 | `each` on a new queue yields `[nil, nil]` |
| QueueResizingArrays.RingPut | lib/algs4ruby/fundamentals/queue_resizing_array.rb:62-70 | writing at `last` and wrapping `last` to 0 at the end keeps the ring holding the contents plus the item |
| QueueResizingArrays.RingTake | lib/algs4ruby/fundamentals/queue_resizing_array.rb:78-91 | the front item sits at `first`; clearing it and wrapping `first` keeps the ring holding the rest |
| QueueResizingArrays.RingQueue.constructor | lib/algs4ruby/fundamentals/queue_resizing_array.rb:44-49 | an empty queue of capacity 2 |
| QueueResizingArrays.RingQueue.Size | lib/algs4ruby/fundamentals/queue_resizing_array.rb:39 | the number of items |
| QueueResizingArrays.RingQueue.IsEmpty | lib/algs4ruby/fundamentals/queue_resizing_array.rb:54-56 | true exactly when the queue holds nothing |
| QueueResizingArrays.RingQueue.Resize | lib/algs4ruby/fundamentals/queue_resizing_array.rb:137-152 | ArgumentError exactly when `new_cap < size`; otherwise a fresh buffer of that capacity with the items moved to the front; the items never change |
| QueueResizingArrays.RingQueue.Enqueue | lib/algs4ruby/fundamentals/queue_resizing_array.rb:62-70 | corrected: the item joins the back; the capacity doubles exactly when full |
| QueueResizingArrays.RingQueue.Take | lib/algs4ruby/fundamentals/queue_resizing_array.rb:81-87 | removes and returns the front without resizing |
| QueueResizingArrays.RingQueue.Dequeue | lib/algs4ruby/fundamentals/queue_resizing_array.rb:78-91 | QueueEmptyError when empty; otherwise removes and returns the front, shrinking to a quarter when a quarter full |
| QueueResizingArrays.RingQueue.Peek | lib/algs4ruby/fundamentals/queue_resizing_array.rb:99-103 | QueueEmptyError when empty; otherwise the front |
| QueueResizingArrays.RingQueue.Each | lib/algs4ruby/fundamentals/queue_resizing_array.rb:110-121 | corrected: yields exactly the items, front first |
| QueueResizingArrays.RingKeepsOrder | spec/support/queue_shared_spec.rb:34-52 | the corrected queue returns 1, 2, 3, then QueueEmptyError |
| QueueResizingArrays.RingEmptyTraversal | lib/algs4ruby/fundamentals/queue_resizing_array.rb:110-121 | `each` on a new corrected queue yields nothing |

## Left out

- Command-line clients (the `if __FILE__ == $PROGRAM_NAME` blocks), `Graph.from`, `Graph#to_s`, `Counter#to_s` and the `print_all` methods: input and output only.
- Floating point:
  - `accumulator.rb` and `linear_regression.rb`;
  - `StandardStats.mean`, `var`, `varp`, `stddev` and `stddevp`;
  - `StandardRandom.bernoulli`, `gaussian`, `geometric`, `poisson`, `pareto`, `exponential`, `cauchy` and `discrete_probabilities`.
- The random number generator:
  - `StandardRandom#initialize`, `seed`, `seed=`, `uniform`, `rng` and the `method_missing` delegation are not modelled.
  - Each call to `uniform(n)` is an entry of a draw sequence passed in as an argument, with every entry in `0...n`.
  - The uniformity of the draws, and so of shuffles and random graphs, is a statistical property and is not stated. `ShuffleReachesEveryArrangement` states only that every arrangement can occur.
- The `simple` and `bipartite` rejection loops (graph_generator.rb:37-48, 104-114), `complete_bipartite`, `erdos_renyi` and `erdos_renyi_bipartite`:
  - only the argument checks of `simple` and `bipartite` and the edge drawn at line 109 are modelled;
  - their `Set` of edges never matches a new `Edge`: Ruby's `Set` compares by `hash` and `eql?`, and `Edge` (graph_generator.rb:385-410) defines only `<=>`. So `simple` adds every draw with `a != b` and may return parallel edges, and `bipartite` adds every draw and stops after exactly `e` draws.
- Timing and scripts: `stopwatch.rb`, `doubling_ratio.rb`, `doubling_test.rb`, `average.rb` and `cat.rb`.
- `algo_error.rb` only declares exception classes. They are the `Errors.Error` datatype.
- The internal `Bag`, `Stack` and `Queue` of the graph algorithms are sequences. `bag.rb`, `stack.rb` and `queue.rb` are not part of this model.
- Ruby plumbing is not modelled:
  - `each` without a block returns a lazy enumerator. The model returns the sequence that a block would receive.
  - Negative indices wrap around. `HasPathTo`, `DistanceTo` and `PathTo` take a `nat`. The one negative read the code makes itself, `array[-1]` at binary_insertion.rb:80, is modelled.
  - Deep recursion hits Ruby's stack limit.
- `Insertion.SortInPlace`, `Insertion.Sort`, `BinaryInsertion.SortInPlace` and `BinaryInsertion.Sort` take the slice as a half-open range `lo...hi` within the array, `0 <= lo <= hi <= size`. Ruby accepts any Range. A range that reaches past the end makes `less?` compare `nil` and raise NoMethodError, and that error path is not modelled. A reversed range such as `3...1` sorts nothing and returns the array unchanged, which is the model's empty slice `lo == hi`. Inclusive ranges are not modelled either.
- `BinarySearch.IndexOf` and `BinarySearch.Search` work on integers. `index_of` accepts any Comparable keys and elements.
- `StandardStats.min`, `max` and `sum` accept any Comparable or Numeric elements. `Min`, `Max` and `Sum` are modelled on integers.
- `Graph.new` called without an argument uses the default `v = 0` (graph.rb:68). `Graph.New` takes `v` explicitly, and the default is its call with 0.
- `UnionFind#indices` and `UnionFindQuickUnion#indices` are written inline as the range checks of `find`, `union` and `connected?`.
- `MinPQ`:
  - `greater?` is the `greater` parameter of the class. `swap` is the exchange inside `Swim` and `Sink`.
  - `initialize` dispatches on its argument's class, and raises ArgumentError for anything other than an Integer or an Enumerable. It is modelled as three constructors (`constructor`, `WithCapacity` and `FromKeys`), and the class test is not modelled.
- `MinPQs.MinPQ.Resize`:
  - Only the capacity check is modelled. The Ruby method builds `temp` but never stores it (min_pq.rb:254-255), so it has no effect on the heap.
  - Storage in the model is a sequence, which grows as Ruby's array auto-extends when `insert` writes past its end.
- The `capacity` readers of the resizing containers are `Capacity()` without a contract of their own.
- `StackResizingArrays.StackResizingArray.Resize` and `QueueResizingArrays.RingQueue.Resize` require `new_cap >= 1`. The private method is only ever called with a positive capacity: twice the capacity, or a quarter of it when that quarter equals a non-zero size.
- `GraphGeneratorTree.Tree` proves the edge count, the absence of self-loops and each vertex's degree (1 plus its occurrences in the Prüfer sequence). It does not prove that the result is connected and acyclic.
- `GraphGenerator.Wheel` and `GraphGenerator.Regular` are the corrected generators listed under Findings. The code as written is stated by `WheelAsWrittenLeavesRimOpen` and `RegularCheckAsWritten`.
- `BinarySearch.Search` is the recursive specification of the loop in `index_of`, and has no contract of its own. Its facts are `SearchResult` and `SearchFindsPresentKey`.
- `ThreeSumFast.Count` returns `FastCount`. `FastCount` agrees with `ThreeSum.count` only on distinct values (`FastCountIsThreeSum`).

## Findings

| source | as written | input that shows it | evidently intended | confidence | as-written member | corrected member |
|---|---|---|---|---|---|---|
| lib/algs4ruby/fundamentals/queue_resizing_array.rb:67 | `last = 0` assigns a local variable, so `@last` never wraps and the buffer grows past its end | enqueue 1, enqueue 2, dequeue, dequeue, enqueue 3, dequeue: returns `nil` | `@last = 0`, so that the queue returns 3 | not executed; high | QueueResizingArrays.LastNeverWraps | QueueResizingArrays.RingQueue.Dequeue |
| lib/algs4ruby/fundamentals/queue_resizing_array.rb:113-118 | `each` tests `@first < @last`, so an empty queue is treated as a full one | `QueueResizingArray.new.each` yields `nil, nil` | yields nothing | not executed; high | QueueResizingArrays.EmptyTraversalYieldsNils | QueueResizingArrays.RingQueue.Each |
| lib/algs4ruby/sorting/min_pq.rb:141 | `MinPQ.new(@size)` with `@size == 0` raises ArgumentError | `each` on an empty queue | yields nothing | not executed; high | MinPQs.EmptyEach | MinPQs.MinPQ.Ordered |
| lib/algs4ruby/graphs/bipartite_bfs.rb:126 | enqueues `w` after the lockstep loop has moved it to the common ancestor, so the cycle does not close | triangle with edges added 0-1, 1-2, 2-0: `set_cycle(2, 1)` gives `1, 0, 2, 0` | enqueue the original `w`: `1, 0, 2, 1` | not executed; high | BipartiteBreadthFirst.SetCycleAsWritten | BipartiteBreadthFirst.SetCycle |
| lib/algs4ruby/graphs/graph_generator.rb:269-270 | the rim runs through `vertices[0...(v-1)]`, which includes the hub, so the last vertex is joined only to the hub | `wheel(4)` with the arrangement `0, 1, 2, 3`: vertex 3 is adjacent only to 0 | a rim cycle through `vertices[1...v]` | not executed; high | GraphGenerator.WheelAsWrittenLeavesRimOpen | GraphGenerator.WheelIsWheel |
| lib/algs4ruby/graphs/graph_generator.rb:109 | `vertices[b]` draws the second end from the first `v2` vertices, not from the second side | `bipartite(2, 2, 4)` with the arrangement `0, 1, 2, 3`: every draw gives `0-0`, `0-1` or `1-1`, so the four edges returned lie inside one part, and each draw with `a == b` is a self-loop | `vertices[v1 + b]` | not executed; high | GraphGenerator.BipartiteAsWrittenDrawsInsideOnePart | GraphGenerator.DrawnEdgesCross |
| lib/algs4ruby/graphs/graph_generator.rb:317 | `fail ArgumentError "..."` is missing a comma, so it calls a method `ArgumentError` | `regular(4, -1)` raises NoMethodError | ArgumentError | not executed; high | GraphGenerator.RegularCheckAsWritten | GraphGenerator.RegularCheck |
| lib/algs4ruby/fundamentals/three_sum_fast.rb:32-37 | binary search finds one index per value, so triples with repeated values are missed | `[0, 0, 0]`: 0, where `ThreeSum.count` gives 1 | the `ThreeSum.count`, with repeated values refused | not executed; medium | ThreeSumFast.RepeatedValuesUndercount | ThreeSumFast.CountDistinct |
