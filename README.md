# Unweighted graph search, modelled in Dafny

A model of a small unweighted graph-search library and of its maze
helpers.

A graph is an adjacency map. It maps each node to the list of its
neighbours. Every node that occurs as a neighbour is also a key (`Closed`).

- `graph_search.py` has four operations:
  - a breadth-first traversal that returns a discovery record. The record
    maps each discovered node to the node it was found from, and maps the
    start node to `None`;
  - path reconstruction from such a record;
  - the set of nodes reachable from a start node;
  - a breadth-first search for one end node. It returns the record and the
    path, or `None` when the end node cannot be reached.
- `graph_tools.py` turns a maze drawn as text into such a graph. Walls are
  `'#'`; every other character is a node named by its `(row, column)`. It
  also turns the maze into a 0/1 matrix.

The bodies of the four search operations are empty in the repository. Their
behaviour comes from their documentation and from `graph_search_test.py`.
The model fixes one behaviour that satisfies both:

- The frontier is a FIFO queue, and each node's neighbours are scanned in
  list order.
- A search checks whether the end node has been discovered before it
  dequeues each node. So the node that discovers the end node still scans
  the rest of its neighbours. The `B` to `A` scenario of the tests needs
  this: its record contains `C`.

Modules:

- `Wrappers` (`wrappers.dfy`): the `Option` type.
- `GraphSearch` (`graph_search.dfy`):
  - `Discover` and `Bfs` are the functional reference definition of
    breadth-first exploration.
  - `Explore` is the imperative engine. It uses a `while` loop over the
    frontier and a `for` loop over the neighbours, and is proved to compute
    `Bfs`.
  - `BreadthFirstTraverse`, `PathBacktrack`, `GetReachableNodes` and
    `BreadthFirstSearch` are the four operations.
  - The soundness lemmas hold for every closed graph. The record is a
    breadth-first tree whose layers are the distances from the start. A
    full traversal records exactly the reachable nodes. Reconstructed paths
    are shortest paths.
- `GraphSearchExamples` (`graph_search_examples.dfy`): the inline scenarios
  of the tests, each pinned to its exact result.
- `GraphTools` (`graph_tools.dfy`):
  - `MazeTextToGraph` and `MazeTextToMatrix` keep the source's nested loops.
  - Lemmas cover the shape of the maze graph and the docstring example.

## Model

| member | source | states |
|---|---|---|
| GraphSearch.Discover | graph_search.py:15-19 | Expanding a node records exactly the neighbours not yet recorded. It keeps the old frontier as a prefix and adds one frontier entry per new record. |
| GraphSearch.DiscoverRecords | graph_search.py:15-16 | Expanding node A keeps every earlier entry. Every node it newly discovers, B, gets `came_from[B] == A`. |
| GraphSearch.DiscoverQueues | graph_search.py:3-4 | The nodes appended to the FIFO frontier are exactly the newly discovered ones, each appended once. |
| GraphSearch.Bfs | graph_search.py:3-20 | The record only grows, and it only holds nodes of the graph. |
| GraphSearch.Traversal | graph_search.py:12-19 | A full traversal's record holds the start node and only nodes of the graph. |
| GraphSearch.SearchRecord | graph_search.py:69-77 | A search's record holds the start node and only nodes of the graph. |
| GraphSearch.RecordIsDiscoveryTree | graph_search.py:15-17 | For a traversal or a search, the start maps to `None`. Every other key maps to a recorded node that has an edge to it. Following predecessors from any key reaches the start. |
| GraphSearch.RecordLayersAreDistances | graph_search.py:3-4 | Each recorded node's layer is its shortest-path distance from the start. A predecessor's layer is exactly one less than its node's. |
| GraphSearch.TraversalIsReachableSet | graph_search.py:18-19 | A node is a key of the full traversal's record if and only if it is reachable from the start. |
| GraphSearch.PathStaysInside | graph_search.py:53-55 | A path that starts in a node set with no outgoing edges never leaves that set. |
| GraphSearch.ReachableWithin | graph_search.py:53-55 | Every node reachable from a member of a set with no outgoing edges is in that set. |
| GraphSearch.TraversalKeysExactly | graph_search.py:53-55 | Suppose a set contains the start, has no outgoing edges, and all its members are reachable. Then the traversal's keys are exactly that set. |
| GraphSearch.SearchStopsAtEndLayer | graph_search.py:73-81 | The search records the end node if and only if the end is reachable. Every recorded node gets its distance. If the end was found, every node strictly nearer to the start than the end is recorded, and no recorded node is farther away than the end. If not, the record holds exactly the reachable nodes. |
| GraphSearch.BacktrackIsShortest | graph_search.py:78-79 | Reconstructing the path to any node of a traversal or search record gives a shortest path from the start. |
| GraphSearch.BacktrackDetermined | graph_search.py:36-37 | The record, start and end determine the reconstructed path uniquely. |
| GraphSearch.Explore | graph_search.py:3-20 | The queue loop computes exactly the reference record `Bfs`, FIFO order and early stop included. |
| GraphSearch.BreadthFirstTraverse | graph_search.py:3-20 | The result is the full traversal record. It is a discovery tree rooted at the start. Its keys are exactly the reachable nodes. |
| GraphSearch.PathBacktrack | graph_search.py:24-38 | The path starts at the start and ends at the end. Each node's recorded predecessor is the node before it, and the start appears only first. When start is end, the path is just `[start]`. |
| GraphSearch.GetReachableNodes | graph_search.py:42-56 | The result is the key set of the traversal record. It contains exactly the nodes reachable from the start. |
| GraphSearch.BreadthFirstSearch | graph_search.py:60-82 | The record is the early-stopping search record and a discovery tree. The path is `None` if and only if the end is unreachable, and then the record's keys are exactly the reachable nodes. Otherwise the path is the reconstruction and a shortest path; every node strictly nearer to the start than the end is recorded, and no recorded node is farther away than the end. |
| GraphSearchExamples.TraverseLinkedList | graph_search_test.py:7-10 | Traversing A-B-C from A gives exactly `{A: None, B: A, C: B}`. |
| GraphSearchExamples.BacktrackScenario | graph_search_test.py:32-36 | On the record `{A: None, B: A, C: A, D: C}`, reconstruction gives `[A, B]`, `[A, C, D]` and `[A]`. |
| GraphSearchExamples.ReachableOneWayList | graph_search_test.py:42-46 | Along A -> B -> C, the reachable sets from A, B and C are `{A, B, C}`, `{B, C}` and `{C}`. |
| GraphSearchExamples.ReachableDigraphFrom1 | graph_search_test.py:53-54 | In the nine-node digraph, every node is reachable from 1. |
| GraphSearchExamples.ReachableDigraphFrom2 | graph_search_test.py:55 | From 2 the reachable set is exactly `{2, 5, 6, 7, 8, 9}`. |
| GraphSearchExamples.ReachableDigraphFrom5 | graph_search_test.py:56 | From 5 the reachable set is exactly `{5, 7, 8, 9}`. |
| GraphSearchExamples.ReachableDigraphFrom3 | graph_search_test.py:57 | From 3 the reachable set is exactly `{3, 4}`. |
| GraphSearchExamples.ReachableDigraphFrom6 | graph_search_test.py:58 | From 6 the reachable set is exactly `{6}`. |
| GraphSearchExamples.SearchLinkedListAToC | graph_search_test.py:64-68 | Searching A-B-C from A for C gives the record `{A: None, B: A, C: B}` and the path `[A, B, C]`. |
| GraphSearchExamples.SearchLinkedListBToA | graph_search_test.py:69-71 | Searching from B for A gives the record `{B: None, A: B, C: B}` and the path `[B, A]`. |
| GraphSearchExamples.SearchLinkedListCToC | graph_search_test.py:72-74 | Searching from C for C gives the record `{C: None}` and the path `[C]`. |
| GraphSearchExamples.SearchTwoComponents | graph_search.py:80-81 | Searching for a node in another component returns the path `None` and records the start's component. |
| GraphTools.MazeTextToGraph | graph_tools.py:21-65 | On a rectangular maze walled with `'#'`, the keys are exactly the open cells. Each open cell maps to its open neighbours in the order west, south, east, north. |
| GraphTools.OpenNeighbours | graph_tools.py:57-64 | The four direct tests of the adjacent characters give the open neighbours of an open cell, in the order west, south, east, north. |
| GraphTools.OpenAroundInside | graph_tools.py:28-30 | In a walled maze an open cell is interior. Its four neighbours lie inside the text, so testing their characters decides which are open. |
| GraphTools.KeepOpenMembers | graph_tools.py:55-64 | The neighbour list holds exactly the adjacent cells that are open, and at most as many cells as were tested. |
| GraphTools.MazeGraphClosed | graph_tools.py:38-39 | Every listed neighbour is itself a node of the graph. |
| GraphTools.MazeEdges | graph_tools.py:55-64 | There is an edge from an open cell to a cell if and only if that cell is adjacent and open. |
| GraphTools.MazeGraphSymmetric | graph_tools.py:57-64 | Edges go both ways: b is a neighbour of a if and only if a is a neighbour of b. |
| GraphTools.MazeNeighbourOrder | graph_tools.py:57-64 | A cell has at most four neighbours. All are adjacent, each appears once, and they come in the order west, south, east, north. |
| GraphTools.MazeTextToMatrix | graph_tools.py:68-94 | The matrix is new and has one row per line and as many columns as the first line. Each entry is 1 for an open cell and 0 for a wall or a position past the end of a shorter line. |
| GraphTools.MatrixMatchesGraph | graph_tools.py:75-76 | A matrix entry is 1 if and only if that cell is a node of the maze graph. |
| GraphTools.ExampleMazeGraph | graph_tools.py:41-50 | The documented example maze gives exactly the documented graph. |

## Left out

- `read_maze_text` is not modelled because it reads a file. Mazes are given to the model as lists of lines.
- The plotting functions are not modelled because they only draw with matplotlib.
- The tests that load maze files are not reproduced, because the maze files are not part of this model. Their properties are proved in general instead: the layers, that a successful search records every node nearer than the end node, and that an unsuccessful one records every reachable node.
- Node names in the test scenarios are single characters (`'A'`) or integers, not strings. The operations are generic in the node type.
- GraphSearch.BreadthFirstTraverse: the record is a map without key order, so the order in which Python's dictionary keeps its keys, the discovery order, is not modelled. Only the internal FIFO frontier of `Bfs` carries that order.
- GraphSearch.BreadthFirstSearch: its record does not keep the discovery order either, for the same reason.
- GraphSearch.BreadthFirstTraverse: a start node missing from the graph is excluded by a precondition. It is not modelled as an error result, because the source treats it as a caller error.
- GraphSearch.BreadthFirstSearch: a start node missing from the graph is excluded by a precondition. An end node missing from the graph is allowed and gives the path `None`, because it is not reachable. The documentation treats a missing end node as a caller error instead.
- GraphSearch.PathBacktrack: requires that following predecessors from the end node reaches the start node. The documentation makes an end node missing from the record a caller error. The model builds the path by prepending each predecessor rather than appending and reversing; the result is the same.
- GraphTools.MazeTextToGraph: requires a rectangular maze with a `'#'` border, as the documentation assumes. Without that border, Python would wrap negative indices to the other side or fail on indices past the end; neither is modelled.
- GraphTools.MazeTextToMatrix: requires at least one line and no line longer than the first. Python would fail on an empty maze or on a longer line. The matrix is an `array2<int>`; NumPy's dtype and its bounded integers are not modelled.
