# Weighted graph searches

A small Java library of a weighted graph and two searches over it:

- `WeightedGraph` keeps a map from vertex labels to `Vertex` objects, and an adjacency map from each label to the list of its outgoing `Edge`s in insertion order. `addEdge` creates missing vertices and appends the edge. On an undirected graph it also appends the mirrored edge under the destination.
- `Search` holds the result of a traversal: the set of `marked` vertices and the predecessor map `edgeTo`. It answers `hasPathTo` and rebuilds paths with `pathTo`.
- `BreadthFirstSearch` fills a `Search` with a FIFO-queue breadth-first traversal from the source.
- `DijkstraSearch` fills a `Search` with label-setting Dijkstra. The next vertex is picked by a linear scan of the unsettled set, and distances are kept in a map where an absent entry stands for infinity.

The Dafny model follows the Java classes one by one:

| file | models |
|---|---|
| `Edges.dfy` | `Edge`, an immutable value (a datatype) |
| `Vertices.dfy` | `Vertex` and its inner `AdjacencyList`, classes updated in place |
| `Graphs.dfy` | `WeightedGraph` as a class. Its adjacency map is a `map<V, seq<Edge<V>>>` field. The walk vocabulary (`IsPath`, `PathWeight`, `Trace`, `Reachable`) states what the searches compute |
| `Searching.dfy` | `Search` as a class, with `pathTo` as a loop over `edgeTo` |
| `BreadthFirst.dfy` | `BreadthFirstSearch`, with the queue loop as a method |
| `Dijkstra.dfy` | `DijkstraSearch`, with the settle/relax loop as a method |
| `Wrappers.dfy` | `Option`, standing for a Java `null` result |

Each loop of the Java code is a Dafny method, proved in one of three ways.
- The inner `for` loops (`ScanEdges`, `RelaxEdgesOf`) and the loop in `pathTo` have invariants that tie the fields to a function of the state before the loop.
  - For Breadth-first search, `Handle` and `HandleFirst` are the functions for one edge and for the first `n` edges of the dequeued vertex.
  - For Dijkstra, `Relax` and `RelaxFirst` play the same role.
  - For `pathTo` the function is `PathFrom`.
- The outer `while` loops of `Bfs` and `Dijkstra` keep a ghost copy of the fields they change. Their invariants (`Waiting`, `Settling`) are stated over that copy, and one lemma per round (`BfsRound`, `DijkstraRound`) shows that a round keeps the invariant.
- The minimum scan in `GetVertexWithMinimumWeight` keeps a running-minimum invariant over the part of the set already visited.

Lemmas about these functions carry the algorithms' correctness to the final state:
- the marked set is exactly the set of vertices reachable from the source;
- every path rebuilt from `edgeTo` is a walk in the graph;
- for Breadth-first search that walk has the fewest edges;
- for Dijkstra it has the least total weight, and that weight is the recorded distance.

Termination of `pathTo` relies on the `edgeTo` chains being acyclic. The Java code leaves that implicit. The model makes it explicit with a ghost `depth` map on `Search`, which strictly decreases along `edgeTo`. For Breadth-first search `depth` is the level; for Dijkstra it is one more than the predecessor's rank when a vertex is settled.

## Model

| member | source | states |
|---|---|---|
| Edges.Edge.Either | src/Edge.java:22-24 | returns an endpoint; `either()`, `other(either())` and `weight()` rebuild the edge |
| Edges.Edge.Weight | src/Edge.java:36-38 | returns the weight the edge was built with: the two endpoints and it rebuild the edge |
| Edges.Edge.Other | src/Edge.java:26-34 | from one endpoint it returns the other one; when `x` is the first endpoint the answer is the second one (that branch is tested first); a label that is neither endpoint is excluded, standing for the "Incorrect vertex" exception |
| Edges.Constructed | src/Edge.java:15-38 | a constructed edge reports its first endpoint from `either`, its second from `other(v)` and its weight from `weight` |
| Edges.OtherInvolutive | src/Edge.java:26-34 | `other` applied to an endpoint gives an endpoint, and applying it twice returns the label started from |
| Edges.OtherFromSecond | src/Edge.java:26-34 | `other` of the second endpoint is `either()`, self-loops included |
| Vertices.Vertex.constructor | src/Vertex.java:20-24 | the vertex holds the given label and a fresh, empty adjacency map |
| Vertices.Vertex.AddAdjacentVertex | src/Vertex.java:43-47 | the destination now maps to the weight; every other entry is kept; the key set grows by exactly the destination |
| Vertices.AdjacencyList.constructor | src/Vertex.java:65-68 | the inner map starts empty |
| Vertices.AdjacencyList.Add | src/Vertex.java:76-79 | `put` semantics: the entry is overwritten or added, and the size grows by one exactly when the key was new |
| Graphs.Adj | src/WeightedGraph.java:40-42 | an unknown label has no edges |
| Graphs.AdjLeaves | src/WeightedGraph.java:31-36 | when edges are stored under their first endpoint, every edge listed for `v` has `either() == v` and `other(v)` equal to its second endpoint, so `other` never throws in either search |
| Graphs.AdjTargetIsLabel | src/WeightedGraph.java:31-36 | every edge's target is one of the graph's labels |
| Graphs.EdgesIntoLabels | src/WeightedGraph.java:31-36 | the edges listed under any vertex leave it and lead into the graph's labels plus the source, the finite set both searches stay in |
| Graphs.WithEdge | src/WeightedGraph.java:27-38 | the adjacency map after `addEdge`: the source gains a key, and on an undirected graph so does the destination; no other key appears. The list contents are stated by the `WithEdge…` lemmas below |
| Graphs.WithEdgeAppends | src/WeightedGraph.java:31-32 | `addEdge` appends `(s, d, w)` at the end of `s`'s list and keeps the earlier entries in order; an undirected self-loop adds two copies |
| Graphs.WithEdgeMirrors | src/WeightedGraph.java:34-37 | on an undirected graph the mirrored edge `(d, s, w)` is appended to `d`'s list, and both directions are present |
| Graphs.WithEdgeFrame | src/WeightedGraph.java:27-38 | the lists under every other label, and whether those labels are keys, are unchanged |
| Graphs.WithEdgeStoredUnderKey | src/WeightedGraph.java:27-38 | `addEdge` keeps the invariant that each edge is listed under its first endpoint |
| Graphs.WithEdgeTwiceKeepsBoth | src/WeightedGraph.java:31-37 | adding the same edge twice leaves two more copies under the source: parallel edges are not merged. On an undirected graph the mirror gains two copies under the destination, and a self-loop gains four under its label |
| Graphs.LabelsOfWithEdge | src/WeightedGraph.java:27-38 | the only labels `addEdge` can introduce are its two endpoints |
| Graphs.WithEdgeIndexed | src/WeightedGraph.java:27-38 | once both endpoints have a `Vertex`, the graph invariant survives adding the edge |
| Graphs.WeightedGraph.constructor | src/WeightedGraph.java:8-12 | records `directed`; both maps start empty; the graph invariant holds |
| Graphs.WeightedGraph.GetVertex | src/WeightedGraph.java:18-25 | returns the vertex stored for `data`; if there was none it creates a fresh vertex with that label and an empty adjacency map and records it; it never replaces an existing vertex; the graph invariant is kept |
| Graphs.WeightedGraph.AddEdge | src/WeightedGraph.java:27-38 | the new adjacency map is `WithEdge` of the old one (the edge under the source; on an undirected graph also the mirror under the destination); both endpoints get a vertex; existing vertices are kept; the graph invariant is kept |
| Graphs.WeightedGraph.AdjacencyList | src/WeightedGraph.java:40-42 | an unknown label yields the empty list; under the graph invariant every listed edge leaves `v` |
| Searching.PathFrom | src/Search.java:48-61 | the path `pathTo` rebuilds starts at the source, ends at `v`, stays within the marked set, and each step follows `edgeTo` |
| Searching.PathFromSource | src/Search.java:55-58 | the source's own path is `[source]` |
| Searching.PathFromIsSimple | src/Search.java:55-56 | ranks strictly increase along a rebuilt path, so it visits no vertex twice |
| Searching.MarkedIffChain | src/Search.java:38-40 | once the source is marked, a vertex is marked exactly when an `edgeTo` chain leads to it from the source |
| Searching.Search.HasPathTo | src/Search.java:38-40 | once the source is marked, `hasPathTo(v)` holds exactly when an `edgeTo` chain leads from the source to `v`, the chain `pathTo` walks back along |
| Searching.Search.constructor | src/Search.java:24-30 | records graph and source; nothing is marked and `edgeTo` is empty |
| Searching.Search.PathTo | src/Search.java:48-61 | `None` (the Java `null`) exactly when `v` is not marked; otherwise the loop's list equals `PathFrom` |
| BreadthFirst.ClosedUnderEdges | src/BreadthFirstSearch.java:14-24 | once every marked vertex is expanded, any walk from a marked vertex ends at a marked vertex whose level is at most the start's level plus the walk's length |
| BreadthFirst.ChainIsWalk | src/BreadthFirstSearch.java:17-21 | the `edgeTo` chain of a marked vertex is a walk from the source with exactly `depth[v]` edges, and its trace is the rebuilt path |
| BreadthFirst.BfsOutcome | src/BreadthFirstSearch.java:9-25 | at the end of the loop, a vertex is marked iff it is reachable from the source, and each rebuilt path has the fewest edges of any walk |
| BreadthFirst.BfsStart | src/BreadthFirstSearch.java:10-12 | the outer invariant holds once the source is marked at level 0 and queued |
| BreadthFirst.BfsDequeue | src/BreadthFirstSearch.java:15 | polling the head starts the scan of its edges with the inner invariant |
| BreadthFirst.BfsSkip | src/BreadthFirstSearch.java:18 | an edge to an already marked vertex keeps the inner invariant |
| BreadthFirst.CoreVisit | src/BreadthFirstSearch.java:18-21 | marking `w` from `v` keeps the ranks, the levels and the fact that each predecessor follows a stored edge |
| BreadthFirst.QueueVisit | src/BreadthFirstSearch.java:21 | enqueuing `w` one level below `v` keeps the queue distinct and ordered by level |
| BreadthFirst.BfsVisit | src/BreadthFirstSearch.java:18-21 | marking, recording the predecessor and enqueuing an unmarked `w` keeps the inner invariant |
| BreadthFirst.BfsDone | src/BreadthFirstSearch.java:16-23 | after all edges of `v`, `v` is expanded and the outer invariant is back |
| BreadthFirst.Handle | src/BreadthFirstSearch.java:17-22 | after handling the edge, `w` is marked and nothing else newly is; assigned levels never change; the queue grows only at its back, by `w`, with `v` as predecessor and level one below `v`, and only when `w` was unmarked; an already marked `w` changes nothing |
| BreadthFirst.HandleKeepsEdgeTo | src/BreadthFirstSearch.java:18-20 | each `edgeTo` entry is written once: handling an edge keeps every earlier entry, only marked vertices have entries, and an already marked target changes nothing |
| BreadthFirst.HandleFirstKeepsEdgeTo | src/BreadthFirstSearch.java:16-23 | across the scan of `v`'s edges, earlier `edgeTo` entries are kept, and every new entry belongs to a newly marked vertex and names `v` |
| BreadthFirst.HandleFirst | src/BreadthFirstSearch.java:16-23 | after the first `n` edges, every target among them is marked, the marked set only grew, and assigned levels never change |
| BreadthFirst.HandleFirstInduction | src/BreadthFirstSearch.java:16-23 | a property kept by each handled edge holds after the first `n` |
| BreadthFirst.HandleConserves | src/BreadthFirstSearch.java:18-21 | handling an edge into the label set keeps the count of unmarked labels plus queued vertices |
| BreadthFirst.HandleFirstConserves | src/BreadthFirstSearch.java:16-23 | the same count is kept across the whole inner loop |
| BreadthFirst.BfsHandle | src/BreadthFirstSearch.java:17-22 | one inner step, on either branch, moves the inner invariant from edge `i` to `i + 1` |
| BreadthFirst.BfsScan | src/BreadthFirstSearch.java:16-23 | the inner invariant holds after any number of edges |
| BreadthFirst.BfsRound | src/BreadthFirstSearch.java:14-24 | one outer round keeps the outer invariant and strictly shrinks the unmarked labels plus the queue, so the loop terminates |
| BreadthFirst.BreadthFirstSearch.constructor | src/BreadthFirstSearch.java:4-7 | on a valid graph, the result's invariant holds, the marked set is exactly the reachable set, and each rebuilt path has the fewest edges |
| BreadthFirst.BreadthFirstSearch.Bfs | src/BreadthFirstSearch.java:9-25 | the same outcome, established by the queue loop: `marked` iff reachable, fewest-edge paths, and predecessors along stored edges |
| BreadthFirst.BreadthFirstSearch.ScanEdges | src/BreadthFirstSearch.java:16-23 | the fields and queue after the `for` loop are `HandleFirst` of those before it, over all edges of `v` |
| BreadthFirst.BreadthFirstSearch.HandleEdge | src/BreadthFirstSearch.java:17-22 | the fields and queue after one iteration are `Handle` of those before it |
| Dijkstra.Below | src/DijkstraSearch.java:29 | the strict comparison of distances: nothing is below a missing distance (`Double.MAX_VALUE`) except a recorded one, and a missing distance is below nothing; `BelowIsStrictTotalOrder` shows it is a strict total order |
| Dijkstra.Plus | src/DijkstraSearch.java:27 | adding a weight to a recorded distance gives the sum; a non-negative weight never makes a distance smaller, and makes it larger exactly when the weight is positive |
| Dijkstra.ShortestDistance | src/DijkstraSearch.java:48-51 | a recorded distance is returned as is; a missing one is above every finite distance |
| Dijkstra.BelowIsStrictTotalOrder | src/DijkstraSearch.java:29 | the distance comparison is irreflexive, asymmetric, transitive and total |
| Dijkstra.Relax | src/DijkstraSearch.java:26-33 | relaxing an edge out of `c` leaves `c`'s own distance unchanged |
| Dijkstra.RelaxFirst | src/DijkstraSearch.java:25-34 | relaxing the first `n` edges of `c` leaves `c`'s own distance unchanged |
| Dijkstra.RelaxBounds | src/DijkstraSearch.java:26-33 | after relaxing an edge, its target has a distance at most `c`'s plus the weight; no distance grows or is lost |
| Dijkstra.RelaxFirstBounds | src/DijkstraSearch.java:25-34 | after the first `n` edges, each target is within its edge's weight of `c`; no distance grows or is lost |
| Dijkstra.RelaxFirstInduction | src/DijkstraSearch.java:25-34 | a property kept by each relaxation holds after the first `n` |
| Dijkstra.ClosedUnderWalks | src/DijkstraSearch.java:19-35 | when every vertex with a distance is relaxed, any walk from such a vertex ends at one, and the distances obey the triangle inequality along the walk |
| Dijkstra.ChainIsWalk | src/DijkstraSearch.java:30-31 | the `edgeTo` chain of a marked vertex is a walk from the source whose weight is the vertex's recorded distance |
| Dijkstra.DijkstraOutcome | src/DijkstraSearch.java:15-36 | at the end, a vertex is marked iff it is reachable, and each rebuilt path has the least total weight, equal to the recorded distance |
| Dijkstra.DijkstraStart | src/DijkstraSearch.java:16-17 | the outer invariant holds with the source at distance 0 as the only unsettled vertex |
| Dijkstra.NextRank | src/DijkstraSearch.java:22 | a settled vertex's rank is above its predecessor's |
| Dijkstra.RecordedSettle | src/DijkstraSearch.java:22-23 | moving `c` from unsettled to marked keeps the bookkeeping invariant |
| Dijkstra.DijkstraSettle | src/DijkstraSearch.java:20-23 | settling a least-distance unsettled vertex starts the relaxation with the inner invariant (every marked distance is at most `c`'s, every unsettled one at least `c`'s), and one more vertex is marked |
| Dijkstra.SettleShrinks | src/DijkstraSearch.java:22 | marking a new vertex shrinks the set of unmarked labels |
| Dijkstra.ImproveDomains | src/DijkstraSearch.java:30-32 | an improving relaxation keeps the key sets of `distances` and `edgeTo` in step with the marked and unsettled sets |
| Dijkstra.ImprovePredecessors | src/DijkstraSearch.java:30-32 | it keeps every predecessor marked and every predecessor edge tight |
| Dijkstra.ImproveRanks | src/DijkstraSearch.java:30-32 | it keeps the ranks decreasing along `edgeTo` |
| Dijkstra.RecordedImprove | src/DijkstraSearch.java:30-32 | it keeps the whole bookkeeping invariant |
| Dijkstra.ImproveOrder | src/DijkstraSearch.java:29-32 | it keeps marked distances at most `c`'s and unsettled ones at least `c`'s |
| Dijkstra.ImproveRelaxed | src/DijkstraSearch.java:29-32 | it keeps the other marked vertices relaxed, and the first `i + 1` edges of `c` relaxed |
| Dijkstra.DijkstraImprove | src/DijkstraSearch.java:29-32 | a strictly improving edge never leads to a marked vertex (no settled vertex is reopened), and it keeps the inner invariant |
| Dijkstra.DijkstraKeep | src/DijkstraSearch.java:29 | a non-improving edge keeps the inner invariant |
| Dijkstra.DijkstraRelax | src/DijkstraSearch.java:26-33 | one relaxation, on either branch, moves the inner invariant from edge `i` to `i + 1` |
| Dijkstra.RelaxFirstKeeps | src/DijkstraSearch.java:25-34 | the inner invariant holds after any number of edges |
| Dijkstra.DijkstraDone | src/DijkstraSearch.java:25-34 | after all edges of `c`, `c` is relaxed and the outer invariant holds with `c`'s distance as the new floor |
| Dijkstra.DijkstraEnd | src/DijkstraSearch.java:19 | an empty unsettled set together with the outer invariant gives the outcome |
| Dijkstra.DijkstraRound | src/DijkstraSearch.java:19-35 | one round keeps the outer invariant and marks a new vertex, so the loop terminates |
| Dijkstra.DijkstraSearch.constructor | src/DijkstraSearch.java:7-13 | on a valid graph: nothing is left unsettled, exactly the marked vertices have distances, predecessor edges are tight, `hasPathTo` iff reachable, and each rebuilt path has the least weight, equal to the recorded distance |
| Dijkstra.DijkstraSearch.Dijkstra | src/DijkstraSearch.java:15-36 | the same outcome, established by the settle/relax loop |
| Dijkstra.DijkstraSearch.SettleNext | src/DijkstraSearch.java:20-23 | the chosen vertex is unsettled and of least distance; it is marked with the next rank and removed from the unsettled set |
| Dijkstra.DijkstraSearch.RelaxEdgesOf | src/DijkstraSearch.java:25-34 | the fields after the `for` loop are `RelaxFirst` of those before it, over all edges of the settled vertex |
| Dijkstra.DijkstraSearch.RelaxEdge | src/DijkstraSearch.java:26-33 | the fields after one iteration are `Relax` of those before it |
| Dijkstra.DijkstraSearch.GetVertexWithMinimumWeight | src/DijkstraSearch.java:38-46 | `None` exactly for the empty set; otherwise a member of the set whose distance no other member's is below |

## Left out

- Weights and distances are natural numbers, not `double`. Negative weights, NaN, rounding and the overflow of sums beyond `Double.MAX_VALUE` are not modelled. Non-negative weights are what Dijkstra needs, and the type guarantees them.
- `Double.MAX_VALUE`, returned by `getShortestDistance` for a vertex without a distance, is the `Infinite` distance. A real distance equal to `Double.MAX_VALUE` therefore cannot arise in the model.
- Dijkstra.DijkstraSearch.GetVertexWithMinimumWeight: the Java `HashSet` iteration order is not modelled. The loop picks an arbitrary remaining element, so the contract promises some least-distance vertex, not the one Java's hash order would return.
- Labels are compared with Dafny equality. Java's `equals`/`hashCode` contracts for user types are not modelled. `Vertex` keys in the inner adjacency map are compared by identity, as in the Java code.
- The subclassing of `Search` by the two searches is modelled by composition: each search class holds a `Search` object and updates its fields. The traversal still runs inside the constructor.
- Each search constructor requires the graph's invariant (`WeightedGraph.Valid`): edges are listed under their first endpoint. Every graph built with the constructor and `addEdge` satisfies it, since `AddEdge` keeps it. The `bfs` and `dijkstra` methods require only the listing part, and require that the search starts with empty fields, which the constructors ensure.
- `getVertices` (src/WeightedGraph.java:14-16) is a plain field read (`vertices`) and has no member of its own.
- `Vertex.getData` and `getAdjacentVertices` are field reads with no contract of their own. `WeightedGraph` never calls `addAdjacentVertex`, so the vertices' own adjacency maps stay empty. The model keeps this: `AddEdge` does not touch them.
- The `depth` map on `Search` is ghost and has no Java counterpart. It proves that the predecessor chains are acyclic and that `pathTo` terminates. In the breadth-first search it is also the level of each vertex, which the fewest-edges proof uses (`Levelled`, `Expanded`, `ClosedUnderEdges`, `ChainIsWalk`).
- Dijkstra.Relax and Dijkstra.RelaxFirst state in their own contracts only that the settled vertex keeps its distance. Their bounds are stated in Dijkstra.RelaxBounds and Dijkstra.RelaxFirstBounds.
- The inner `for` loop of each search and the start of each Dijkstra pass are separate methods (`ScanEdges`/`HandleEdge`, `SettleNext`/`RelaxEdgesOf`/`RelaxEdge`). They run the same statements in the same order as the Java loop bodies.
- Main.java (a console demo that builds a graph and prints paths) is not part of this model; console output is I/O.
