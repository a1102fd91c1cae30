/**
 * Model of src/BreadthFirstSearch.java: FIFO-queue breadth-first search that
 * fills a `Search` result. The Java subclass becomes a class holding its
 * `Search`; the traversal still runs inside the constructor.
 */
module BreadthFirst {
  import opened Edges
  import opened Graphs
  import opened Searching

  /** Every predecessor entry `edgeTo[t] == u` follows an edge `u -> t` stored under `u`. */
  ghost predicate FollowsEdges<V>(G: Adjacency<V>, edgeTo: map<V, V>) {
    forall t | t in edgeTo :: exists e :: e in Adj(G, edgeTo[t]) && e.v == edgeTo[t] && e.w == t
  }

  /** `depth` is the BFS level: 0 at the source, one more than the predecessor elsewhere. */
  ghost predicate Levelled<V>(edgeTo: map<V, V>, source: V, depth: map<V, nat>) {
    && (source in depth ==> depth[source] == 0)
    && forall t | t in edgeTo :: t in depth && edgeTo[t] in depth && depth[t] == depth[edgeTo[t]] + 1
  }

  /** Vertex `u` has been dequeued and handled: every edge out of it reaches a marked vertex at most one level deeper. */
  ghost predicate Expanded<V>(G: Adjacency<V>, marked: set<V>, depth: map<V, nat>, u: V) {
    && u in depth
    && forall i | 0 <= i < |Adj(G, u)| ::
         Adj(G, u)[i].w in marked && Adj(G, u)[i].w in depth && depth[Adj(G, u)[i].w] <= depth[u] + 1
  }

  /** `path` is the vertex sequence of a walk from `source` to `t`, and no walk has fewer edges. */
  ghost predicate FewestEdges<V(!new)>(G: Adjacency<V>, source: V, t: V, path: seq<V>) {
    && (exists p :: IsPath(G, p, source, t) && Trace(source, p) == path)
    && (forall p :: IsPath(G, p, source, t) ==> |path| <= |p| + 1)
  }

  /** When every marked vertex is expanded, walks out of the marked set stay in it and gain at most one level per edge. */
  lemma {:induction false} ClosedUnderEdges<V>(G: Adjacency<V>, marked: set<V>, depth: map<V, nat>, u: V, p: seq<Edge<V>>, t: V)
    requires forall x | x in marked :: Expanded(G, marked, depth, x)
    requires u in marked && IsPath(G, p, u, t)
    ensures u in depth && t in marked && t in depth && depth[t] <= depth[u] + |p|
    decreases |p|
  {
    assert Expanded(G, marked, depth, u);
    if p != [] {
      var e := p[0];
      var i :| 0 <= i < |Adj(G, u)| && Adj(G, u)[i] == e;
      ClosedUnderEdges(G, marked, depth, e.w, p[1..], t);
    }
  }

  /** The predecessor chain of a marked vertex is a walk from the source with exactly `depth[v]` edges. */
  lemma {:induction false} ChainIsWalk<V(!new)>(G: Adjacency<V>, marked: set<V>, edgeTo: map<V, V>, source: V, depth: map<V, nat>, v: V)
    requires Ranked(marked, edgeTo, source, depth) && Levelled(edgeTo, source, depth) && FollowsEdges(G, edgeTo)
    requires v in marked
    ensures exists p :: IsPath(G, p, source, v) && Trace(source, p) == PathFrom(marked, edgeTo, source, depth, v) && |p| == depth[v]
    decreases depth[v]
  {
    if v == source {
      assert IsPath(G, [], source, source) && Trace(source, []) == [source];
    } else {
      var u := edgeTo[v];
      ChainIsWalk(G, marked, edgeTo, source, depth, u);
      var prefix := PathFrom(marked, edgeTo, source, depth, u);
      assert PathFrom(marked, edgeTo, source, depth, v) == prefix + [v];
      var p :| IsPath(G, p, source, u) && Trace(source, p) == prefix && |p| == depth[u];
      var e :| e in Adj(G, u) && e.v == u && e.w == v;
      PathSnoc(G, p, source, u, e);
      assert |p + [e]| == depth[v];
      assert IsPath(G, p + [e], source, v) && Trace(source, p + [e]) == prefix + [v];
    }
  }

  /**
   * The outcome of the traversal: once every marked vertex is expanded, the
   * marked set is exactly the set of vertices reachable from the source, and
   * each reconstructed path has the fewest edges.
   */
  lemma BfsOutcome<V(!new)>(G: Adjacency<V>, marked: set<V>, edgeTo: map<V, V>, source: V, depth: map<V, nat>)
    requires Ranked(marked, edgeTo, source, depth) && Levelled(edgeTo, source, depth) && FollowsEdges(G, edgeTo)
    requires source in marked
    requires forall x | x in marked :: Expanded(G, marked, depth, x)
    ensures forall t :: t in marked <==> Reachable(G, source, t)
    ensures forall t | t in marked :: FewestEdges(G, source, t, PathFrom(marked, edgeTo, source, depth, t))
  {
    forall t ensures t in marked <==> Reachable(G, source, t) {
      if t in marked {
        ChainIsWalk(G, marked, edgeTo, source, depth, t);
      }
      if Reachable(G, source, t) {
        var p :| IsPath(G, p, source, t);
        ClosedUnderEdges(G, marked, depth, source, p, t);
      }
    }
    forall t | t in marked ensures FewestEdges(G, source, t, PathFrom(marked, edgeTo, source, depth, t)) {
      ChainIsWalk(G, marked, edgeTo, source, depth, t);
      forall p | IsPath(G, p, source, t) ensures |PathFrom(marked, edgeTo, source, depth, t)| <= |p| + 1 {
        ClosedUnderEdges(G, marked, depth, source, p, t);
      }
    }
  }

  // ----- the loop invariants of `Bfs`, and one lemma per step of the loop -----

  /** Facts that hold throughout the traversal. */
  ghost predicate Core<V>(G: Adjacency<V>, all: set<V>, source: V, marked: set<V>, edgeTo: map<V, V>, depth: map<V, nat>) {
    && marked <= all
    && source in marked
    && Ranked(marked, edgeTo, source, depth)
    && Levelled(edgeTo, source, depth)
    && FollowsEdges(G, edgeTo)
  }

  /** The queue holds distinct marked vertices in nondecreasing level order. */
  ghost predicate QueueOrdered<V>(marked: set<V>, depth: map<V, nat>, queue: seq<V>)
    requires depth.Keys == marked
  {
    && (forall k | 0 <= k < |queue| :: queue[k] in marked)
    && (forall k, l | 0 <= k < l < |queue| :: queue[k] != queue[l])
    && (forall k, l | 0 <= k < l < |queue| :: depth[queue[k]] <= depth[queue[l]])
  }

  /** Invariant of the outer `while` loop. */
  ghost predicate Waiting<V>(G: Adjacency<V>, all: set<V>, source: V, marked: set<V>, edgeTo: map<V, V>, depth: map<V, nat>, queue: seq<V>) {
    && Core(G, all, source, marked, edgeTo, depth)
    && QueueOrdered(marked, depth, queue)
    && (queue != [] ==> forall x | x in marked :: depth[x] <= depth[queue[0]] + 1)
    && (forall u | u in marked && u !in queue :: Expanded(G, marked, depth, u))
  }

  /** Invariant of the inner loop over the edges of the dequeued vertex `v`, the first `i` of them handled. */
  ghost predicate Scanning<V>(G: Adjacency<V>, all: set<V>, source: V, marked: set<V>, edgeTo: map<V, V>, depth: map<V, nat>, queue: seq<V>, v: V, i: nat) {
    && Core(G, all, source, marked, edgeTo, depth)
    && QueueOrdered(marked, depth, queue)
    && v in marked && v !in queue && i <= |Adj(G, v)|
    && (forall k | 0 <= k < |queue| :: depth[v] <= depth[queue[k]])
    && (forall x | x in marked :: depth[x] <= depth[v] + 1)
    && (forall u | u in marked && u !in queue && u != v :: Expanded(G, marked, depth, u))
    && (forall k | 0 <= k < i :: Adj(G, v)[k].w in marked && depth[Adj(G, v)[k].w] <= depth[v] + 1)
  }

  /** Before the loop: only the source is marked, at level 0, and it is the whole queue. */
  lemma BfsStart<V>(G: Adjacency<V>, source: V)
    ensures Waiting(G, Labels(G) + {source}, source, {source}, map[], map[source := 0], [source])
  {
  }

  /** Dequeuing the head starts the scan of its edges. */
  lemma BfsDequeue<V>(G: Adjacency<V>, all: set<V>, source: V, marked: set<V>, edgeTo: map<V, V>, depth: map<V, nat>, queue: seq<V>)
    requires Waiting(G, all, source, marked, edgeTo, depth, queue) && queue != []
    ensures Scanning(G, all, source, marked, edgeTo, depth, queue[1..], queue[0], 0)
  {
    forall k | 0 <= k < |queue[1..]| ensures queue[0] != queue[1..][k] && depth[queue[0]] <= depth[queue[1..][k]] {
      assert queue[1..][k] == queue[k + 1];
    }
  }

  /** Edge `i` of `v` leads to an already marked vertex: nothing changes. */
  lemma BfsSkip<V>(G: Adjacency<V>, all: set<V>, source: V, marked: set<V>, edgeTo: map<V, V>, depth: map<V, nat>, queue: seq<V>, v: V, i: nat)
    requires Scanning(G, all, source, marked, edgeTo, depth, queue, v, i)
    requires i < |Adj(G, v)| && Adj(G, v)[i].w in marked
    requires depth[Adj(G, v)[i].w] <= depth[v] + 1
    ensures Scanning(G, all, source, marked, edgeTo, depth, queue, v, i + 1)
  {
  }

  /** Marking `w` from `v` along edge `i` of `v` keeps the facts that hold throughout. */
  lemma CoreVisit<V>(G: Adjacency<V>, all: set<V>, source: V, marked: set<V>, edgeTo: map<V, V>, depth: map<V, nat>, v: V, i: nat, w: V)
    requires Core(G, all, source, marked, edgeTo, depth)
    requires v in marked && i < |Adj(G, v)| && Adj(G, v)[i].v == v && Adj(G, v)[i].w == w && w in all && w !in marked
    ensures Core(G, all, source, marked + {w}, edgeTo[w := v], depth[w := depth[v] + 1])
  {
    var edgeTo' := edgeTo[w := v];
    assert FollowsEdges(G, edgeTo') by {
      forall t | t in edgeTo' ensures exists e :: e in Adj(G, edgeTo'[t]) && e.v == edgeTo'[t] && e.w == t {
        if t == w {
          assert Adj(G, v)[i] in Adj(G, v);
        }
      }
    }
  }

  /** Enqueuing a newly marked `w` one level below the dequeued `v` keeps the queue ordered. */
  lemma QueueVisit<V>(marked: set<V>, depth: map<V, nat>, queue: seq<V>, v: V, w: V)
    requires depth.Keys == marked && QueueOrdered(marked, depth, queue)
    requires v in marked && w !in marked
    requires forall k | 0 <= k < |queue| :: depth[queue[k]] <= depth[v] + 1
    ensures QueueOrdered(marked + {w}, depth[w := depth[v] + 1], queue + [w])
  {
    var marked', depth', queue' := marked + {w}, depth[w := depth[v] + 1], queue + [w];
    forall k, l | 0 <= k < l < |queue'| ensures queue'[k] != queue'[l] && depth'[queue'[k]] <= depth'[queue'[l]] {
      if l == |queue| {
        assert queue'[k] == queue[k] && queue[k] in marked;
      }
    }
  }

  /** Edge `i` of `v` leads to an unmarked `w`: mark it one level below `v`, record `v` as its predecessor, enqueue it. */
  lemma BfsVisit<V>(G: Adjacency<V>, all: set<V>, source: V, marked: set<V>, edgeTo: map<V, V>, depth: map<V, nat>, queue: seq<V>, v: V, i: nat, w: V)
    requires Scanning(G, all, source, marked, edgeTo, depth, queue, v, i)
    requires i < |Adj(G, v)| && Adj(G, v)[i].v == v && Adj(G, v)[i].w == w && w in all && w !in marked
    ensures Scanning(G, all, source, marked + {w}, edgeTo[w := v], depth[w := depth[v] + 1], queue + [w], v, i + 1)
  {
    var marked', depth', queue' := marked + {w}, depth[w := depth[v] + 1], queue + [w];
    CoreVisit(G, all, source, marked, edgeTo, depth, v, i, w);
    QueueVisit(marked, depth, queue, v, w);
    forall u | u in marked' && u !in queue' && u != v ensures Expanded(G, marked', depth', u) {
      assert Expanded(G, marked, depth, u);
    }
    forall k | 0 <= k < i + 1 ensures Adj(G, v)[k].w in marked' && depth'[Adj(G, v)[k].w] <= depth'[v] + 1 {
      if k < i {
        assert Adj(G, v)[k].w in marked;
      }
    }
  }

  /** Once all edges of `v` are handled, `v` is expanded and the outer invariant is back. */
  lemma BfsDone<V>(G: Adjacency<V>, all: set<V>, source: V, marked: set<V>, edgeTo: map<V, V>, depth: map<V, nat>, queue: seq<V>, v: V)
    requires Scanning(G, all, source, marked, edgeTo, depth, queue, v, |Adj(G, v)|)
    ensures Waiting(G, all, source, marked, edgeTo, depth, queue)
  {
    assert Expanded(G, marked, depth, v);
  }

  // ----- the inner loop as a function of the state it changes -----

  /** What the scan of one vertex's edges changes: marks, predecessors, levels and the queue. */
  datatype Visit<V> = Visit(marked: set<V>, edgeTo: map<V, V>, depth: map<V, nat>, queue: seq<V>)

  /**
   * Handling an edge from the dequeued `v` to `w`: afterwards `w` is marked and
   * nothing else is; levels already assigned never change; the queue only grows
   * at its back, and only by `w`, one level below `v`, with `v` as predecessor.
   */
  function Handle<V>(s: Visit<V>, v: V, w: V): (r: Visit<V>)
    requires s.depth.Keys == s.marked && v in s.marked
    ensures r.marked == s.marked + {w} && r.depth.Keys == r.marked
    ensures forall x | x in s.depth :: r.depth[x] == s.depth[x]
    ensures |s.queue| <= |r.queue| <= |s.queue| + 1 && r.queue[..|s.queue|] == s.queue
    ensures |r.queue| > |s.queue| ==>
              r.queue[|s.queue|] == w && w !in s.marked && w in r.edgeTo && r.edgeTo[w] == v && r.depth[w] == s.depth[v] + 1
    ensures w in s.marked ==> r == s
  {
    if w !in s.marked then Visit(s.marked + {w}, s.edgeTo[w := v], s.depth[w := s.depth[v] + 1], s.queue + [w])
    else s
  }

  /**
   * Each `edgeTo` entry is written once, when its vertex is first marked:
   * handling an edge keeps every earlier entry, writes only for a newly
   * marked vertex, and changes nothing when `w` is already marked.
   */
  lemma HandleKeepsEdgeTo<V>(s: Visit<V>, v: V, w: V)
    requires s.depth.Keys == s.marked && v in s.marked && s.edgeTo.Keys <= s.marked
    ensures Handle(s, v, w).edgeTo.Keys <= Handle(s, v, w).marked
    ensures forall x | x in s.edgeTo :: x in Handle(s, v, w).edgeTo && Handle(s, v, w).edgeTo[x] == s.edgeTo[x]
    ensures w in s.marked ==> Handle(s, v, w) == s
  {
  }

  /** Across the scan of `v`'s edges, earlier `edgeTo` entries are kept, and new ones belong to newly marked vertices with `v` as predecessor. */
  lemma {:induction false} HandleFirstKeepsEdgeTo<V>(s: Visit<V>, v: V, edges: seq<Edge<V>>, n: nat)
    requires s.depth.Keys == s.marked && v in s.marked && n <= |edges| && s.edgeTo.Keys <= s.marked
    ensures HandleFirst(s, v, edges, n).edgeTo.Keys <= HandleFirst(s, v, edges, n).marked
    ensures forall x | x in s.edgeTo :: x in HandleFirst(s, v, edges, n).edgeTo && HandleFirst(s, v, edges, n).edgeTo[x] == s.edgeTo[x]
    ensures forall x | x in HandleFirst(s, v, edges, n).edgeTo && x !in s.edgeTo ::
              x !in s.marked && HandleFirst(s, v, edges, n).edgeTo[x] == v
  {
    if n > 0 {
      var g := HandleFirst(s, v, edges, n - 1);
      HandleFirstKeepsEdgeTo(s, v, edges, n - 1);
      HandleKeepsEdgeTo(g, v, edges[n - 1].w);
    }
  }

  /** Handling the first `n` edges of `v` in order: each of their targets ends up marked, and assigned levels never change. */
  function HandleFirst<V>(s: Visit<V>, v: V, edges: seq<Edge<V>>, n: nat): (r: Visit<V>)
    requires s.depth.Keys == s.marked && v in s.marked && n <= |edges|
    ensures s.marked <= r.marked && r.depth.Keys == r.marked
    ensures forall k | 0 <= k < n :: edges[k].w in r.marked
    ensures forall x | x in s.depth :: r.depth[x] == s.depth[x]
  {
    if n == 0 then s else Handle(HandleFirst(s, v, edges, n - 1), v, edges[n - 1].w)
  }

  /** Any property that holds before the scan and survives handling edge `k` holds after the first `n` edges. */
  lemma {:induction false} HandleFirstInduction<V>(inv: (Visit<V>, nat) -> bool, s: Visit<V>, v: V, edges: seq<Edge<V>>, n: nat)
    requires s.depth.Keys == s.marked && v in s.marked && n <= |edges|
    requires inv(s, 0)
    requires forall g: Visit<V>, k: nat | k < n && g.depth.Keys == g.marked && v in g.marked && inv(g, k) :: inv(Handle(g, v, edges[k].w), k + 1)
    ensures inv(HandleFirst(s, v, edges, n), n)
  {
    if n > 0 {
      HandleFirstInduction(inv, s, v, edges, n - 1);
    }
  }

  /** Handling an edge into `all` trades an unmarked vertex of `all` for a queue entry, or changes neither. */
  lemma HandleConserves<V>(all: set<V>, s: Visit<V>, v: V, w: V)
    requires s.depth.Keys == s.marked && v in s.marked && s.marked <= all && w in all
    ensures Handle(s, v, w).marked <= all
    ensures |all - Handle(s, v, w).marked| + |Handle(s, v, w).queue| == |all - s.marked| + |s.queue|
  {
    if w !in s.marked {
      assert all - s.marked == (all - (s.marked + {w})) + {w};
    }
  }

  /** Handling edges into `all` keeps the number of unmarked vertices of `all` plus queue entries. */
  lemma {:induction false} HandleFirstConserves<V>(all: set<V>, s: Visit<V>, v: V, edges: seq<Edge<V>>, n: nat, r: Visit<V>)
    requires s.depth.Keys == s.marked && v in s.marked && n <= |edges|
    requires s.marked <= all && forall k | 0 <= k < n :: edges[k].w in all
    requires r == HandleFirst(s, v, edges, n)
    ensures r.marked <= all && |all - r.marked| + |r.queue| == |all - s.marked| + |s.queue|
  {
    if n > 0 {
      var g := HandleFirst(s, v, edges, n - 1);
      HandleFirstConserves(all, s, v, edges, n - 1, g);
      HandleConserves(all, g, v, edges[n - 1].w);
    }
  }

  /** Handling edge `i` of `v`, whether its target is new or not, moves the inner invariant on to edge `i + 1`. */
  lemma BfsHandle<V>(G: Adjacency<V>, all: set<V>, source: V, v: V, i: nat, s: Visit<V>, r: Visit<V>)
    requires EdgesInto(G, all, v) && i < |Adj(G, v)|
    requires Scanning(G, all, source, s.marked, s.edgeTo, s.depth, s.queue, v, i)
    requires r == Handle(s, v, Adj(G, v)[i].w)
    ensures Scanning(G, all, source, r.marked, r.edgeTo, r.depth, r.queue, v, i + 1)
  {
    var w := Adj(G, v)[i].w;
    if w !in s.marked {
      BfsVisit(G, all, source, s.marked, s.edgeTo, s.depth, s.queue, v, i, w);
    } else {
      BfsSkip(G, all, source, s.marked, s.edgeTo, s.depth, s.queue, v, i);
    }
  }

  /** Handling the first `n` edges of `v` keeps the inner invariant. */
  lemma BfsScan<V>(G: Adjacency<V>, all: set<V>, source: V, v: V, s: Visit<V>, n: nat, r: Visit<V>)
    requires EdgesInto(G, all, v) && n <= |Adj(G, v)|
    requires Scanning(G, all, source, s.marked, s.edgeTo, s.depth, s.queue, v, 0)
    requires r == HandleFirst(s, v, Adj(G, v), n)
    ensures Scanning(G, all, source, r.marked, r.edgeTo, r.depth, r.queue, v, n)
  {
    var inv := (g: Visit<V>, k: nat) =>
      Scanning(G, all, source, g.marked, g.edgeTo, g.depth, g.queue, v, k);
    forall g: Visit<V>, k: nat | k < n && g.depth.Keys == g.marked && v in g.marked && inv(g, k) ensures inv(Handle(g, v, Adj(G, v)[k].w), k + 1) {
      BfsHandle(G, all, source, v, k, g, Handle(g, v, Adj(G, v)[k].w));
    }
    HandleFirstInduction(inv, s, v, Adj(G, v), n);
  }

  /**
   * One round of the outer loop: dequeue the head and handle all its edges.
   * The outer invariant is kept and the unmarked vertices plus the queue shrink.
   */
  lemma BfsRound<V>(G: Adjacency<V>, all: set<V>, source: V, s: Visit<V>, r: Visit<V>)
    requires all == Labels(G) + {source} && StoredUnderKey(G)
    requires Waiting(G, all, source, s.marked, s.edgeTo, s.depth, s.queue) && s.queue != []
    requires r == HandleFirst(Visit(s.marked, s.edgeTo, s.depth, s.queue[1..]), s.queue[0], Adj(G, s.queue[0]), |Adj(G, s.queue[0])|)
    ensures Waiting(G, all, source, r.marked, r.edgeTo, r.depth, r.queue)
    ensures |all - r.marked| + |r.queue| < |all - s.marked| + |s.queue|
  {
    var v := s.queue[0];
    BfsDequeue(G, all, source, s.marked, s.edgeTo, s.depth, s.queue);
    EdgesIntoLabels(G, source, v);
    HandleFirstConserves(all, Visit(s.marked, s.edgeTo, s.depth, s.queue[1..]), v, Adj(G, v), |Adj(G, v)|, r);
    BfsScan(G, all, source, v, Visit(s.marked, s.edgeTo, s.depth, s.queue[1..]), |Adj(G, v)|, r);
    BfsDone(G, all, source, r.marked, r.edgeTo, r.depth, r.queue, v);
  }

  class BreadthFirstSearch<V(==, !new)> {
    const search: Search<V>

    constructor (graph: WeightedGraph<V>, source: V)
      requires graph.Valid()
      ensures fresh(search) && search.graph == graph && search.source == source
      ensures search.Valid()
      ensures FollowsEdges(graph.adjacencyList, search.edgeTo)
      ensures forall t :: search.HasPathTo(t) <==> Reachable(graph.adjacencyList, source, t)
      ensures forall t | t in search.marked ::
                FewestEdges(graph.adjacencyList, source, t, PathFrom(search.marked, search.edgeTo, source, search.depth, t))
    {
      search := new Search(graph, source);
      new;
      Bfs(graph, source);
    }

    /** The queue loop: mark the source, then expand dequeued vertices in adjacency order. */
    method Bfs(graph: WeightedGraph<V>, current: V)
      requires StoredUnderKey(graph.adjacencyList)
      requires search.source == current
      requires search.marked == {} && search.edgeTo == map[] && search.depth == map[]
      modifies search`marked, search`edgeTo, search`depth
      ensures search.Valid()
      ensures FollowsEdges(graph.adjacencyList, search.edgeTo)
      ensures forall t :: t in search.marked <==> Reachable(graph.adjacencyList, current, t)
      ensures forall t | t in search.marked ::
                FewestEdges(graph.adjacencyList, current, t, PathFrom(search.marked, search.edgeTo, current, search.depth, t))
    {
      ghost var G := graph.adjacencyList;
      ghost var all := Labels(G) + {current};
      search.marked := search.marked + {current};
      search.depth := search.depth[current := 0];
      var queue := [current];
      // ghost copy of the three fields and the queue, which the invariants are stated over
      ghost var s := Visit(search.marked, search.edgeTo, search.depth, queue);
      BfsStart(G, current);

      while queue != []
        invariant Visit(search.marked, search.edgeTo, search.depth, queue) == s
        invariant graph.adjacencyList == G && StoredUnderKey(G)
        invariant Waiting(G, all, current, s.marked, s.edgeTo, s.depth, s.queue)
        decreases |all - s.marked| + |s.queue|
      {
        var v := queue[0];
        queue := queue[1..];
        ghost var r := HandleFirst(Visit(s.marked, s.edgeTo, s.depth, queue), v, Adj(G, v), |Adj(G, v)|);
        queue := ScanEdges(graph, v, queue, G, Visit(s.marked, s.edgeTo, s.depth, queue));
        BfsRound(G, all, current, s, r);
        s := r;
      }
      BfsOutcome(G, s.marked, s.edgeTo, current, s.depth);
    }

    /** The inner `for` loop: handle every edge stored under the dequeued `v`, in insertion order. */
    method ScanEdges(graph: WeightedGraph<V>, v: V, queue0: seq<V>, ghost G: Adjacency<V>, ghost start: Visit<V>)
      returns (queue: seq<V>)
      requires graph.adjacencyList == G && StoredUnderKey(G)
      requires Visit(search.marked, search.edgeTo, search.depth, queue0) == start
      requires start.depth.Keys == start.marked && v in start.marked
      modifies search`marked, search`edgeTo, search`depth
      ensures Visit(search.marked, search.edgeTo, search.depth, queue) == HandleFirst(start, v, Adj(G, v), |Adj(G, v)|)
    {
      queue := queue0;
      var edges := graph.AdjacencyList(v);
      AdjLeaves(G, v);
      for i := 0 to |edges|
        invariant Visit(search.marked, search.edgeTo, search.depth, queue) == HandleFirst(start, v, edges, i)
      {
        queue := HandleEdge(v, edges[i], queue, Visit(search.marked, search.edgeTo, search.depth, queue));
      }
    }

    /**
     * The body of that loop: the other end `w` of `edge`, when not yet marked,
     * is marked, gets `v` as its predecessor and is enqueued.
     */
    method HandleEdge(v: V, edge: Edge<V>, queue0: seq<V>, ghost s: Visit<V>) returns (queue: seq<V>)
      requires edge.v == v
      requires Visit(search.marked, search.edgeTo, search.depth, queue0) == s
      requires s.depth.Keys == s.marked && v in s.marked
      modifies search`marked, search`edgeTo, search`depth
      ensures Visit(search.marked, search.edgeTo, search.depth, queue) == Handle(s, v, edge.w)
    {
      queue := queue0;
      var w := edge.Other(v);
      if w !in search.marked {
        search.marked := search.marked + {w};
        search.edgeTo := search.edgeTo[w := v];
        search.depth := search.depth[w := search.depth[v] + 1];
        queue := queue + [w];
      }
    }
  }
}
