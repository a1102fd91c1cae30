/**
 * Model of src/DijkstraSearch.java: label-setting Dijkstra with the next vertex
 * chosen by a linear scan of the unsettled set. The Java subclass becomes a
 * class holding its `Search` next to its own `unsettledNodes` and `distances`
 * fields; the traversal still runs inside the constructor.
 *
 * Weights and distances are natural numbers, so the non-negative weights the
 * algorithm needs are guaranteed by their type. A missing distance (the Java
 * `Double.MAX_VALUE`) is the `Infinite` distance.
 */
module Dijkstra {
  import opened Wrappers
  import opened Edges
  import opened Graphs
  import opened Searching

  datatype Distance = Finite(n: nat) | Infinite

  /** The strict comparison `a < b`; `Infinite` is above every finite distance and not below itself. */
  predicate Below(a: Distance, b: Distance)
    ensures b.Infinite? ==> (Below(a, b) <==> a.Finite?)
    ensures a.Infinite? ==> !Below(a, b)
  {
    a.Finite? && (b.Infinite? || a.n < b.n)
  }

  /** Distance plus an edge weight; infinity absorbs the weight, and adding a non-negative weight never goes below. */
  function Plus(d: Distance, weight: nat): (r: Distance)
    ensures d.Finite? ==> r == Finite(d.n + weight)
    ensures !Below(r, d)
    ensures Below(d, r) <==> d.Finite? && weight > 0
  {
    if d.Finite? then Finite(d.n + weight) else Infinite
  }

  /** `getShortestDistance`: the recorded distance, or infinity when none is recorded. */
  function ShortestDistance<V>(distances: map<V, nat>, destination: V): (r: Distance)
    ensures destination in distances ==> r == Finite(distances[destination])
    ensures destination !in distances ==> forall n: nat :: Below(Finite(n), r)
  {
    if destination in distances then Finite(distances[destination]) else Infinite
  }

  /** `Below` is a strict total order. */
  lemma BelowIsStrictTotalOrder(a: Distance, b: Distance, c: Distance)
    ensures !Below(a, a)
    ensures Below(a, b) ==> !Below(b, a)
    ensures Below(a, b) && Below(b, c) ==> Below(a, c)
    ensures a == b || Below(a, b) || Below(b, a)
  {
  }

  // ----- one relaxation step, and all of them for one settled vertex -----

  /** The state the relaxation of edges changes: predecessors, distances and the unsettled set. */
  datatype Frontier<V> = Frontier(edgeTo: map<V, V>, distances: map<V, nat>, unsettled: set<V>)

  /** Relaxing the edge `e` out of `c`: `c`'s own distance does not move. */
  function Relax<V>(f: Frontier<V>, c: V, e: Edge<V>): (r: Frontier<V>)
    requires c in f.distances
    ensures c in r.distances && r.distances[c] == f.distances[c]
  {
    if Below(Finite(f.distances[c] + e.weight), ShortestDistance(f.distances, e.w)) then
      Frontier(f.edgeTo[e.w := c], f.distances[e.w := f.distances[c] + e.weight], f.unsettled + {e.w})
    else
      f
  }

  /** Relaxing the first `n` edges of `c` in order; `c`'s own distance does not move. */
  function RelaxFirst<V>(f: Frontier<V>, c: V, edges: seq<Edge<V>>, n: nat): (r: Frontier<V>)
    requires c in f.distances && n <= |edges|
    ensures c in r.distances && r.distances[c] == f.distances[c]
  {
    if n == 0 then f else Relax(RelaxFirst(f, c, edges, n - 1), c, edges[n - 1])
  }

  /**
   * Relaxing the edge `e` out of `c`: the target gets a distance when it had
   * none, never a larger one, and at most `c`'s distance plus the weight; no
   * other distance grows, and no vertex loses its distance.
   */
  lemma RelaxBounds<V>(f: Frontier<V>, c: V, e: Edge<V>)
    requires c in f.distances
    ensures Relax(f, c, e).distances.Keys == f.distances.Keys + {e.w}
    ensures Relax(f, c, e).distances[e.w] <= f.distances[c] + e.weight
    ensures forall v | v in f.distances :: Relax(f, c, e).distances[v] <= f.distances[v]
  {
  }

  /** After relaxing the first `n` edges of `c`, each of them is relaxed, and no distance has grown or been lost. */
  lemma {:induction false} RelaxFirstBounds<V>(f: Frontier<V>, c: V, edges: seq<Edge<V>>, n: nat)
    requires c in f.distances && n <= |edges|
    ensures f.distances.Keys <= RelaxFirst(f, c, edges, n).distances.Keys
    ensures forall v | v in f.distances :: RelaxFirst(f, c, edges, n).distances[v] <= f.distances[v]
    ensures forall k | 0 <= k < n ::
              && edges[k].w in RelaxFirst(f, c, edges, n).distances
              && RelaxFirst(f, c, edges, n).distances[edges[k].w] <= f.distances[c] + edges[k].weight
  {
    if n > 0 {
      RelaxFirstBounds(f, c, edges, n - 1);
      RelaxBounds(RelaxFirst(f, c, edges, n - 1), c, edges[n - 1]);
    }
  }

  /**
   * Induction over the relaxation of the first `n` edges: a property of the
   * frontier that every relaxation step keeps holds after all `n` of them.
   */
  lemma {:induction false} RelaxFirstInduction<V>(inv: (Frontier<V>, nat) -> bool, f: Frontier<V>, c: V, edges: seq<Edge<V>>, n: nat)
    requires c in f.distances && n <= |edges|
    requires inv(f, 0)
    requires forall g: Frontier<V>, k: nat | k < n && c in g.distances && inv(g, k) :: inv(Relax(g, c, edges[k]), k + 1)
    ensures inv(RelaxFirst(f, c, edges, n), n)
  {
    if n > 0 {
      RelaxFirstInduction(inv, f, c, edges, n - 1);
    }
  }

  // ----- specification of the result -----

  /** Every predecessor entry is tight: `t` is reached from `edgeTo[t]` by a stored edge whose weight closes the gap. */
  ghost predicate Tight<V>(G: Adjacency<V>, edgeTo: map<V, V>, distances: map<V, nat>) {
    forall t | t in edgeTo ::
      && t in distances && edgeTo[t] in distances
      && exists e :: e in Adj(G, edgeTo[t]) && e.v == edgeTo[t] && e.w == t && distances[t] == distances[edgeTo[t]] + e.weight
  }

  /** No edge out of `u` can improve a distance: each one leads to a vertex at most `distances[u] + weight` away. */
  ghost predicate Relaxed<V>(G: Adjacency<V>, distances: map<V, nat>, u: V) {
    && u in distances
    && forall i | 0 <= i < |Adj(G, u)| ::
         Adj(G, u)[i].w in distances && distances[Adj(G, u)[i].w] <= distances[u] + Adj(G, u)[i].weight
  }

  /** `path` is the vertex sequence of a walk from `source` to `t` of weight `d`, and no walk weighs less. */
  ghost predicate LeastWeight<V(!new)>(G: Adjacency<V>, source: V, t: V, path: seq<V>, d: nat) {
    && (exists p :: IsPath(G, p, source, t) && Trace(source, p) == path && PathWeight(p) == d)
    && (forall p :: IsPath(G, p, source, t) ==> d <= PathWeight(p))
  }

  /** When every vertex with a distance is relaxed, walks stay among them and distances obey the triangle inequality. */
  lemma {:induction false} ClosedUnderWalks<V>(G: Adjacency<V>, distances: map<V, nat>, u: V, p: seq<Edge<V>>, t: V)
    requires forall x | x in distances :: Relaxed(G, distances, x)
    requires u in distances && IsPath(G, p, u, t)
    ensures t in distances && distances[t] <= distances[u] + PathWeight(p)
    decreases |p|
  {
    assert Relaxed(G, distances, u);
    if p != [] {
      var e := p[0];
      var i :| 0 <= i < |Adj(G, u)| && Adj(G, u)[i] == e;
      ClosedUnderWalks(G, distances, e.w, p[1..], t);
    }
  }

  /** The predecessor chain of a marked vertex is a walk from the source whose weight is the recorded distance. */
  lemma {:induction false} ChainIsWalk<V>(G: Adjacency<V>, marked: set<V>, edgeTo: map<V, V>, source: V, depth: map<V, nat>, distances: map<V, nat>, v: V)
      returns (p: seq<Edge<V>>)
    requires Ranked(marked, edgeTo, source, depth) && Tight(G, edgeTo, distances)
    requires source in distances && distances[source] == 0 && marked <= distances.Keys
    requires v in marked
    ensures IsPath(G, p, source, v) && Trace(source, p) == PathFrom(marked, edgeTo, source, depth, v) && PathWeight(p) == distances[v]
    decreases depth[v]
  {
    if v == source {
      p := [];
    } else {
      var u := edgeTo[v];
      var q := ChainIsWalk(G, marked, edgeTo, source, depth, distances, u);
      var prefix := PathFrom(marked, edgeTo, source, depth, u);
      assert PathFrom(marked, edgeTo, source, depth, v) == prefix + [v];
      var e :| e in Adj(G, u) && e.v == u && e.w == v && distances[v] == distances[u] + e.weight;
      PathSnoc(G, q, source, u, e);
      p := q + [e];
    }
  }

  /**
   * The outcome of the traversal: once every marked vertex is relaxed and the
   * distances are exactly those of the marked vertices, the marked set is the
   * set of vertices reachable from the source and each reconstructed path has
   * the least total weight, which is the recorded distance.
   */
  lemma DijkstraOutcome<V(!new)>(G: Adjacency<V>, marked: set<V>, edgeTo: map<V, V>, source: V, depth: map<V, nat>, distances: map<V, nat>)
    requires Ranked(marked, edgeTo, source, depth) && Tight(G, edgeTo, distances)
    requires distances.Keys == marked && source in marked && distances[source] == 0
    requires forall x | x in marked :: Relaxed(G, distances, x)
    ensures forall t :: t in marked <==> Reachable(G, source, t)
    ensures forall t | t in marked :: LeastWeight(G, source, t, PathFrom(marked, edgeTo, source, depth, t), distances[t])
  {
    forall t ensures t in marked <==> Reachable(G, source, t) {
      if t in marked {
        var p := ChainIsWalk(G, marked, edgeTo, source, depth, distances, t);
      }
      if Reachable(G, source, t) {
        var p :| IsPath(G, p, source, t);
        ClosedUnderWalks(G, distances, source, p, t);
      }
    }
    forall t | t in marked ensures LeastWeight(G, source, t, PathFrom(marked, edgeTo, source, depth, t), distances[t]) {
      var p := ChainIsWalk(G, marked, edgeTo, source, depth, distances, t);
      forall p | IsPath(G, p, source, t) ensures distances[t] <= PathWeight(p) {
        ClosedUnderWalks(G, distances, source, p, t);
      }
    }
  }

  // ----- the loop invariants of `Dijkstra`, and one lemma per step of the loop -----

  /** Bookkeeping that holds throughout: where distances, predecessors and settle ranks are recorded. */
  ghost predicate Recorded<V>(G: Adjacency<V>, all: set<V>, source: V, marked: set<V>, edgeTo: map<V, V>, depth: map<V, nat>,
                              distances: map<V, nat>, unsettled: set<V>) {
    && marked + unsettled <= all
    && marked !! unsettled
    && distances.Keys == marked + unsettled
    && source in distances && distances[source] == 0
    && edgeTo.Keys == (marked + unsettled) - {source}
    && (forall t {:trigger t in edgeTo} | t in edgeTo :: edgeTo[t] in marked)
    && Tight(G, edgeTo, distances)
    && depth.Keys == marked
    && (forall t {:trigger depth[edgeTo[t]]} | t in edgeTo && t in marked :: depth[edgeTo[t]] < depth[t])
  }

  /** Invariant of the outer `while` loop. */
  ghost predicate Settling<V>(G: Adjacency<V>, all: set<V>, source: V, marked: set<V>, edgeTo: map<V, V>, depth: map<V, nat>,
                              distances: map<V, nat>, unsettled: set<V>, floor: nat) {
    && Recorded(G, all, source, marked, edgeTo, depth, distances, unsettled)
    && (source in marked || (marked == {} && unsettled == {source}))
    && (forall m {:trigger distances[m]} | m in marked :: distances[m] <= floor)
    && (forall u {:trigger distances[u]} | u in unsettled :: floor <= distances[u])
    && (forall m {:trigger Relaxed(G, distances, m)} | m in marked :: Relaxed(G, distances, m))
  }

  /** Invariant of the inner loop over the edges of the settled vertex `c`, the first `i` of them relaxed. */
  ghost predicate Relaxing<V>(G: Adjacency<V>, all: set<V>, source: V, marked: set<V>, edgeTo: map<V, V>, depth: map<V, nat>,
                              distances: map<V, nat>, unsettled: set<V>, c: V, i: nat) {
    && Recorded(G, all, source, marked, edgeTo, depth, distances, unsettled)
    && source in marked && c in marked && i <= |Adj(G, c)|
    && (forall m {:trigger distances[m]} | m in marked :: distances[m] <= distances[c])
    && (forall u {:trigger distances[u]} | u in unsettled :: distances[c] <= distances[u])
    && (forall m {:trigger Relaxed(G, distances, m)} | m in marked && m != c :: Relaxed(G, distances, m))
    && (forall k | 0 <= k < i ::
          Adj(G, c)[k].w in distances && distances[Adj(G, c)[k].w] <= distances[c] + Adj(G, c)[k].weight)
  }

  /** Before the loop: the source has distance 0 and is the only unsettled vertex. */
  lemma DijkstraStart<V>(G: Adjacency<V>, source: V, marked: set<V>, edgeTo: map<V, V>, depth: map<V, nat>,
                         distances: map<V, nat>, unsettled: set<V>)
    requires marked == {} && edgeTo == map[] && depth == map[] && distances == map[source := 0] && unsettled == {source}
    ensures Settling(G, Labels(G) + {source}, source, marked, edgeTo, depth, distances, unsettled, 0)
  {
  }

  /**
   * The rank a vertex gets when it is settled: 0 for the source, otherwise one
   * more than the rank of its (already settled) predecessor.
   */
  ghost function NextRank<V>(source: V, edgeTo: map<V, V>, depth: map<V, nat>, c: V): (r: nat)
    ensures c != source && c in edgeTo && edgeTo[c] in depth ==> depth[edgeTo[c]] < r
  {
    if c != source && c in edgeTo && edgeTo[c] in depth then depth[edgeTo[c]] + 1 else 0
  }

  /** Moving `c` from the unsettled set to the marked set, with the next rank, keeps the bookkeeping. */
  lemma RecordedSettle<V>(G: Adjacency<V>, all: set<V>, source: V, marked: set<V>, edgeTo: map<V, V>, depth: map<V, nat>,
                          distances: map<V, nat>, unsettled: set<V>, c: V)
    requires Recorded(G, all, source, marked, edgeTo, depth, distances, unsettled)
    requires c in unsettled
    ensures Recorded(G, all, source, marked + {c}, edgeTo, depth[c := NextRank(source, edgeTo, depth, c)], distances, unsettled - {c})
  {
  }

  /** Settling an unsettled vertex of least distance: it is marked with the next rank, and the marked set grows. */
  lemma DijkstraSettle<V>(G: Adjacency<V>, all: set<V>, source: V, marked: set<V>, edgeTo: map<V, V>, depth: map<V, nat>,
                          distances: map<V, nat>, unsettled: set<V>, floor: nat, c: V, marked': set<V>, depth': map<V, nat>, unsettled': set<V>)
    requires Settling(G, all, source, marked, edgeTo, depth, distances, unsettled, floor)
    requires c in unsettled && forall u | u in unsettled :: !Below(ShortestDistance(distances, u), ShortestDistance(distances, c))
    requires marked' == marked + {c} && depth' == depth[c := NextRank(source, edgeTo, depth, c)] && unsettled' == unsettled - {c}
    ensures Relaxing(G, all, source, marked', edgeTo, depth', distances, unsettled', c, 0)
    ensures |all - marked'| < |all - marked|
  {
    RecordedSettle(G, all, source, marked, edgeTo, depth, distances, unsettled, c);
    SettleShrinks(all, marked, c);
    forall u | u in unsettled' ensures distances[c] <= distances[u] {
      assert !Below(ShortestDistance(distances, u), ShortestDistance(distances, c));
    }
  }

  /** Marking one more vertex of `all` leaves fewer vertices of `all` unmarked. */
  lemma SettleShrinks<V>(all: set<V>, marked: set<V>, c: V)
    requires c in all && c !in marked
    ensures |all - (marked + {c})| < |all - marked|
  {
    var rest := all - (marked + {c});
    assert all - marked == rest + {c};
  }

  /**
   * An improving relaxation of the edge `e` out of the settled `c`: the
   * target is new to the marked set and not the source, its distance becomes
   * `nd`, its predecessor `c`, and it joins the unsettled set.
   */
  ghost predicate Improving<V>(G: Adjacency<V>, all: set<V>, source: V, marked: set<V>, edgeTo: map<V, V>, depth: map<V, nat>,
                               distances: map<V, nat>, unsettled: set<V>, c: V, e: Edge<V>, nd: nat,
                               edgeTo': map<V, V>, distances': map<V, nat>, unsettled': set<V>) {
    && Recorded(G, all, source, marked, edgeTo, depth, distances, unsettled)
    && c in marked && e in Adj(G, c) && e.v == c && e.w in all && e.w !in marked && e.w != source
    && nd == distances[c] + e.weight
    && edgeTo' == edgeTo[e.w := c] && distances' == distances[e.w := nd] && unsettled' == unsettled + {e.w}
  }

  lemma ImproveDomains<V>(G: Adjacency<V>, all: set<V>, source: V, marked: set<V>, edgeTo: map<V, V>, depth: map<V, nat>,
                           distances: map<V, nat>, unsettled: set<V>, c: V, e: Edge<V>, nd: nat,
                           edgeTo': map<V, V>, distances': map<V, nat>, unsettled': set<V>)
    requires Improving(G, all, source, marked, edgeTo, depth, distances, unsettled, c, e, nd, edgeTo', distances', unsettled')
    ensures marked + unsettled' <= all && marked !! unsettled'
    ensures distances'.Keys == marked + unsettled' && source in distances' && distances'[source] == 0
    ensures edgeTo'.Keys == (marked + unsettled') - {source}
  {
  }

  lemma ImprovePredecessors<V>(G: Adjacency<V>, all: set<V>, source: V, marked: set<V>, edgeTo: map<V, V>, depth: map<V, nat>,
                           distances: map<V, nat>, unsettled: set<V>, c: V, e: Edge<V>, nd: nat,
                           edgeTo': map<V, V>, distances': map<V, nat>, unsettled': set<V>)
    requires Improving(G, all, source, marked, edgeTo, depth, distances, unsettled, c, e, nd, edgeTo', distances', unsettled')
    ensures forall t | t in edgeTo' :: edgeTo'[t] in marked
    ensures Tight(G, edgeTo', distances')
  {
  }

  lemma ImproveRanks<V>(G: Adjacency<V>, all: set<V>, source: V, marked: set<V>, edgeTo: map<V, V>, depth: map<V, nat>,
                           distances: map<V, nat>, unsettled: set<V>, c: V, e: Edge<V>, nd: nat,
                           edgeTo': map<V, V>, distances': map<V, nat>, unsettled': set<V>)
    requires Improving(G, all, source, marked, edgeTo, depth, distances, unsettled, c, e, nd, edgeTo', distances', unsettled')
    ensures forall t | t in edgeTo' && t in marked :: depth[edgeTo'[t]] < depth[t]
  {
  }

  lemma RecordedImprove<V>(G: Adjacency<V>, all: set<V>, source: V, marked: set<V>, edgeTo: map<V, V>, depth: map<V, nat>,
                           distances: map<V, nat>, unsettled: set<V>, c: V, e: Edge<V>, nd: nat,
                           edgeTo': map<V, V>, distances': map<V, nat>, unsettled': set<V>)
    requires Improving(G, all, source, marked, edgeTo, depth, distances, unsettled, c, e, nd, edgeTo', distances', unsettled')
    ensures Recorded(G, all, source, marked, edgeTo', depth, distances', unsettled')
  {
    ImproveDomains(G, all, source, marked, edgeTo, depth, distances, unsettled, c, e, nd, edgeTo', distances', unsettled');
    ImprovePredecessors(G, all, source, marked, edgeTo, depth, distances, unsettled, c, e, nd, edgeTo', distances', unsettled');
    ImproveRanks(G, all, source, marked, edgeTo, depth, distances, unsettled, c, e, nd, edgeTo', distances', unsettled');
  }

  lemma ImproveOrder<V>(G: Adjacency<V>, all: set<V>, source: V, marked: set<V>, edgeTo: map<V, V>, depth: map<V, nat>,
                           distances: map<V, nat>, unsettled: set<V>, c: V, i: nat, nd: nat,
                           edgeTo': map<V, V>, distances': map<V, nat>, unsettled': set<V>)
    requires Relaxing(G, all, source, marked, edgeTo, depth, distances, unsettled, c, i)
    requires i < |Adj(G, c)| && Adj(G, c)[i].v == c && Adj(G, c)[i].w !in marked
    requires Below(Finite(distances[c] + Adj(G, c)[i].weight), ShortestDistance(distances, Adj(G, c)[i].w))
    requires edgeTo' == edgeTo[Adj(G, c)[i].w := c] && unsettled' == unsettled + {Adj(G, c)[i].w}
    requires nd == distances[c] + Adj(G, c)[i].weight && distances' == distances[Adj(G, c)[i].w := nd]
    ensures forall m | m in marked :: distances'[m] <= distances'[c]
    ensures forall u | u in unsettled' :: distances'[c] <= distances'[u]
  {
  }

  lemma ImproveRelaxed<V>(G: Adjacency<V>, all: set<V>, source: V, marked: set<V>, edgeTo: map<V, V>, depth: map<V, nat>,
                           distances: map<V, nat>, unsettled: set<V>, c: V, i: nat, nd: nat,
                           edgeTo': map<V, V>, distances': map<V, nat>, unsettled': set<V>)
    requires Relaxing(G, all, source, marked, edgeTo, depth, distances, unsettled, c, i)
    requires i < |Adj(G, c)| && Adj(G, c)[i].v == c && Adj(G, c)[i].w !in marked
    requires Below(Finite(distances[c] + Adj(G, c)[i].weight), ShortestDistance(distances, Adj(G, c)[i].w))
    requires edgeTo' == edgeTo[Adj(G, c)[i].w := c] && unsettled' == unsettled + {Adj(G, c)[i].w}
    requires nd == distances[c] + Adj(G, c)[i].weight && distances' == distances[Adj(G, c)[i].w := nd]
    ensures forall m | m in marked && m != c :: Relaxed(G, distances', m)
    ensures forall k | 0 <= k < i + 1 ::
          Adj(G, c)[k].w in distances' && distances'[Adj(G, c)[k].w] <= distances'[c] + Adj(G, c)[k].weight
  {
    forall m | m in marked && m != c
      ensures Relaxed(G, distances', m)
    {
      assert Relaxed(G, distances, m);
    }
  }

  /** Relaxing edge `i` of `c` with strict improvement: the target's distance, predecessor and unsettled membership change together. */
  lemma DijkstraImprove<V>(G: Adjacency<V>, all: set<V>, source: V, marked: set<V>, edgeTo: map<V, V>, depth: map<V, nat>,
                           distances: map<V, nat>, unsettled: set<V>, c: V, i: nat, e: Edge<V>, nd: nat,
                           edgeTo': map<V, V>, distances': map<V, nat>, unsettled': set<V>)
    requires e.w in all
    requires Relaxing(G, all, source, marked, edgeTo, depth, distances, unsettled, c, i)
    requires i < |Adj(G, c)| && e == Adj(G, c)[i] && e.v == c
    requires Below(Finite(distances[c] + e.weight), ShortestDistance(distances, e.w))
    requires edgeTo' == edgeTo[e.w := c] && unsettled' == unsettled + {e.w}
    requires nd == distances[c] + e.weight && distances' == distances[e.w := nd]
    ensures e.w !in marked
    ensures Relaxing(G, all, source, marked, edgeTo', depth, distances', unsettled', c, i + 1)
  {
    assert e.w !in marked;
    RecordedImprove(G, all, source, marked, edgeTo, depth, distances, unsettled, c, e, nd, edgeTo', distances', unsettled');
    ImproveOrder(G, all, source, marked, edgeTo, depth, distances, unsettled, c, i, nd, edgeTo', distances', unsettled');
    ImproveRelaxed(G, all, source, marked, edgeTo, depth, distances, unsettled, c, i, nd, edgeTo', distances', unsettled');
  }

  /** Relaxing edge `i` of `c` without improvement changes nothing. */
  lemma DijkstraKeep<V>(G: Adjacency<V>, all: set<V>, source: V, marked: set<V>, edgeTo: map<V, V>, depth: map<V, nat>,
                        distances: map<V, nat>, unsettled: set<V>, c: V, i: nat)
    requires Relaxing(G, all, source, marked, edgeTo, depth, distances, unsettled, c, i)
    requires i < |Adj(G, c)|
    requires !Below(Finite(distances[c] + Adj(G, c)[i].weight), ShortestDistance(distances, Adj(G, c)[i].w))
    ensures Relaxing(G, all, source, marked, edgeTo, depth, distances, unsettled, c, i + 1)
  {
  }

  /** Relaxing edge `i` of `c`, with or without improvement, moves the inner invariant on to edge `i + 1`. */
  lemma DijkstraRelax<V>(G: Adjacency<V>, all: set<V>, source: V, marked: set<V>, depth: map<V, nat>, f: Frontier<V>, c: V, i: nat,
                         r: Frontier<V>)
    requires EdgesInto(G, all, c) && i < |Adj(G, c)|
    requires Relaxing(G, all, source, marked, f.edgeTo, depth, f.distances, f.unsettled, c, i)
    requires r == Relax(f, c, Adj(G, c)[i])
    ensures Relaxing(G, all, source, marked, r.edgeTo, depth, r.distances, r.unsettled, c, i + 1)
  {
    var e := Adj(G, c)[i];
    if Below(Finite(f.distances[c] + e.weight), ShortestDistance(f.distances, e.w)) {
      var nd := f.distances[c] + e.weight;
      assert r == Frontier(f.edgeTo[e.w := c], f.distances[e.w := nd], f.unsettled + {e.w});
      DijkstraImprove(G, all, source, marked, f.edgeTo, depth, f.distances, f.unsettled, c, i, e, nd, r.edgeTo, r.distances, r.unsettled);
    } else {
      assert r == f;
      DijkstraKeep(G, all, source, marked, f.edgeTo, depth, f.distances, f.unsettled, c, i);
    }
  }

  /** Relaxing the first `n` edges of `c` in order keeps the inner invariant, edge by edge. */
  lemma RelaxFirstKeeps<V>(G: Adjacency<V>, all: set<V>, source: V, marked: set<V>, depth: map<V, nat>, f: Frontier<V>, c: V, n: nat,
                           r: Frontier<V>)
    requires EdgesInto(G, all, c) && n <= |Adj(G, c)|
    requires Relaxing(G, all, source, marked, f.edgeTo, depth, f.distances, f.unsettled, c, 0)
    requires r == RelaxFirst(f, c, Adj(G, c), n)
    ensures Relaxing(G, all, source, marked, r.edgeTo, depth, r.distances, r.unsettled, c, n)
  {
    var inv := (g: Frontier<V>, k: nat) => Relaxing(G, all, source, marked, g.edgeTo, depth, g.distances, g.unsettled, c, k);
    forall g: Frontier<V>, k: nat | k < n && c in g.distances && inv(g, k)
      ensures inv(Relax(g, c, Adj(G, c)[k]), k + 1)
    {
      DijkstraRelax(G, all, source, marked, depth, g, c, k, Relax(g, c, Adj(G, c)[k]));
    }
    RelaxFirstInduction(inv, f, c, Adj(G, c), n);
  }

  /** Once all edges of `c` are relaxed, `c` is relaxed and the outer invariant is back. */
  lemma DijkstraDone<V>(G: Adjacency<V>, all: set<V>, source: V, marked: set<V>, edgeTo: map<V, V>, depth: map<V, nat>,
                        distances: map<V, nat>, unsettled: set<V>, c: V)
    requires Relaxing(G, all, source, marked, edgeTo, depth, distances, unsettled, c, |Adj(G, c)|)
    ensures Settling(G, all, source, marked, edgeTo, depth, distances, unsettled, distances[c])
  {
    assert Relaxed(G, distances, c);
  }

  /**
   * What the search establishes: acyclic predecessor chains along tight edges,
   * a distance for exactly the marked vertices, the marked vertices are exactly
   * those reachable from the source, and each one's path has least weight.
   */
  ghost predicate Outcome<V(!new)>(G: Adjacency<V>, source: V, marked: set<V>, edgeTo: map<V, V>, depth: map<V, nat>, distances: map<V, nat>) {
    && Ranked(marked, edgeTo, source, depth) && Tight(G, edgeTo, distances) && distances.Keys == marked
    && (forall t :: t in marked <==> Reachable(G, source, t))
    && (forall t | t in marked :: LeastWeight(G, source, t, PathFrom(marked, edgeTo, source, depth, t), distances[t]))
  }

  /** When nothing is left unsettled, the invariant gives the outcome of the search. */
  lemma DijkstraEnd<V(!new)>(G: Adjacency<V>, all: set<V>, source: V, marked: set<V>, edgeTo: map<V, V>, depth: map<V, nat>,
                             distances: map<V, nat>, floor: nat)
    requires Settling(G, all, source, marked, edgeTo, depth, distances, {}, floor)
    ensures Outcome(G, source, marked, edgeTo, depth, distances)
  {
    DijkstraOutcome(G, marked, edgeTo, source, depth, distances);
  }

  /**
   * One round of the main loop: settling a least-distance unsettled vertex `c`
   * and relaxing all of its edges restores the outer invariant, with `c`'s
   * distance as the new floor, and marks one more vertex.
   */
  lemma DijkstraRound<V>(G: Adjacency<V>, all: set<V>, source: V, marked: set<V>, edgeTo: map<V, V>, depth: map<V, nat>,
                         distances: map<V, nat>, unsettled: set<V>, floor: nat, c: V,
                         marked': set<V>, depth': map<V, nat>, unsettled': set<V>, r: Frontier<V>)
    requires all == Labels(G) + {source} && StoredUnderKey(G)
    requires Settling(G, all, source, marked, edgeTo, depth, distances, unsettled, floor)
    requires c in unsettled && forall u | u in unsettled :: !Below(ShortestDistance(distances, u), ShortestDistance(distances, c))
    requires marked' == marked + {c} && depth' == depth[c := NextRank(source, edgeTo, depth, c)] && unsettled' == unsettled - {c}
    requires r == RelaxFirst(Frontier(edgeTo, distances, unsettled'), c, Adj(G, c), |Adj(G, c)|)
    ensures Settling(G, all, source, marked', r.edgeTo, depth', r.distances, r.unsettled, distances[c])
    ensures |all - marked'| < |all - marked|
  {
    DijkstraSettle(G, all, source, marked, edgeTo, depth, distances, unsettled, floor, c, marked', depth', unsettled');
    EdgesIntoLabels(G, source, c);
    RelaxFirstKeeps(G, all, source, marked', depth', Frontier(edgeTo, distances, unsettled'), c, |Adj(G, c)|, r);
    DijkstraDone(G, all, source, marked', r.edgeTo, depth', r.distances, r.unsettled, c);
  }

  /** Everything the main loop changes: the search's marks, predecessors and ranks, the distances and the unsettled set. */
  datatype Progress<V> = Progress(marked: set<V>, edgeTo: map<V, V>, depth: map<V, nat>, distances: map<V, nat>, unsettled: set<V>)

  class DijkstraSearch<V(==, !new)> {
    const search: Search<V>
    var unsettledNodes: set<V>
    var distances: map<V, nat>

    constructor (graph: WeightedGraph<V>, source: V)
      requires graph.Valid()
      ensures fresh(search) && search.graph == graph && search.source == source
      ensures search.Valid()
      ensures unsettledNodes == {} && distances.Keys == search.marked
      ensures Tight(graph.adjacencyList, search.edgeTo, distances)
      ensures forall t :: search.HasPathTo(t) <==> Reachable(graph.adjacencyList, source, t)
      ensures forall t | t in search.marked ::
                LeastWeight(graph.adjacencyList, source, t, PathFrom(search.marked, search.edgeTo, source, search.depth, t), distances[t])
    {
      search := new Search(graph, source);
      unsettledNodes := {};
      distances := map[];
      new;
      Dijkstra();
    }

    /** The main loop: settle a least-distance unsettled vertex, then relax its edges in adjacency order. */
    method Dijkstra()
      requires StoredUnderKey(search.graph.adjacencyList)
      requires search.marked == {} && search.edgeTo == map[] && search.depth == map[]
      requires unsettledNodes == {} && distances == map[]
      modifies this`distances, this`unsettledNodes, search`marked, search`edgeTo, search`depth
      ensures unsettledNodes == {}
      ensures Outcome(search.graph.adjacencyList, search.source, search.marked, search.edgeTo, search.depth, distances)
    {
      var source := search.source;
      ghost var G := search.graph.adjacencyList;
      ghost var all := Labels(G) + {source};
      distances := distances[source := 0];
      unsettledNodes := unsettledNodes + {source};
      // ghost copy of the fields, which the invariants are stated over
      ghost var s := Progress(search.marked, search.edgeTo, search.depth, distances, unsettledNodes);
      // every marked distance is at most `floor`, every unsettled one at least `floor`
      ghost var floor: nat := 0;
      DijkstraStart(G, source, s.marked, s.edgeTo, s.depth, s.distances, s.unsettled);

      while unsettledNodes != {}
        invariant Progress(search.marked, search.edgeTo, search.depth, distances, unsettledNodes) == s
        invariant search.graph.adjacencyList == G && StoredUnderKey(G)
        invariant Settling(G, all, source, s.marked, s.edgeTo, s.depth, s.distances, s.unsettled, floor)
        decreases |all - s.marked|
      {
        var currentNode;
        ghost var marked', depth', unsettled';
        currentNode, marked', depth', unsettled' := SettleNext(s.marked, s.edgeTo, s.depth, s.distances, s.unsettled);
        ghost var r := RelaxFirst(Frontier(s.edgeTo, s.distances, unsettled'), currentNode, Adj(G, currentNode), |Adj(G, currentNode)|);
        RelaxEdgesOf(currentNode, G, Frontier(s.edgeTo, s.distances, unsettled'));
        DijkstraRound(G, all, source, s.marked, s.edgeTo, s.depth, s.distances, s.unsettled, floor, currentNode, marked', depth', unsettled', r);
        s, floor := Progress(marked', r.edgeTo, depth', r.distances, r.unsettled), s.distances[currentNode];
      }
      DijkstraEnd(G, all, source, s.marked, s.edgeTo, s.depth, s.distances, floor);
    }

    /** The start of each pass of the main loop: pick an unsettled vertex of least distance, mark it with the next rank and remove it from the unsettled set. */
    method SettleNext(ghost marked0: set<V>, ghost edgeTo: map<V, V>, ghost depth0: map<V, nat>, ghost dist: map<V, nat>,
                      ghost unsettled0: set<V>)
        returns (currentNode: V, ghost marked: set<V>, ghost depth: map<V, nat>, ghost unsettled: set<V>)
      requires search.marked == marked0 && search.edgeTo == edgeTo && search.depth == depth0
      requires distances == dist && unsettledNodes == unsettled0 && unsettled0 != {}
      modifies this`unsettledNodes, search`marked, search`depth
      ensures currentNode in unsettled0
      ensures forall u | u in unsettled0 :: !Below(ShortestDistance(dist, u), ShortestDistance(dist, currentNode))
      ensures marked == marked0 + {currentNode} && depth == depth0[currentNode := NextRank(search.source, edgeTo, depth0, currentNode)] && unsettled == unsettled0 - {currentNode}
      ensures search.marked == marked && search.depth == depth && unsettledNodes == unsettled
    {
      var minimum := GetVertexWithMinimumWeight(unsettledNodes);
      currentNode := minimum.value;
      search.depth := search.depth[currentNode := NextRank(search.source, search.edgeTo, search.depth, currentNode)];
      search.marked := search.marked + {currentNode};
      unsettledNodes := unsettledNodes - {currentNode};
      marked, depth, unsettled := search.marked, search.depth, unsettledNodes;
    }

    /** The `for` loop of the main loop: relax every edge stored under the just-settled `currentNode`, in order. */
    method RelaxEdgesOf(currentNode: V, ghost G: Adjacency<V>, ghost start: Frontier<V>)
      requires search.graph.adjacencyList == G && StoredUnderKey(G)
      requires Frontier(search.edgeTo, distances, unsettledNodes) == start && currentNode in start.distances
      modifies this`distances, this`unsettledNodes, search`edgeTo
      ensures Frontier(search.edgeTo, distances, unsettledNodes) == RelaxFirst(start, currentNode, Adj(G, currentNode), |Adj(G, currentNode)|)
    {
      var edges := search.graph.AdjacencyList(currentNode);
      AdjLeaves(G, currentNode);
      for i := 0 to |edges|
        invariant Frontier(search.edgeTo, distances, unsettledNodes) == RelaxFirst(start, currentNode, edges, i)
      {
        RelaxEdge(currentNode, edges[i], Frontier(search.edgeTo, distances, unsettledNodes));
      }
    }

    /**
     * The body of that loop: the distance through `currentNode` to the other end of `edge`
     * replaces the recorded one when it is strictly smaller, and then the
     * predecessor is `currentNode` and the target is unsettled again.
     */
    method RelaxEdge(currentNode: V, edge: Edge<V>, ghost f: Frontier<V>)
      requires edge.v == currentNode && currentNode in f.distances
      requires Frontier(search.edgeTo, distances, unsettledNodes) == f
      modifies this`distances, this`unsettledNodes, search`edgeTo
      ensures Frontier(search.edgeTo, distances, unsettledNodes) == Relax(f, currentNode, edge)
    {
      var target := edge.Other(currentNode);
      var newDistance := Plus(ShortestDistance(distances, currentNode), edge.Weight());
      if Below(newDistance, ShortestDistance(distances, target)) {
        distances := distances[target := newDistance.n];
        search.edgeTo := search.edgeTo[target := currentNode];
        unsettledNodes := unsettledNodes + {target};
      }
    }

    /**
     * The linear scan for the vertex of least distance. The order in which
     * the set is visited is left open, as the Java `HashSet` order is; a later
     * vertex replaces the current minimum only on strict improvement.
     */
    method GetVertexWithMinimumWeight(vertices: set<V>) returns (minimum: Option<V>)
      ensures minimum.None? <==> vertices == {}
      ensures minimum.Some? ==> minimum.value in vertices
      ensures minimum.Some? ==> forall u | u in vertices ::
                !Below(ShortestDistance(distances, u), ShortestDistance(distances, minimum.value))
    {
      minimum := None;
      var rest := vertices;
      while rest != {}
        invariant rest <= vertices
        invariant minimum.None? <==> rest == vertices
        invariant minimum.Some? ==> minimum.value in vertices
        invariant minimum.Some? ==> forall u | u in vertices - rest ::
                    !Below(ShortestDistance(distances, u), ShortestDistance(distances, minimum.value))
        decreases rest
      {
        var vertex :| vertex in rest;
        if minimum.None? || Below(ShortestDistance(distances, vertex), ShortestDistance(distances, minimum.value)) {
          minimum := Some(vertex);
        }
        rest := rest - {vertex};
      }
    }
  }
}
