/**
 * Model of src/Search.java: the result shared by both traversals, a set of
 * marked vertices and a predecessor map `edgeTo`, with reachability and path
 * reconstruction queries.
 *
 * The Java loop in `pathTo` terminates only because following `edgeTo` from a
 * marked vertex always reaches the source. The model makes that explicit with
 * a ghost `depth` for every marked vertex that strictly drops along `edgeTo`
 * (the BFS level, or the order in which Dijkstra settled the vertices).
 */
module Searching {
  import opened Wrappers
  import opened Graphs

  /**
   * The class invariant of a finished search: the keys of `edgeTo` are exactly
   * the marked vertices other than the source, every predecessor is marked,
   * and `depth` strictly decreases along `edgeTo`, so no chain can cycle.
   */
  ghost predicate Ranked<V>(marked: set<V>, edgeTo: map<V, V>, source: V, depth: map<V, nat>) {
    && depth.Keys == marked
    && edgeTo.Keys == marked - {source}
    && forall t | t in edgeTo :: edgeTo[t] in marked && depth[edgeTo[t]] < depth[t]
  }

  /**
   * The path `pathTo(v)` reconstructs: `v`'s predecessors back to the source,
   * listed from the source.
   */
  ghost function PathFrom<V>(marked: set<V>, edgeTo: map<V, V>, source: V, depth: map<V, nat>, v: V): (path: seq<V>)
    requires Ranked(marked, edgeTo, source, depth) && v in marked
    ensures |path| > 0 && path[0] == source && path[|path| - 1] == v
    ensures forall i :: 0 <= i < |path| ==> path[i] in marked
    ensures forall i :: 0 < i < |path| ==> path[i] in edgeTo && edgeTo[path[i]] == path[i - 1]
    decreases depth[v]
  {
    if v == source then [source] else PathFrom(marked, edgeTo, source, depth, edgeTo[v]) + [v]
  }

  /** The source's own path is the one-element sequence `[source]`. */
  lemma PathFromSource<V>(marked: set<V>, edgeTo: map<V, V>, source: V, depth: map<V, nat>)
    requires Ranked(marked, edgeTo, source, depth) && source in marked
    ensures PathFrom(marked, edgeTo, source, depth, source) == [source]
  {
  }

  /** Depth strictly increases along a reconstructed path, so it never repeats a vertex. */
  lemma {:induction false} PathFromIsSimple<V>(marked: set<V>, edgeTo: map<V, V>, source: V, depth: map<V, nat>, v: V, path: seq<V>)
    requires Ranked(marked, edgeTo, source, depth) && v in marked
    requires path == PathFrom(marked, edgeTo, source, depth, v)
    ensures forall i, j :: 0 <= i < j < |path| ==> depth[path[i]] < depth[path[j]] && path[i] != path[j]
    decreases depth[v]
  {
    if v != source {
      var u := edgeTo[v];
      var prefix := PathFrom(marked, edgeTo, source, depth, u);
      PathFromIsSimple(marked, edgeTo, source, depth, u, prefix);
      assert path == prefix + [v];
      forall i, j | 0 <= i < j < |path| ensures depth[path[i]] < depth[path[j]] {
        assert path[i] == prefix[i];
        if j == |path| - 1 {
          assert depth[prefix[i]] <= depth[u] by {
            if i < |prefix| - 1 {
              assert depth[prefix[i]] < depth[prefix[|prefix| - 1]];
            }
          }
        } else {
          assert path[j] == prefix[j];
        }
      }
    }
  }

  /** `path` runs from the source to `v`, each vertex after the first recorded in `edgeTo` with its predecessor in `path`. */
  ghost predicate Chain<V>(edgeTo: map<V, V>, source: V, v: V, path: seq<V>) {
    && |path| > 0 && path[0] == source && path[|path| - 1] == v
    && forall i | 0 < i < |path| :: path[i] in edgeTo && edgeTo[path[i]] == path[i - 1]
  }

  /** Once the source is marked, a vertex is marked exactly when an `edgeTo` chain leads to it from the source. */
  lemma MarkedIffChain<V>(marked: set<V>, edgeTo: map<V, V>, source: V, depth: map<V, nat>, v: V)
    ensures Ranked(marked, edgeTo, source, depth) && source in marked ==>
              (v in marked <==> exists path :: Chain(edgeTo, source, v, path))
  {
    if Ranked(marked, edgeTo, source, depth) && source in marked {
      if v in marked {
        assert Chain(edgeTo, source, v, PathFrom(marked, edgeTo, source, depth, v));
      }
      forall path | Chain(edgeTo, source, v, path) ensures v in marked {
        if |path| > 1 {
          assert path[|path| - 1] in edgeTo;
        }
      }
    }
  }

  class Search<V(==, !new)> {
    /** The vertices the traversal reached. */
    var marked: set<V>
    /** For each reached vertex other than the source, the vertex it was reached from. */
    var edgeTo: map<V, V>
    const source: V
    const graph: WeightedGraph<V>
    /** Witness that the `edgeTo` chains are acyclic. */
    ghost var depth: map<V, nat>

    ghost predicate Valid()
      reads this
    {
      Ranked(marked, edgeTo, source, depth)
    }

    constructor (graph: WeightedGraph<V>, source: V)
      ensures this.graph == graph && this.source == source
      ensures marked == {} && edgeTo == map[] && depth == map[]
      ensures Valid()
    {
      this.graph := graph;
      this.source := source;
      marked := {};
      edgeTo := map[];
      depth := map[];
    }

    /** Once the source is marked, `v` is marked exactly when an `edgeTo` chain leads to it: what `pathTo` walks back along. */
    predicate HasPathTo(v: V)
      reads this
      ensures Valid() && source in marked ==> (HasPathTo(v) <==> exists path :: Chain(edgeTo, source, v, path))
    {
      MarkedIffChain(marked, edgeTo, source, depth, v);
      v in marked
    }

    /**
     * `None` (the Java `null`) when `v` was never marked; otherwise the
     * predecessors of `v` walked back to the source, listed from the source.
     */
    method PathTo(v: V) returns (path: Option<seq<V>>)
      requires Valid()
      ensures path.None? <==> !HasPathTo(v)
      ensures path.Some? ==> path.value == PathFrom(marked, edgeTo, source, depth, v)
    {
      if !HasPathTo(v) {
        return None;
      }
      var list: seq<V> := [];
      var i := v;
      while i != source
        invariant i in marked
        invariant PathFrom(marked, edgeTo, source, depth, v) == PathFrom(marked, edgeTo, source, depth, i) + list
        decreases depth[i]
      {
        list := [i] + list;
        i := edgeTo[i];
      }
      list := [source] + list;
      return Some(list);
    }
  }
}
