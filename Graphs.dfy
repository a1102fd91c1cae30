/**
 * Model of src/WeightedGraph.java, plus the path vocabulary that the search
 * results are specified with. The graph's adjacency map is kept as a Dafny
 * map value from labels to insertion-ordered edge sequences.
 */
module Graphs {
  import opened Edges
  import opened Vertices

  /** The `adjacencyList` field: label to the edges stored under it, in insertion order. */
  type Adjacency<V(==)> = map<V, seq<Edge<V>>>

  /** `getOrDefault(v, emptyList)`: the edges stored under `v`, or none. */
  function Adj<V>(G: Adjacency<V>, v: V): (r: seq<Edge<V>>)
    ensures v !in G ==> r == []
  {
    if v in G then G[v] else []
  }

  /** When edges are stored under their first endpoint, every edge of `v` leaves `v`, and its other end is its target. */
  lemma AdjLeaves<V>(G: Adjacency<V>, v: V)
    requires StoredUnderKey(G)
    ensures forall i :: 0 <= i < |Adj(G, v)| ==> Adj(G, v)[i].Either() == v && Adj(G, v)[i].Other(v) == Adj(G, v)[i].w
  {
  }

  /** Every edge stored under key `k` has `k` as its first endpoint. */
  ghost predicate StoredUnderKey<V>(G: Adjacency<V>) {
    forall k, i | k in G && 0 <= i < |G[k]| :: G[k][i].v == k
  }

  /** Every label the adjacency map mentions: the keys and every edge's second endpoint. */
  function Labels<V>(G: Adjacency<V>): (r: set<V>) {
    G.Keys + set k, i | k in G && 0 <= i < |G[k]| :: G[k][i].w
  }

  lemma AdjTargetIsLabel<V>(G: Adjacency<V>, u: V, i: nat)
    requires i < |Adj(G, u)|
    ensures Adj(G, u)[i].w in Labels(G)
  {
    assert G[u][i].w in set k, j | k in G && 0 <= j < |G[k]| :: G[k][j].w;
  }

  /** Every edge stored under `c` leaves `c` and leads into `all`. */
  ghost predicate EdgesInto<V>(G: Adjacency<V>, all: set<V>, c: V) {
    forall k | 0 <= k < |Adj(G, c)| :: Adj(G, c)[k].v == c && Adj(G, c)[k].w in all
  }

  /** When edges sit under their first endpoint, the edges of any `c` lead from `c` to labels of the graph. */
  lemma EdgesIntoLabels<V>(G: Adjacency<V>, source: V, c: V)
    requires StoredUnderKey(G)
    ensures EdgesInto(G, Labels(G) + {source}, c)
  {
    forall k | 0 <= k < |Adj(G, c)| ensures Adj(G, c)[k].w in Labels(G) {
      AdjTargetIsLabel(G, c, k);
    }
  }

  /** The adjacency map after `addEdge(s, d, weight)` on a graph with the given `directed` flag. */
  function WithEdge<V>(G: Adjacency<V>, directed: bool, s: V, d: V, weight: nat): (r: Adjacency<V>)
    ensures r.Keys == G.Keys + {s} + (if directed then {} else {d})
  {
    var G1: Adjacency<V> := G[s := Adj(G, s) + [Edge(s, d, weight)]];
    if directed then G1 else G1[d := Adj(G1, d) + [Edge(d, s, weight)]]
  }

  /** `addEdge` appends `(s, d, weight)` at the end of `s`'s list, keeping the earlier entries in order. */
  lemma WithEdgeAppends<V>(G: Adjacency<V>, directed: bool, s: V, d: V, weight: nat)
    ensures directed || s != d ==> Adj(WithEdge(G, directed, s, d, weight), s) == Adj(G, s) + [Edge(s, d, weight)]
    ensures !directed && s == d ==>
              Adj(WithEdge(G, directed, s, d, weight), s) == Adj(G, s) + [Edge(s, s, weight), Edge(s, s, weight)]
  {
  }

  /** On an undirected graph the mirrored edge `(d, s, weight)` is appended to `d`'s list. */
  lemma WithEdgeMirrors<V>(G: Adjacency<V>, s: V, d: V, weight: nat)
    requires s != d
    ensures Adj(WithEdge(G, false, s, d, weight), d) == Adj(G, d) + [Edge(d, s, weight)]
    ensures Edge(s, d, weight) in Adj(WithEdge(G, false, s, d, weight), s)
    ensures Edge(d, s, weight) in Adj(WithEdge(G, false, s, d, weight), d)
  {
  }

  /** Lists under any other label are untouched. */
  lemma WithEdgeFrame<V>(G: Adjacency<V>, directed: bool, s: V, d: V, weight: nat, k: V)
    requires k != s && (directed || k != d)
    ensures Adj(WithEdge(G, directed, s, d, weight), k) == Adj(G, k)
    ensures k in WithEdge(G, directed, s, d, weight) <==> k in G
  {
  }

  /** `addEdge` preserves the invariant that edges are stored under their first endpoint. */
  lemma {:induction false} WithEdgeStoredUnderKey<V>(G: Adjacency<V>, directed: bool, s: V, d: V, weight: nat)
    requires StoredUnderKey(G)
    ensures StoredUnderKey(WithEdge(G, directed, s, d, weight))
  {
    var G1: Adjacency<V> := G[s := Adj(G, s) + [Edge(s, d, weight)]];
    assert StoredUnderKey(G1) by {
      forall k: V, i: int | k in G1 && 0 <= i < |G1[k]| ensures G1[k][i].v == k {
        if k == s && i < |Adj(G, s)| {
          assert G1[k][i] == G[s][i];
        }
      }
    }
    if !directed {
      var G2: Adjacency<V> := G1[d := Adj(G1, d) + [Edge(d, s, weight)]];
      forall k: V, i: int | k in G2 && 0 <= i < |G2[k]| ensures G2[k][i].v == k {
        if k == d && i < |Adj(G1, d)| {
          assert G2[k][i] == G1[d][i];
        }
      }
    }
  }

  /**
   * Repeating `addEdge` with identical arguments keeps both copies: parallel
   * edges are not merged. On an undirected graph the mirrored edge is kept
   * twice as well, and an undirected self-loop gains four copies under its label.
   */
  lemma WithEdgeTwiceKeepsBoth<V>(G: Adjacency<V>, directed: bool, s: V, d: V, weight: nat)
    ensures var G2 := WithEdge(WithEdge(G, directed, s, d, weight), directed, s, d, weight);
            multiset(Adj(G2, s))[Edge(s, d, weight)] == multiset(Adj(G, s))[Edge(s, d, weight)] + (if !directed && s == d then 4 else 2)
    ensures var G2 := WithEdge(WithEdge(G, directed, s, d, weight), directed, s, d, weight);
            !directed && s != d ==> multiset(Adj(G2, d))[Edge(d, s, weight)] == multiset(Adj(G, d))[Edge(d, s, weight)] + 2
  {
    var e := Edge(s, d, weight);
    var G1 := WithEdge(G, directed, s, d, weight);
    var G2 := WithEdge(G1, directed, s, d, weight);
    WithEdgeAppends(G, directed, s, d, weight);
    WithEdgeAppends(G1, directed, s, d, weight);
    if !directed && s == d {
      assert Adj(G2, s) == Adj(G, s) + [e, e] + [e, e];
    } else {
      assert Adj(G2, s) == Adj(G, s) + [e] + [e];
      if !directed {
        WithEdgeMirrors(G, s, d, weight);
        WithEdgeMirrors(G1, s, d, weight);
        assert Adj(G2, d) == Adj(G, d) + [Edge(d, s, weight)] + [Edge(d, s, weight)];
      }
    }
  }

  // ----- paths -----

  /**
   * `p` is a walk in `G` from `s` to `t`: each edge is stored under, and leaves,
   * the vertex the walk is at, and moves it to the edge's second endpoint.
   */
  ghost predicate IsPath<V>(G: Adjacency<V>, p: seq<Edge<V>>, s: V, t: V)
    decreases |p|
  {
    if p == [] then s == t
    else p[0] in Adj(G, s) && p[0].v == s && IsPath(G, p[1..], p[0].w, t)
  }

  /** Total weight of a walk. */
  function PathWeight<V>(p: seq<Edge<V>>): (r: nat) {
    if p == [] then 0 else p[0].weight + PathWeight(p[1..])
  }

  /** The vertex labels a walk from `s` visits, `s` first. */
  function Trace<V>(s: V, p: seq<Edge<V>>): (r: seq<V>)
    ensures |r| == |p| + 1 && r[0] == s
  {
    if p == [] then [s] else [s] + Trace(p[0].w, p[1..])
  }

  ghost predicate Reachable<V(!new)>(G: Adjacency<V>, s: V, t: V) {
    exists p :: IsPath(G, p, s, t)
  }

  /** Extending a walk by one edge leaving its end. */
  lemma {:induction false} PathSnoc<V>(G: Adjacency<V>, p: seq<Edge<V>>, s: V, t: V, e: Edge<V>)
    requires IsPath(G, p, s, t)
    requires e in Adj(G, t) && e.v == t
    ensures IsPath(G, p + [e], s, e.w)
    ensures PathWeight(p + [e]) == PathWeight(p) + e.weight
    ensures Trace(s, p + [e]) == Trace(s, p) + [e.w]
  {
    if p == [] {
      assert p + [e] == [e];
    } else {
      assert (p + [e])[1..] == p[1..] + [e];
      PathSnoc(G, p[1..], p[0].w, t, e);
    }
  }

  class WeightedGraph<V(==)> {
    /** Fixed at construction: whether `addEdge` also installs the mirrored edge. */
    const directed: bool
    var vertices: map<V, Vertex<V>>
    var adjacencyList: Adjacency<V>

    ghost predicate Valid()
      reads this
    {
      Indexed(adjacencyList, vertices)
    }

    constructor (directed: bool)
      ensures Valid()
      ensures this.directed == directed
      ensures vertices == map[] && adjacencyList == map[]
    {
      this.directed := directed;
      vertices := map[];
      adjacencyList := map[];
    }

    /** Returns the `Vertex` of `data`, creating and recording it when absent. */
    method GetVertex(data: V) returns (vertex: Vertex<V>)
      requires Valid()
      modifies this`vertices
      ensures Valid()
      ensures data in vertices && vertex == vertices[data] && vertex.GetData() == data
      ensures vertices.Keys == old(vertices).Keys + {data}
      ensures forall k | k in old(vertices) :: vertices[k] == old(vertices)[k]
      ensures data in old(vertices) ==> vertices == old(vertices)
      ensures data !in old(vertices) ==>
                fresh(vertex) && vertex.GetAdjacentVertices() == map[] && vertices == old(vertices)[data := vertex]
    {
      if data in vertices {
        vertex := vertices[data];
      } else {
        vertex := new Vertex(data);
        vertices := vertices[data := vertex];
      }
    }

    /** Appends `(source, dest, weight)` under `source` and, when undirected, `(dest, source, weight)` under `dest`. */
    method AddEdge(source: V, dest: V, weight: nat)
      requires Valid()
      modifies this`vertices, this`adjacencyList
      ensures Valid()
      ensures adjacencyList == WithEdge(old(adjacencyList), directed, source, dest, weight)
      ensures vertices.Keys == old(vertices).Keys + {source, dest}
      ensures forall k | k in old(vertices) :: vertices[k] == old(vertices)[k]
    {
      var sourceVertex := GetVertex(source);
      var destVertex := GetVertex(dest);
      ghost var G := adjacencyList;
      WithEdgeIndexed(G, vertices, directed, source, dest, weight);

      var edge := Edge(sourceVertex.GetData(), destVertex.GetData(), weight);
      adjacencyList := adjacencyList[source := Adj(adjacencyList, source) + [edge]];
      if !directed {
        var reverseEdge := Edge(destVertex.GetData(), sourceVertex.GetData(), weight);
        adjacencyList := adjacencyList[dest := Adj(adjacencyList, dest) + [reverseEdge]];
      }
      assert adjacencyList == WithEdge(G, directed, source, dest, weight);
    }

    /** The edges leaving `v` in insertion order; an unknown label has none. */
    function AdjacencyList(v: V): (r: seq<Edge<V>>)
      reads this
      ensures v !in adjacencyList ==> r == []
      ensures Valid() ==> forall i :: 0 <= i < |r| ==> r[i].Either() == v && r[i].Other(v) == r[i].w
    {
      Adj(adjacencyList, v)
    }
  }

  /** Edges sit under their first endpoint, and every label used by an edge has its `Vertex`. */
  ghost predicate Indexed<V>(G: Adjacency<V>, vertices: map<V, Vertex<V>>) {
    && StoredUnderKey(G)
    && Labels(G) <= vertices.Keys
    && (forall k | k in vertices :: vertices[k].data == k)
  }

  /** Once both endpoints have their `Vertex`, adding the edge keeps the graph indexed. */
  lemma WithEdgeIndexed<V>(G: Adjacency<V>, vertices: map<V, Vertex<V>>, directed: bool, s: V, d: V, weight: nat)
    requires Indexed(G, vertices) && s in vertices && d in vertices
    ensures Indexed(WithEdge(G, directed, s, d, weight), vertices)
  {
    WithEdgeStoredUnderKey(G, directed, s, d, weight);
    LabelsOfWithEdge(G, directed, s, d, weight);
  }

  /** The labels after `addEdge` are the old ones plus both endpoints. */
  lemma LabelsOfWithEdge<V>(G: Adjacency<V>, directed: bool, s: V, d: V, weight: nat)
    ensures Labels(WithEdge(G, directed, s, d, weight)) <= Labels(G) + {s, d}
  {
    var G1: Adjacency<V> := G[s := Adj(G, s) + [Edge(s, d, weight)]];
    var G2 := WithEdge(G, directed, s, d, weight);
    forall x | x in Labels(G2) ensures x in Labels(G) + {s, d} {
      if x !in G2.Keys {
        var k, i :| k in G2 && 0 <= i < |G2[k]| && G2[k][i].w == x;
        if k != s && (directed || k != d) {
          assert G2[k] == G[k];
          assert G[k][i].w in Labels(G);
        } else if k == s && i < |Adj(G, s)| && (directed || s != d) {
          assert G2[k][i] == G[s][i];
          assert G[s][i].w in Labels(G);
        } else if k == d && !directed && i < |Adj(G1, d)| {
          assert G2[k][i] == G1[d][i];
          if d == s {
            if i < |Adj(G, s)| {
              assert G[s][i].w in Labels(G);
            }
          } else {
            assert G[d][i].w in Labels(G);
          }
        }
      }
    }
  }
}
