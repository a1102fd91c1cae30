/**
 * Model of src/Edge.java: an immutable weighted connection between two vertex
 * labels. The weight is a natural number; the Java `double` is not modelled.
 */
module Edges {

  /** The edge from `v` to `w` with cost `weight`; fields never change. */
  datatype Edge<V(==)> = Edge(v: V, w: V, weight: nat)
  {
    /** The first endpoint, the one given first to the constructor; with `Other` and `Weight` it rebuilds the edge. */
    function Either(): (r: V)
      ensures IsEndpoint(r) && Edge(r, Other(r), Weight()) == this
    {
      v
    }

    /** True when `x` is one of the two endpoints, i.e. `Other(x)` does not fault. */
    predicate IsEndpoint(x: V) {
      x == v || x == w
    }

    /**
     * The opposite endpoint. Asking with a label that is neither endpoint is the
     * Java "Incorrect vertex" fault and is excluded by the precondition.
     * The first endpoint wins when both are equal to `x` (a self-loop).
     */
    function Other(x: V): (r: V)
      requires IsEndpoint(x)
      ensures (x == v && r == w) || (x == w && r == v)
      ensures x == v ==> r == w
    {
      if x == v then w else v
    }

    /** The weight given to the constructor: the endpoints and this weight rebuild the edge. */
    function Weight(): (r: nat)
      ensures Edge(v, w, r) == this
    {
      weight
    }
  }

  /** A constructed edge reports the endpoints and weight it was built with. */
  lemma Constructed<V>(v: V, w: V, weight: nat)
    ensures Edge(v, w, weight).Either() == v
    ensures Edge(v, w, weight).Other(v) == w
    ensures Edge(v, w, weight).Weight() == weight
  {
  }

  /** `Other` from either endpoint lands on an endpoint, and applying it twice is the identity. */
  lemma OtherInvolutive<V>(e: Edge<V>, x: V)
    requires e.IsEndpoint(x)
    ensures e.IsEndpoint(e.Other(x))
    ensures e.Other(e.Other(x)) == x
  {
  }

  /** From the second endpoint, `Other` gives the first (on a self-loop both are the same label). */
  lemma OtherFromSecond<V>(e: Edge<V>)
    ensures e.Other(e.w) == e.Either()
  {
  }
}
