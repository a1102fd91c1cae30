/**
 * Model of src/Vertex.java: a vertex holding a label and a private adjacency
 * object that maps destination vertices to edge weights with put (overwrite)
 * semantics. Keys are vertex objects compared by identity, as in the Java code,
 * which does not override `equals`.
 */
module Vertices {

  class Vertex<V> {
    /** The label held by the vertex. */
    const data: V
    /** The inner adjacency object; the Java field is never reassigned. */
    const adjacencyList: AdjacencyList<V>

    constructor (data: V)
      ensures this.data == data
      ensures fresh(adjacencyList)
      ensures GetAdjacentVertices() == map[]
    {
      this.data := data;
      adjacencyList := new AdjacencyList();
    }

    function GetData(): (r: V) {
      data
    }

    /** Records (or overwrites) the weight of the edge to `destination`. */
    method AddAdjacentVertex(destination: Vertex<V>, weight: nat)
      modifies adjacencyList
      ensures GetAdjacentVertices().Keys == old(GetAdjacentVertices()).Keys + {destination}
      ensures GetAdjacentVertices()[destination] == weight
      ensures forall d :: d in old(GetAdjacentVertices()) && d != destination ==>
                d in GetAdjacentVertices() && GetAdjacentVertices()[d] == old(GetAdjacentVertices())[d]
    {
      adjacencyList.Add(destination, weight);
    }

    function GetAdjacentVertices(): (r: map<Vertex<V>, nat>)
      reads adjacencyList
    {
      adjacencyList.GetAdjacentVertices()
    }
  }

  /** The Java inner class `Vertex.AdjacencyList`. */
  class AdjacencyList<V> {
    var adjacentVertices: map<Vertex<V>, nat>

    constructor ()
      ensures adjacentVertices == map[]
    {
      adjacentVertices := map[];
    }

    /** `Map.put`: the destination now maps to `weight`; every other entry is kept. */
    method Add(destination: Vertex<V>, weight: nat)
      modifies this
      ensures adjacentVertices == old(adjacentVertices)[destination := weight]
      ensures |adjacentVertices| == |old(adjacentVertices)| + (if destination in old(adjacentVertices) then 0 else 1)
    {
      adjacentVertices := adjacentVertices[destination := weight];
    }

    function GetAdjacentVertices(): (r: map<Vertex<V>, nat>)
      reads this
    {
      adjacentVertices
    }
  }
}
