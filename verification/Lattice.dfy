/** The triangle lattice the composite grid is laid over. Only its interface is known here,
    so each of its operations is a function value supplied from outside and left
    uninterpreted; nothing about their results is assumed. */
module Lattice {
  import opened JavaInt
  import opened Triangle

  /** Identities of the lattice's edge and vertex objects, which the core only passes on. */
  type EdgeId = nat
  type VertexId = nat

  /** A lattice node: three edge slots (an empty slot is a lattice border) and one vertex. */
  datatype TriangleGridNode = TriangleGridNode(
    edge0: Option<EdgeId>, edge1: Option<EdgeId>, edge2: Option<EdgeId>, vertex: VertexId)
  {
    /** `edges[i]` */
    function Edge(i: int): Option<EdgeId>
      requires 0 <= i < 3
    {
      if i == 0 then edge0 else if i == 1 then edge1 else edge2
    }
  }

  /** The lattice as the core sees it: its size, its node lookup (None for a missing node)
      and the two coordinate functions that are static members of the lattice class. */
  datatype TriangleGrid = TriangleGrid(
    width: int32,
    height: int32,
    getNode: (int32, int32) -> Option<TriangleGridNode>,
    vertexCoordinateAtEndOfEdge: (int32, int32, int32) -> Point,
    oppositeCoordinatesOfEdge: (int32, int32, int32) -> (Point, Point))
}
