/** The renderer's hexagon shape, reduced to its index structure: six corner offsets, kept as
    the indices 0..5 of the precomputed corner array, and the paths built through them.
    The corner values themselves (floating point) are not modelled. */
module Hexagon {
  import opened JavaInt

  /** A point of a path: the hexagon's centre (the local origin) or one of its six corners. */
  datatype PathPoint = Centre | Vertex(index: nat)

  datatype PathOp = MoveTo(p: PathPoint) | LineTo(p: PathPoint) | ClosePath

  /** `vertices[vertexIndex % 6]` with Java's remainder: any non-negative index wraps around
      the six corners; a negative one is out of bounds (None) unless it is a multiple of 6. */
  function GetVertex(vertexIndex: int32): (v: Option<PathPoint>)
    ensures v.Some? <==> vertexIndex >= 0 || vertexIndex % 6 == 0
    ensures v.Some? ==> v.value.Vertex? && v.value.index < 6 && (vertexIndex - v.value.index) % 6 == 0
    ensures 0 <= vertexIndex < 6 ==> v == Some(Vertex(vertexIndex))
  {
    var i := Rem(vertexIndex, 6);
    if i < 0 then None else Some(Vertex(i))
  }

  /** Indices i and i + 6 name the same corner. */
  lemma GetVertexPeriodic(i: int32)
    requires 0 <= i < 0x7fff_fff9
    ensures GetVertex(i + 6) == GetVertex(i)
  {
  }

  /** The wedge centre, corner a, corner b, closed; None if either index is out of bounds
      (negative and not a multiple of 6). An index names the corner it is congruent to mod 6. */
  function CreateTriangle(a: int32, b: int32): (path: Option<seq<PathOp>>)
    ensures path.Some? <==> (a >= 0 || a % 6 == 0) && (b >= 0 || b % 6 == 0)
    ensures path.Some? ==>
      |path.value| == 4 && path.value[0] == MoveTo(Centre) && path.value[3] == ClosePath &&
      path.value[1].LineTo? && path.value[1].p.Vertex? && path.value[1].p.index < 6 &&
      (a - path.value[1].p.index) % 6 == 0 &&
      path.value[2].LineTo? && path.value[2].p.Vertex? && path.value[2].p.index < 6 &&
      (b - path.value[2].p.index) % 6 == 0
    ensures 0 <= a < 6 && 0 <= b < 6 ==>
      path == Some([MoveTo(Centre), LineTo(Vertex(a)), LineTo(Vertex(b)), ClosePath])
  {
    match (GetVertex(a), GetVertex(b))
    case (Some(va), Some(vb)) => Some([MoveTo(Centre), LineTo(va), LineTo(vb), ClosePath])
    case _ => None
  }

  /** The outline: corner 0, then corners 1 to 5 in order, then closed back to corner 0. */
  method ToShape() returns (path: seq<PathOp>)
    ensures |path| == 7 && path[0] == MoveTo(Vertex(0)) && path[6] == ClosePath
    ensures forall k :: 1 <= k < 6 ==> path[k] == LineTo(Vertex(k))
  {
    path := [MoveTo(GetVertex(0).value)];
    for i := 1 to 6
      invariant |path| == i && path[0] == MoveTo(Vertex(0))
      invariant forall k :: 1 <= k < i ==> path[k] == LineTo(Vertex(k))
    {
      path := path + [LineTo(GetVertex(i).value)];
    }
    path := path + [ClosePath];
  }
}
