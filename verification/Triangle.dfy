/** Positions in the triangle lattice and the hexagon-grid position each one falls in. */
module Triangle {
  import opened JavaInt

  /** `java.awt.Point`: an integer pair, used both for lattice and for hexagon coordinates. */
  datatype Point = Point(x: int32, y: int32)

  /** Largest column whose doubling does not overflow a Java `int`. */
  const MaxUnwrappedColumn: int := 0x3fff_ffff

  /** An immutable lattice position: both fields are final, so a coordinate is a value. */
  datatype TriangleCoordinate = TriangleCoordinate(x: int32, y: int32) {

    /** The hexagon column `a = (2 * x) / 3` and row `b = y / 2 - (a & 1)`, with Java's
        truncating division and 32-bit multiplication. Odd hexagon columns sit half a
        hexagon higher, hence the one-row correction. */
    function HexagonCoordinate(): (p: Point)
      ensures 0 <= x <= MaxUnwrappedColumn ==> 0 <= p.x <= x
      ensures p.x % 2 == 0 ==> p.y == Div(y, 2)
      ensures p.x % 2 != 0 ==> p.y == Div(y, 2) - 1
    {
      var a := Div(Wrap32(2 * x), 3);
      Point(a, Div(y, 2) - LowBit(a))
    }
  }

  /** Columns 3k, 3k+1 and 3k+2 of the lattice fall in hexagon columns 2k, 2k and 2k+1. */
  lemma HexagonColumnOfLatticeColumn(k: int, y: int32)
    requires 0 <= k && 3 * k + 2 <= MaxUnwrappedColumn
    ensures TriangleCoordinate(3 * k, y).HexagonCoordinate().x == 2 * k
    ensures TriangleCoordinate(3 * k + 1, y).HexagonCoordinate().x == 2 * k
    ensures TriangleCoordinate(3 * k + 2, y).HexagonCoordinate().x == 2 * k + 1
  {
  }

  /** The hexagon column never decreases as the lattice column grows (while 2 * x fits). */
  lemma HexagonColumnMonotone(c: TriangleCoordinate, d: TriangleCoordinate)
    requires 0 <= c.x <= d.x <= MaxUnwrappedColumn
    ensures c.HexagonCoordinate().x <= d.HexagonCoordinate().x
  {
  }

  /** The mapping is many-to-one: lattice columns 0 and 1 share a hexagon coordinate. */
  lemma ColumnsZeroAndOneShareHexagon(y: int32)
    ensures TriangleCoordinate(0, y).HexagonCoordinate() == TriangleCoordinate(1, y).HexagonCoordinate()
  {
  }

  /** Worked instances: the centre (1, 1) is hexagon (0, 0), while the centre (2, 0) on the
      top lattice row maps to row -1, above the tile array. */
  lemma HexagonCoordinateExamples()
    ensures TriangleCoordinate(1, 1).HexagonCoordinate() == Point(0, 0)
    ensures TriangleCoordinate(2, 0).HexagonCoordinate() == Point(1, -1)
  {
  }

  /** Java's division truncates: column -1 gives hexagon column 0, not the floor -1, and row
      -1 gives 0 - 0 rather than -1. */
  lemma HexagonCoordinateTruncatesNegatives()
    ensures TriangleCoordinate(-1, -1).HexagonCoordinate() == Point(0, 0)
  {
  }

  /** From column 2^30 on, `2 * x` wraps to a negative `int` and so does the hexagon column. */
  lemma HexagonColumnWrapsAt2To30()
    ensures TriangleCoordinate(0x4000_0000, 0).HexagonCoordinate().x == -715827882
  {
  }
}
