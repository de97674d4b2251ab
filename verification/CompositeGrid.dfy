/** A hexagonal tiling laid over a triangle lattice: the tile array, the rule that picks out
    the lattice nodes at hexagon centres, and the tiles on either side of a lattice edge. */
module Composite {
  import opened JavaInt
  import opened Triangle
  import opened Lattice

  /** A hexagon's payload; only its identity matters here. */
  class Tile {
    constructor ()
    {
    }
  }

  /** Lattice width built for `gridWidth` hexagon columns: `2 + gridWidth + (gridWidth - 1) / 2`
      in Java `int` arithmetic (so a grid of width 0 gets 2, not 1). */
  function LatticeWidth(gridWidth: int32): (w: int32)
    ensures 0 <= gridWidth <= 0x2000_0000 ==> gridWidth + 2 <= w <= 2 * gridWidth + 2
  {
    Wrap32(2 + gridWidth + Div(Wrap32(gridWidth - 1), 2))
  }

  /** Lattice height built for `gridHeight` hexagon rows: `gridHeight * 2 + 2` in Java `int`. */
  function LatticeHeight(gridHeight: int32): (h: int32)
    ensures 0 <= gridHeight < 0x3fff_ffff ==> h == 2 * (gridHeight + 1)
  {
    Wrap32(gridHeight * 2 + 2)
  }

  /** A hexagon coordinate that indexes the tile array of a `gridWidth` by `gridHeight` grid. */
  predicate InTileRange(p: Point, gridWidth: int, gridHeight: int)
  {
    0 <= p.x < gridWidth && 0 <= p.y < gridHeight
  }

  /** The tile at hexagon column p.x, row p.y of a table of tile rows, or null off the table. */
  function TileIn(tiles: seq<seq<Tile?>>, p: Point): Tile?
  {
    if 0 <= p.y < |tiles| && 0 <= p.x < |tiles[p.y]| then tiles[p.y][p.x] else null
  }

  /** The tile of the hexagon lattice node (x, y) falls in, in a table of tile rows. */
  function TileOfNode(tiles: seq<seq<Tile?>>, x: int32, y: int32): Tile?
  {
    TileIn(tiles, TriangleCoordinate(x, y).HexagonCoordinate())
  }

  /** Every cell of `a` holds a tile and no tile is in two cells. */
  ghost predicate DistinctTiles(a: array2<Tile?>)
    reads a
  {
    (forall y, x :: 0 <= y < a.Length0 && 0 <= x < a.Length1 ==> a[y, x] != null) &&
    (forall y, x, y', x' ::
       (0 <= y < a.Length0 && 0 <= x < a.Length1 && 0 <= y' < a.Length0 && 0 <= x' < a.Length1 &&
        a[y, x] == a[y', x']) ==> y == y' && x == x')
  }

  /** `rows` holds the contents of `a`, row by row. */
  ghost predicate RowsOf(a: array2<Tile?>, rows: seq<seq<Tile?>>)
    reads a
  {
    |rows| == a.Length0 &&
    (forall y :: 0 <= y < |rows| ==> |rows[y]| == a.Length1) &&
    (forall y, x :: 0 <= y < |rows| && 0 <= x < a.Length1 ==> rows[y][x] == a[y, x])
  }

  class CompositeGrid {
    /** The lattice, built from the derived dimensions. */
    const triangleGrid: TriangleGrid
    const gridWidth: int32
    const gridHeight: int32
    /** `hexagonTiles[y, x]` is the tile in hexagon row y, column x. */
    const hexagonTiles: array2<Tile?>
    /** The contents of `hexagonTiles` as rows of tiles; the grid never writes the array
        after construction, so they are fixed then. */
    ghost const tiles: seq<seq<Tile?>>

    /** The array has the grid's shape and the contents `tiles`, every cell holds a tile, and
        no tile is in two cells. */
    ghost predicate Valid()
      reads this, hexagonTiles
    {
      hexagonTiles.Length0 == gridHeight as int && hexagonTiles.Length1 == gridWidth as int &&
      DistinctTiles(hexagonTiles) && RowsOf(hexagonTiles, tiles)
    }

    /** Builds the lattice through `newTriangleGrid` (the lattice's own constructor) and one
        fresh tile per cell. Java rejects negative sizes with an exception; here they are
        excluded by the precondition. */
    constructor (gridWidth: int32, gridHeight: int32, newTriangleGrid: (int32, int32) -> TriangleGrid)
      requires 0 <= gridWidth && 0 <= gridHeight
      ensures this.gridWidth == gridWidth && this.gridHeight == gridHeight
      ensures triangleGrid == newTriangleGrid(LatticeWidth(gridWidth), LatticeHeight(gridHeight))
      ensures Valid() && fresh(hexagonTiles)
      ensures forall y, x :: 0 <= y < gridHeight && 0 <= x < gridWidth ==> fresh(hexagonTiles[y, x])
    {
      this.gridWidth := gridWidth;
      this.gridHeight := gridHeight;
      triangleGrid := newTriangleGrid(LatticeWidth(gridWidth), LatticeHeight(gridHeight));
      var cells := new Tile?[gridHeight, gridWidth];
      CreateGrid(cells, gridWidth, gridHeight);
      hexagonTiles := cells;
      tiles := seq(gridHeight, y requires 0 <= y < gridHeight reads cells =>
                 seq(gridWidth, x requires 0 <= x < gridWidth reads cells => cells[y, x]));
    }

    /** Fills the tile array row by row with fresh tiles. */
    static method CreateGrid(hexagonTiles: array2<Tile?>, gridWidth: int32, gridHeight: int32)
      requires hexagonTiles.Length0 == gridHeight as int && hexagonTiles.Length1 == gridWidth as int
      modifies hexagonTiles
      ensures DistinctTiles(hexagonTiles)
      ensures forall y, x :: 0 <= y < gridHeight && 0 <= x < gridWidth ==> fresh(hexagonTiles[y, x])
    {
      // the cell each tile was put in: a tile in two cells would need two entries
      ghost var cellOf: map<Tile, (int, int)> := map[];
      var y := 0;
      while y < gridHeight
        invariant 0 <= y <= gridHeight
        invariant forall j, i :: 0 <= j < y && 0 <= i < gridWidth ==>
          hexagonTiles[j, i] != null && fresh(hexagonTiles[j, i]) &&
          hexagonTiles[j, i] in cellOf && cellOf[hexagonTiles[j, i]] == (j, i)
      {
        var x := 0;
        while x < gridWidth
          invariant 0 <= x <= gridWidth
          invariant forall j, i :: 0 <= j < y && 0 <= i < gridWidth ==>
            hexagonTiles[j, i] != null && fresh(hexagonTiles[j, i]) &&
            hexagonTiles[j, i] in cellOf && cellOf[hexagonTiles[j, i]] == (j, i)
          invariant forall i :: 0 <= i < x ==>
            hexagonTiles[y, i] != null && fresh(hexagonTiles[y, i]) &&
            hexagonTiles[y, i] in cellOf && cellOf[hexagonTiles[y, i]] == (y, i)
        {
          var tile := new Tile();
          hexagonTiles[y, x] := tile;
          cellOf := cellOf[tile := (y, x)];
          x := x + 1;
        }
        y := y + 1;
      }
    }

    /** Whether lattice node (x, y) is the centre of a hexagon: column 1 mod 3 on odd rows,
        column 2 mod 3 on even rows, with Java's remainder (which is never positive for a
        negative operand, so no node left of column 1 is a centre). */
    static function IsHexagonCentre(x: int32, y: int32): (centre: bool)
      ensures centre ==> 1 <= x
      ensures centre ==> (x % 3 == 1 <==> y % 2 == 1)
    {
      (Rem(x, 3) == 1 && Rem(y, 2) == 1) || (Rem(x, 3) == 2 && Rem(y, 2) == 0)
    }

    /** The tile at hexagon column x, row y, or null off the grid. */
    function GetHexagonTile(x: int32, y: int32): (tile: Tile?)
      requires Valid()
      reads this, hexagonTiles
      ensures tile == null <==> !InTileRange(Point(x, y), gridWidth as int, gridHeight as int)
      ensures tile != null ==> tile == hexagonTiles[y, x]
    {
      if y < 0 || y >= gridHeight || x < 0 || x >= gridWidth then null else hexagonTiles[y, x]
    }

    /** The tile of the hexagon that lattice node (x, y) falls in: the lookup the renderer makes
        for a centre node, through the node's hexagon coordinate. */
    function TileAtNode(x: int32, y: int32): (tile: Tile?)
      requires Valid()
      reads this, hexagonTiles
      ensures var p := TriangleCoordinate(x, y).HexagonCoordinate();
        tile == null <==> !InTileRange(p, gridWidth as int, gridHeight as int)
      ensures tile == TileOfNode(tiles, x, y)
    {
      var p := TriangleCoordinate(x, y).HexagonCoordinate();
      GetHexagonTile(p.x, p.y)
    }

    /** The two tiles beside the lattice edge leaving (x, y) in direction `edgeIndex`, AS
        WRITTEN: an edge with a centre at its start or end lies inside that one hexagon, any
        other edge lies on the border between the hexagons of its two opposite nodes. Every
        lookup passes LATTICE coordinates straight to `GetHexagonTile`. */
    function GetAdjacentTilesOfEdge(x: int32, y: int32, edgeIndex: int32): (tiles: seq<Tile?>)
      requires Valid()
      reads this, hexagonTiles
      ensures |tiles| == 2
      ensures IsHexagonCentre(x, y) ==> tiles == [GetHexagonTile(x, y), GetHexagonTile(x, y)]
      ensures var end := triangleGrid.vertexCoordinateAtEndOfEdge(x, y, edgeIndex);
        !IsHexagonCentre(x, y) && IsHexagonCentre(end.x, end.y) ==>
          tiles == [GetHexagonTile(end.x, end.y), GetHexagonTile(end.x, end.y)]
      ensures var end := triangleGrid.vertexCoordinateAtEndOfEdge(x, y, edgeIndex);
        var opposite := triangleGrid.oppositeCoordinatesOfEdge(x, y, edgeIndex);
        !IsHexagonCentre(x, y) && !IsHexagonCentre(end.x, end.y) ==>
          tiles == [GetHexagonTile(opposite.0.x, opposite.0.y), GetHexagonTile(opposite.1.x, opposite.1.y)]
    {
      var end := triangleGrid.vertexCoordinateAtEndOfEdge(x, y, edgeIndex);
      if IsHexagonCentre(x, y) then
        var tile := GetHexagonTile(x, y);
        [tile, tile]
      else if IsHexagonCentre(end.x, end.y) then
        var tile := GetHexagonTile(end.x, end.y);
        [tile, tile]
      else
        var opposite := triangleGrid.oppositeCoordinatesOfEdge(x, y, edgeIndex);
        [GetHexagonTile(opposite.0.x, opposite.0.y), GetHexagonTile(opposite.1.x, opposite.1.y)]
    }

    /** The same three-way rule with every lattice node converted to its hexagon coordinate
        before the lookup, as the renderer does for faces. */
    function GetAdjacentHexagonTilesOfEdge(x: int32, y: int32, edgeIndex: int32): (tiles: seq<Tile?>)
      requires Valid()
      reads this, hexagonTiles
      ensures |tiles| == 2
      ensures IsHexagonCentre(x, y) ==> tiles == [TileAtNode(x, y), TileAtNode(x, y)]
      ensures var end := triangleGrid.vertexCoordinateAtEndOfEdge(x, y, edgeIndex);
        !IsHexagonCentre(x, y) && IsHexagonCentre(end.x, end.y) ==>
          tiles == [TileAtNode(end.x, end.y), TileAtNode(end.x, end.y)]
      ensures var end := triangleGrid.vertexCoordinateAtEndOfEdge(x, y, edgeIndex);
        var opposite := triangleGrid.oppositeCoordinatesOfEdge(x, y, edgeIndex);
        !IsHexagonCentre(x, y) && !IsHexagonCentre(end.x, end.y) ==>
          tiles == [TileAtNode(opposite.0.x, opposite.0.y), TileAtNode(opposite.1.x, opposite.1.y)]
    {
      var end := triangleGrid.vertexCoordinateAtEndOfEdge(x, y, edgeIndex);
      if IsHexagonCentre(x, y) then
        var tile := TileAtNode(x, y);
        [tile, tile]
      else if IsHexagonCentre(end.x, end.y) then
        var tile := TileAtNode(end.x, end.y);
        [tile, tile]
      else
        var opposite := triangleGrid.oppositeCoordinatesOfEdge(x, y, edgeIndex);
        [TileAtNode(opposite.0.x, opposite.0.y), TileAtNode(opposite.1.x, opposite.1.y)]
    }
  }

  /** The centre rule in ordinary (non-negative) remainders: a centre is right of column 0, on
      column 1 mod 3 of a positive odd row or column 2 mod 3 of an even row (negative even rows
      included, since -2 % 2 is 0 in Java too). */
  lemma CentreRule(x: int32, y: int32)
    ensures CompositeGrid.IsHexagonCentre(x, y) <==>
              1 <= x && ((x % 3 == 1 && 0 < y && y % 2 == 1) || (x % 3 == 2 && y % 2 == 0))
  {
    if y < 0 && y % 2 == 0 {
      assert Rem(y, 2) == 0 by { assert y == 2 * (y / 2); }
    }
  }

  /** The centre node of hexagon (a, b): even columns have centres on odd lattice rows at
      column 1 mod 3, odd columns on even rows at column 2 mod 3. */
  function CentreOf(a: int32, b: int32): TriangleCoordinate
    requires 0 <= a <= 0x2000_0000 && 0 <= b <= 0x2000_0000
  {
    if a % 2 == 0 then TriangleCoordinate(3 * (a / 2) + 1, 2 * b + 1)
    else TriangleCoordinate(3 * (a / 2) + 2, 2 * b + 2)
  }

  /** `CentreOf` inverts the hexagon-coordinate mapping: it yields a centre node, and that
      node maps back to (a, b). */
  lemma CentreOfRoundTrip(a: int32, b: int32)
    requires 0 <= a <= 0x2000_0000 && 0 <= b <= 0x2000_0000
    ensures var c := CentreOf(a, b);
      CompositeGrid.IsHexagonCentre(c.x, c.y) && c.HexagonCoordinate() == Point(a, b)
  {
    var k := a / 2;
    var c := CentreOf(a, b);
    if a % 2 == 0 {
      assert c.x == 3 * k + 1 && c.y == 2 * b + 1;
      assert Rem(c.x, 3) == 1 && Rem(c.y, 2) == 1;
      assert Wrap32(2 * c.x) == 6 * k + 2;
      assert Div(6 * k + 2, 3) == a;
      assert Div(c.y, 2) == b && LowBit(a) == 0;
    } else {
      assert c.x == 3 * k + 2 && c.y == 2 * b + 2;
      assert Rem(c.x, 3) == 2 && Rem(c.y, 2) == 0;
      assert Wrap32(2 * c.x) == 6 * k + 4;
      assert Div(6 * k + 4, 3) == a;
      assert Div(c.y, 2) == b + 1 && LowBit(a) == 1;
    }
  }

  /** The hexagon coordinate of a centre node in closed form: hexagon column 2k for lattice
      column 3k + 1 and 2k + 1 for 3k + 2; hexagon row (y - 1) / 2 rounded down, which is -1
      for a centre on lattice row 0. */
  lemma CentreHexagonCoordinate(c: TriangleCoordinate)
    requires CompositeGrid.IsHexagonCentre(c.x, c.y)
    requires 0 <= c.x <= MaxUnwrappedColumn && 0 <= c.y
    ensures c.HexagonCoordinate() == Point(2 * (c.x / 3) + c.x % 3 - 1, (c.y - 1) / 2)
  {
    var k := c.x / 3;
    var m := c.y / 2;
    var a := Div(Wrap32(2 * c.x), 3);
    assert Wrap32(2 * c.x) == 2 * c.x;
    if Rem(c.x, 3) == 1 {
      assert c.x == 3 * k + 1 && c.y == 2 * m + 1;
      assert a == 2 * k && LowBit(a) == 0;
      assert Div(c.y, 2) == m && (c.y - 1) / 2 == m;
    } else {
      assert c.x == 3 * k + 2 && c.y == 2 * m;
      assert a == 2 * k + 1 && LowBit(a) == 1;
      assert Div(c.y, 2) == m && (c.y - 1) / 2 == m - 1;
    }
  }

  /** Each hexagon has one centre: a centre node is the centre of the hexagon it maps to. */
  lemma CentreOfHexagonCoordinate(c: TriangleCoordinate)
    requires CompositeGrid.IsHexagonCentre(c.x, c.y)
    requires 0 <= c.x <= 0x2000_0000 && 1 <= c.y <= 0x2000_0000
    ensures var p := c.HexagonCoordinate(); 0 <= p.x && 0 <= p.y && CentreOf(p.x, p.y) == c
  {
    CentreHexagonCoordinate(c);
    var k := c.x / 3;
    var m := (c.y - 1) / 2;
    if c.x % 3 == 1 {
      assert c.HexagonCoordinate() == Point(2 * k, m);
      assert CentreOf(2 * k, m) == TriangleCoordinate(3 * k + 1, 2 * m + 1);
    } else {
      assert c.HexagonCoordinate() == Point(2 * k + 1, m);
      assert CentreOf(2 * k + 1, m) == TriangleCoordinate(3 * k + 2, 2 * m + 2);
    }
  }

  /** Which centre nodes have a tile: the hexagon coordinate of a centre at or right of column 0
      and at or below row 0 indexes the tile array exactly when its column is below the grid
      width and the node is on lattice rows 1 to 2 * gridHeight. Centres on row 0 (hexagon row -1)
      and on row 2 * gridHeight + 1 (hexagon row gridHeight) fall outside. */
  lemma CentreTileInRange(c: TriangleCoordinate, gridWidth: int, gridHeight: int)
    requires CompositeGrid.IsHexagonCentre(c.x, c.y)
    requires 0 <= c.x <= MaxUnwrappedColumn && 0 <= c.y
    ensures var p := c.HexagonCoordinate();
      InTileRange(p, gridWidth, gridHeight) <==> p.x < gridWidth && 1 <= c.y <= 2 * gridHeight
  {
    CentreHexagonCoordinate(c);
  }

  /** The lattice sizes leave room around every hexagon: each tile's centre and the nodes
      one column and one row either side of it lie inside the lattice. */
  lemma {:induction false} LatticeCoversEveryTile(gridWidth: int32, gridHeight: int32, a: int32, b: int32)
    requires 0 <= a < gridWidth <= 0x2000_0000 && 0 <= b < gridHeight <= 0x2000_0000
    ensures var c := CentreOf(a, b);
      1 <= c.x && c.x + 1 < LatticeWidth(gridWidth) && 1 <= c.y && c.y + 1 < LatticeHeight(gridHeight)
  {
  }

  /** ... and no more than that: the last column's centre is two columns from the right edge,
      and an odd column's last centre is two rows from the bottom edge. */
  lemma LatticeIsTight(gridWidth: int32, gridHeight: int32)
    requires 1 <= gridWidth <= 0x2000_0000 && 1 <= gridHeight <= 0x2000_0000
    ensures CentreOf(gridWidth - 1, 0).x + 2 == LatticeWidth(gridWidth)
    ensures CentreOf(1, gridHeight - 1).y + 2 == LatticeHeight(gridHeight)
  {
  }

  /** A 7 by 7 grid is laid over a 12 by 16 lattice; an empty grid over a 2 by 2 one. */
  lemma LatticeSizeExamples()
    ensures LatticeWidth(7) == 12 && LatticeHeight(7) == 16
    ensures LatticeWidth(0) == 2 && LatticeHeight(0) == 2
  {
  }

  /** No two cells share a tile, so equal non-null lookups name the same cell. */
  lemma TilesAreDistinct(g: CompositeGrid, x: int32, y: int32, x': int32, y': int32)
    requires g.Valid()
    requires g.GetHexagonTile(x, y) != null && g.GetHexagonTile(x, y) == g.GetHexagonTile(x', y')
    ensures x == x' && y == y'
  {
  }

  /** The edge rule's first two cases never disagree with the renderer: an edge the renderer
      draws as internal (a centre at either end) has a single adjacent tile. */
  lemma InternalEdgeHasOneTile(g: CompositeGrid, x: int32, y: int32, edgeIndex: int32)
    requires g.Valid()
    requires var end := g.triangleGrid.vertexCoordinateAtEndOfEdge(x, y, edgeIndex);
      CompositeGrid.IsHexagonCentre(x, y) || CompositeGrid.IsHexagonCentre(end.x, end.y)
    ensures g.GetAdjacentTilesOfEdge(x, y, edgeIndex)[0] == g.GetAdjacentTilesOfEdge(x, y, edgeIndex)[1]
    ensures g.GetAdjacentHexagonTilesOfEdge(x, y, edgeIndex)[0] == g.GetAdjacentHexagonTilesOfEdge(x, y, edgeIndex)[1]
  {
  }

  /** As written, an edge leaving a hexagon's centre never reports that hexagon's tile: the
      lattice coordinate (x, y) is looked up as if it were a hexagon coordinate, and for every
      centre the two differ (the hexagon column 2x/3 is below x). */
  lemma AsWrittenMissesCentreTile(g: CompositeGrid, a: int32, b: int32, edgeIndex: int32)
    requires g.Valid() && g.gridWidth <= 0x2000_0000 && g.gridHeight <= 0x2000_0000
    requires InTileRange(Point(a, b), g.gridWidth as int, g.gridHeight as int)
    ensures var c := CentreOf(a, b);
      g.GetAdjacentTilesOfEdge(c.x, c.y, edgeIndex)[0] != g.hexagonTiles[b, a]
  {
    var c := CentreOf(a, b);
    CentreOfRoundTrip(a, b);
    assert a < c.x;
    var t := g.GetHexagonTile(c.x, c.y);
    if t != null {
      assert t == g.hexagonTiles[c.y, c.x];
    }
  }

  /** The smallest input that shows it: in a 1 by 1 grid the edges leaving the only centre,
      node (1, 1), get no tile as written, and the only tile once converted. */
  lemma AsWrittenOneByOne(g: CompositeGrid, edgeIndex: int32)
    requires g.Valid() && g.gridWidth == 1 && g.gridHeight == 1
    ensures g.GetAdjacentTilesOfEdge(1, 1, edgeIndex) == [null, null]
    ensures g.GetAdjacentHexagonTilesOfEdge(1, 1, edgeIndex) == [g.hexagonTiles[0, 0], g.hexagonTiles[0, 0]]
    ensures g.hexagonTiles[0, 0] != null
  {
    HexagonCoordinateExamples();
  }

  /** With the conversion, every edge leaving the centre of a tile reports that tile on both
      sides, which is what the source's comments promise ("the edge start hexagon"). */
  lemma ConvertedFindsCentreTile(g: CompositeGrid, a: int32, b: int32, edgeIndex: int32)
    requires g.Valid() && g.gridWidth <= 0x2000_0000 && g.gridHeight <= 0x2000_0000
    requires InTileRange(Point(a, b), g.gridWidth as int, g.gridHeight as int)
    ensures var c := CentreOf(a, b);
      g.GetAdjacentHexagonTilesOfEdge(c.x, c.y, edgeIndex) == [g.hexagonTiles[b, a], g.hexagonTiles[b, a]]
    ensures g.hexagonTiles[b, a] != null
  {
    CentreOfRoundTrip(a, b);
    var c := CentreOf(a, b);
    assert g.TileAtNode(c.x, c.y) == g.GetHexagonTile(a, b);
  }
}
