# HexTriCompositeGrid core in Dafny

HexTriCompositeGrid lays a hexagonal tiling over a triangle lattice. This project models its
integer core:

- **The composite grid.** It has a `gridHeight` by `gridWidth` array of tiles, one fresh tile
  per cell. It sizes the triangle lattice underneath from those dimensions. It has the rule
  that picks out the lattice nodes at hexagon centres, a bounds-checked tile lookup, and the
  three-way rule that names the tiles on either side of a lattice edge.
- **The triangle coordinate.** This is the immutable `(x, y)` lattice position and its mapping
  to a hexagon column and row.
- **The renderer's traversal.** It makes three passes (faces, then edges, then vertices). Each
  pass goes over the lattice in row-major order, and each row stops at its first missing node.
  Every node goes to one of five drawing callbacks. Edges are classified as internal or
  external. The drawing origin moves column by column, shifts on odd rows, and is reset after
  every row and every pass. The hexagon's corner indexing (`getVertex` with Java's `% 6`) and
  the paths built from it are modelled by index only.

Java `int` is modelled as the subset type `int32`. Java's truncating `/` and `%`, its `a & 1`,
and the 32-bit wrap-around of `2 * x` and of the lattice-size formula are all written out
(`JavaInt`).

The drawing context `Graphics` records two things:

- its transform, counted in the renderer's three spacing units (column steps, odd-row shifts,
  row steps);
- a log of `Event`s, one per callback, holding the pass, the lattice node, the transform at the
  call, and the callback with its arguments.

`CompositeGridRenderer.DrawGrid` is proved against a reference definition of that log
(`GridTrace`). `GridTrace` is then characterised by lemmas in `Traversal`.

The triangle lattice's own code is not part of this model. Its size, its node lookup and its
two static coordinate functions are function values that the model never interprets
(`Lattice.TriangleGrid`).

Modules: `JavaInt`, `Triangle`, `Lattice`, `Composite`, `Hexagon`, `Renderer`, `Traversal`.

## Model

| member | source | states |
|---|---|---|
| JavaInt.Wrap32 | src/main/java/hextrigrid/grid/composite/CompositeGrid.java:28 | Java `int` wrap-around: the result is in range, congruent to the exact value modulo 2^32, and equal to it when it fits |
| JavaInt.Div | src/main/java/hextrigrid/grid/triangle/TriangleCoordinate.java:15-16 | Java `/` by a positive divisor rounds toward zero: `q * b` is the multiple of `b` nearest `a` on the side of zero (`0 <= q*b <= a < q*b + b` for `a >= 0`, `q*b - b < a <= q*b <= 0` for `a < 0`) |
| JavaInt.Rem | src/main/java/hextrigrid/grid/composite/CompositeGrid.java:53 | Java `%` by a positive divisor: `(a / b) * b + a % b == a` with Java's quotient, strictly inside `(-b, b)`, with the sign of `a` (the ordinary remainder for `a >= 0`) |
| JavaInt.LowBit | src/main/java/hextrigrid/grid/triangle/TriangleCoordinate.java:16 | `a & 1` is 0 or 1 and has the parity of `a`, negative `a` included |
| Triangle.TriangleCoordinate.HexagonCoordinate | src/main/java/hextrigrid/grid/triangle/TriangleCoordinate.java:14-18 | for `0 <= x <= 2^30 - 1`, the hexagon column `a` satisfies `0 <= a <= x`; the row is `y / 2` (truncated) for even `a` and `y / 2 - 1` for odd `a` |
| Triangle.HexagonColumnOfLatticeColumn | src/main/java/hextrigrid/grid/triangle/TriangleCoordinate.java:15 | lattice columns `3k`, `3k+1`, `3k+2` fall in hexagon columns `2k`, `2k`, `2k+1` |
| Triangle.HexagonColumnMonotone | src/main/java/hextrigrid/grid/triangle/TriangleCoordinate.java:15 | the hexagon column never decreases as the lattice column grows, while `2 * x` fits in an `int` |
| Triangle.ColumnsZeroAndOneShareHexagon | src/main/java/hextrigrid/grid/triangle/TriangleCoordinate.java:15-17 | the mapping is many-to-one: `(0, y)` and `(1, y)` give the same hexagon coordinate |
| Triangle.HexagonCoordinateExamples | src/main/java/hextrigrid/grid/triangle/TriangleCoordinate.java:15-16 | `(1, 1)` maps to `(0, 0)`; `(2, 0)` maps to `(1, -1)`, a negative row |
| Triangle.HexagonCoordinateTruncatesNegatives | src/main/java/hextrigrid/grid/triangle/TriangleCoordinate.java:15-16 | truncating division: `(-1, -1)` maps to `(0, 0)`, where floor division would give `(-1, -2)` |
| Triangle.HexagonColumnWrapsAt2To30 | src/main/java/hextrigrid/grid/triangle/TriangleCoordinate.java:15 | at column 2^30, `2 * x` overflows and the hexagon column is negative (-715827882) |
| Composite.LatticeWidth | src/main/java/hextrigrid/grid/composite/CompositeGrid.java:28 | for `0 <= w <= 2^29`, the lattice width lies between `w + 2` and `2w + 2` |
| Composite.LatticeHeight | src/main/java/hextrigrid/grid/composite/CompositeGrid.java:28 | for `0 <= h < 2^30 - 1`, the lattice height is `2(h + 1)` |
| Composite.LatticeSizeExamples | src/main/java/hextrigrid/grid/composite/CompositeGrid.java:28 | a 7 by 7 grid gets a 12 by 16 lattice; a 0 by 0 grid gets 2 by 2 |
| Composite.LatticeCoversEveryTile | src/main/java/hextrigrid/grid/composite/CompositeGrid.java:28 | every tile's centre, and the nodes one column and one row either side of it, lie inside the lattice |
| Composite.LatticeIsTight | src/main/java/hextrigrid/grid/composite/CompositeGrid.java:28 | the last column's centre is exactly two columns from the lattice's right edge, and the last odd-column centre is exactly two rows from its bottom edge |
| Composite.CompositeGrid.constructor | src/main/java/hextrigrid/grid/composite/CompositeGrid.java:24-31 | stores the dimensions; builds the lattice from `LatticeWidth` and `LatticeHeight`; leaves a fresh, valid array whose every cell holds a fresh tile |
| Composite.CompositeGrid.CreateGrid | src/main/java/hextrigrid/grid/composite/CompositeGrid.java:36-43 | after the nested loops, every cell holds a non-null, freshly allocated tile and no tile is in two cells |
| Composite.TilesAreDistinct | src/main/java/hextrigrid/grid/composite/CompositeGrid.java:36-43 | two lookups that return the same non-null tile name the same cell |
| Composite.CompositeGrid.IsHexagonCentre | src/main/java/hextrigrid/grid/composite/CompositeGrid.java:52-54 | a centre lies at column 1 or more, and is on column 1 mod 3 exactly when its row is odd |
| Composite.CentreRule | src/main/java/hextrigrid/grid/composite/CompositeGrid.java:52-54 | both directions of the centre rule in Euclidean remainders: `x >= 1` and either (`x % 3 == 1` on a positive odd row) or (`x % 3 == 2` on an even row, negative rows included) |
| Composite.CompositeGrid.GetHexagonTile | src/main/java/hextrigrid/grid/composite/CompositeGrid.java:63-68 | null exactly when `(x, y)` is outside `[0, gridWidth) x [0, gridHeight)`; otherwise the array's cell `[y, x]` |
| Composite.CompositeGrid.TileAtNode | src/main/java/hextrigrid/grid/composite/CompositeGridRenderer.java:112-118 | the face pass's lookup goes through the node's hexagon coordinate: null exactly when that coordinate is off the grid, and otherwise the tile recorded there |
| Composite.CompositeGrid.GetAdjacentTilesOfEdge | src/main/java/hextrigrid/grid/composite/CompositeGrid.java:87-112 | as written: always two entries. If the start is a centre, both are the lookup of the start; else if the end is a centre, both are the lookup of the end; otherwise they are the lookups of the two opposite nodes. Every lookup uses lattice coordinates |
| Composite.CompositeGrid.GetAdjacentHexagonTilesOfEdge | src/main/java/hextrigrid/grid/composite/CompositeGrid.java:87-112 | the same three-way rule, with every node converted to its hexagon coordinate before the lookup |
| Composite.InternalEdgeHasOneTile | src/main/java/hextrigrid/grid/composite/CompositeGrid.java:93-103 | an edge with a centre at either end gets the same tile on both sides, as written and converted |
| Composite.CentreOfRoundTrip | src/main/java/hextrigrid/grid/triangle/TriangleCoordinate.java:14-18 | the centre node built for hexagon `(a, b)` is a centre, and it maps back to `(a, b)` |
| Composite.CentreHexagonCoordinate | src/main/java/hextrigrid/grid/triangle/TriangleCoordinate.java:14-18 | for a centre node, the hexagon coordinate in closed form: column `2(x / 3) + x % 3 - 1`, row `(y - 1) / 2` rounded down |
| Composite.CentreOfHexagonCoordinate | src/main/java/hextrigrid/grid/triangle/TriangleCoordinate.java:14-18 | the other direction: a centre node at or below row 1 is the centre of the hexagon it maps to, so each hexagon has exactly one centre |
| Composite.CentreTileInRange | src/main/java/hextrigrid/grid/composite/CompositeGridRenderer.java:112-118 | a centre node's hexagon coordinate is on the grid exactly when its column is below the grid width and the node lies on lattice rows 1 to `2 * gridHeight` |
| Composite.AsWrittenMissesCentreTile | src/main/java/hextrigrid/grid/composite/CompositeGrid.java:93-96 | as written, an edge leaving a tile's centre never reports that tile |
| Composite.AsWrittenOneByOne | src/main/java/hextrigrid/grid/composite/CompositeGrid.java:93-96 | in a 1 by 1 grid, edges leaving the only centre `(1, 1)` get `[null, null]` as written, and the only tile twice once converted |
| Composite.ConvertedFindsCentreTile | src/main/java/hextrigrid/grid/composite/CompositeGrid.java:93-96 | converted, every edge leaving a tile's centre reports that tile on both sides |
| Hexagon.GetVertex | src/main/java/hextrigrid/grid/composite/CompositeGridRenderer.java:186-188 | `vertices[i % 6]` with Java's `%`: defined exactly for `i >= 0` or `i` a multiple of 6; the result is the corner congruent to `i` mod 6, and corner `i` itself for `0 <= i < 6` |
| Hexagon.GetVertexPeriodic | src/main/java/hextrigrid/grid/composite/CompositeGridRenderer.java:186-188 | for `i >= 0`, `i` and `i + 6` give the same corner |
| Hexagon.CreateTriangle | src/main/java/hextrigrid/grid/composite/CompositeGridRenderer.java:197-208 | a path exists exactly when each index is non-negative or a multiple of 6; it is move to the centre, line to the corner congruent to a mod 6, line to the corner congruent to b mod 6, close; for indices 0..5 exactly corners a and b |
| Hexagon.ToShape | src/main/java/hextrigrid/grid/composite/CompositeGridRenderer.java:210-221 | seven steps: move to corner 0, lines to corners 1 to 5 in order, close |
| Renderer.CompositeGridRenderer.constructor | src/main/java/hextrigrid/grid/composite/CompositeGridRenderer.java:36-45 | keeps the grid; the pointy-up wedge is centre, corner 0, corner 1, closed, and the pointy-down wedge is centre, corner 3, corner 4, closed |
| Renderer.Graphics.Translate | src/main/java/hextrigrid/grid/composite/CompositeGridRenderer.java:60 | translating adds to the transform and draws nothing |
| Renderer.Graphics.SetTransform | src/main/java/hextrigrid/grid/composite/CompositeGridRenderer.java:74 | resetting replaces the transform and draws nothing |
| Renderer.Graphics.Draw | src/main/java/hextrigrid/grid/composite/CompositeGridRenderer.java:142-150 | a callback appends one event at the current transform and leaves the transform alone |
| Renderer.CompositeGridRenderer.DrawGrid | src/main/java/hextrigrid/grid/composite/CompositeGridRenderer.java:52-81 | one call appends exactly `GridTrace` of the grid's lattice, centre rule and tiles, starting from the original transform, and ends with the original transform restored |
| Renderer.CompositeGridRenderer.DrawPass | src/main/java/hextrigrid/grid/composite/CompositeGridRenderer.java:58-76 | the row loop appends the pass's trace over all rows, and ends one row step below the original transform for each lattice row |
| Renderer.CompositeGridRenderer.DrawRow | src/main/java/hextrigrid/grid/composite/CompositeGridRenderer.java:59-75 | one row: shifted on odd rows; appends the row's trace; ends at the original transform moved down `y + 1` rows |
| Renderer.CompositeGridRenderer.DrawNodesOfRow | src/main/java/hextrigrid/grid/composite/CompositeGridRenderer.java:62-71 | the column loop appends the row's trace: the nodes from column 0 up to the first missing node or the width, each drawn at its own position; it leaves the transform one column step past the row start for every node drawn |
| Renderer.CompositeGridRenderer.DrawNode | src/main/java/hextrigrid/grid/composite/CompositeGridRenderer.java:93-110 | dispatch appends exactly the node's events for the pass and leaves the transform unchanged |
| Renderer.CompositeGridRenderer.DrawEdges | src/main/java/hextrigrid/grid/composite/CompositeGridRenderer.java:120-140 | the three-slot loop appends the node's edge events in slot order and leaves the transform unchanged |
| Renderer.CompositeGridRenderer.DrawEdge | src/main/java/hextrigrid/grid/composite/CompositeGridRenderer.java:124-138 | one slot: nothing for an empty slot; otherwise an internal or external edge event toward corner `edgeIndex` |
| Renderer.PassTraceAppend | src/main/java/hextrigrid/grid/composite/CompositeGridRenderer.java:58-76 | a pass over two runs of nodes is the first run's trace followed by the second's |
| Traversal.RowTraceIsPassTrace | src/main/java/hextrigrid/grid/composite/CompositeGridRenderer.java:62-71 | the column loop's trace is the pass over the nodes the row reaches |
| Traversal.PassFromIsPassTrace | src/main/java/hextrigrid/grid/composite/CompositeGridRenderer.java:58-76 | the row loop's trace is the pass over the nodes of all remaining rows, in order |
| Traversal.GridTraceIsThreePasses | src/main/java/hextrigrid/grid/composite/CompositeGridRenderer.java:57-80 | one call is the face pass, then the edge pass, then the vertex pass, each over the same visited nodes |
| Traversal.InVisitedRow | src/main/java/hextrigrid/grid/composite/CompositeGridRenderer.java:62-71 | a node is visited in a row exactly when it is present, inside the width, and no node between the row start and it is missing |
| Traversal.InVisitedFrom | src/main/java/hextrigrid/grid/composite/CompositeGridRenderer.java:58-71 | a node is visited from row `y0` on exactly when its row is between `y0` and the height and that row's loop reaches it |
| Traversal.VisitedIsReached | src/main/java/hextrigrid/grid/composite/CompositeGridRenderer.java:58-71 | a pass visits exactly the reached nodes (in the lattice, with no gap at or left of them in their row), each with the node the lattice returns |
| Traversal.VisitedRowConsecutive | src/main/java/hextrigrid/grid/composite/CompositeGridRenderer.java:62-71 | within a row the visited columns are consecutive from the start column |
| Traversal.VisitedFromRowMajor | src/main/java/hextrigrid/grid/composite/CompositeGridRenderer.java:58-71 | the visits from any row on are in strict row-major order |
| Traversal.VisitedRowMajor | src/main/java/hextrigrid/grid/composite/CompositeGridRenderer.java:58-71 | a pass visits nodes in strict row-major order, so no node twice |
| Traversal.NodeEventsTagged | src/main/java/hextrigrid/grid/composite/CompositeGridRenderer.java:93-110 | every callback from one node in one pass carries that pass, that node and its transform |
| Traversal.PassTraceCarriesPass | src/main/java/hextrigrid/grid/composite/CompositeGridRenderer.java:93-110 | every callback of a pass carries that pass |
| Traversal.PassTraceAtVisits | src/main/java/hextrigrid/grid/composite/CompositeGridRenderer.java:59-75 | every callback is drawn for a visited node, at that node's position: `x` column steps, one odd-row shift on odd rows, `y` row steps from the original transform |
| Traversal.PassesInOrder | src/main/java/hextrigrid/grid/composite/CompositeGridRenderer.java:57 | every face callback precedes every edge callback, and every edge callback precedes every vertex callback |
| Traversal.FacePassDrawsCentres | src/main/java/hextrigrid/grid/composite/CompositeGridRenderer.java:95-98 | the face pass draws only centres, each with the tile of its hexagon coordinate, and every visited centre is drawn |
| Traversal.Centres | src/main/java/hextrigrid/grid/composite/CompositeGridRenderer.java:95-98 | the visited centres in visiting order: exactly the visits that are centres, no more of them than visits |
| Traversal.FacePassOnePerCentre | src/main/java/hextrigrid/grid/composite/CompositeGridRenderer.java:95-98 | the face pass is one hexagon callback per visited centre, in visiting order, each at that centre's position with the tile of its hexagon coordinate, and nothing else |
| Traversal.PassTraceInRowMajorOrder | src/main/java/hextrigrid/grid/composite/CompositeGridRenderer.java:58-71 | a pass over nodes in row-major order never draws a callback for a node before one for an earlier node |
| Traversal.PassInRowMajorOrder | src/main/java/hextrigrid/grid/composite/CompositeGridRenderer.java:58-71 | within each pass, the callbacks follow their nodes in row-major order |
| Traversal.GridFacesUseGridTiles | src/main/java/hextrigrid/grid/composite/CompositeGridRenderer.java:112-118 | on the grid itself, every face callback is at a centre and carries the grid's tile lookup for that node |
| Traversal.EdgeEventShape | src/main/java/hextrigrid/grid/composite/CompositeGridRenderer.java:127-137 | slot `i` gives one callback if filled and none if empty, naming the slot's edge and corner `i`; it is internal exactly when the node or the edge's far end is a centre |
| Traversal.EdgeEventsOfNode | src/main/java/hextrigrid/grid/composite/CompositeGridRenderer.java:120-140 | a node's edge callbacks number its filled slots, and each is classified by the either-end-is-a-centre rule |
| Traversal.EdgeSlotClassified | src/main/java/hextrigrid/grid/composite/CompositeGridRenderer.java:127-137 | a filled slot is drawn internal if and only if an end is a centre, and external if and only if neither is |
| Traversal.EdgePassClassifies | src/main/java/hextrigrid/grid/composite/CompositeGridRenderer.java:120-140 | across the whole edge pass, every callback is an edge toward corner 0, 1 or 2, classified by the either-end-is-a-centre rule |
| Traversal.VertexPassOnePerNode | src/main/java/hextrigrid/grid/composite/CompositeGridRenderer.java:103-107 | the vertex pass draws one callback per visited node, in order: the centre vertex if and only if the node is a centre, the border vertex otherwise |

## Left out

- Floating-point geometry: the square root of 3, the double spacings, the corner coordinates and the shapes' values. Only their index structure is modelled: corner indices, path steps, and the transform as counts of spacing units.
- Java2D: `Graphics2D`, `AffineTransform`, `Path2D` and `Shape` become the `Graphics` log and `PathOp` sequences.
- The triangle lattice (`TriangleGrid`, `TriangleGridNode`, `Edge`, `Vertex`) is not part of this model. Its size, node lookup, end-of-edge and opposite-of-edge coordinates are function values the model does not interpret. Edges and vertices are opaque identities.
- The five drawing callbacks are abstract in the renderer. They are modelled as the event they would receive, not as what they paint.
- `src/main/java/hextrigrid/CompositeGridDemoRenderer.java` and `src/main/java/hextrigrid/CompositeGridDemo.java`: random colours, strokes and a Swing window. The demo renderer does not match the abstract callback signatures.
- `getTriangleGrid` is the field `triangleGrid` read directly.
- Composite.CompositeGrid.constructor: requires non-negative sizes. Java throws `NegativeArraySizeException` for a negative height, and for a negative width when the height is positive; that exception path is not modelled. A negative width with height 0 builds an empty grid in Java (the row loop never runs), and here it is excluded by the precondition as a model choice.
- Composite.CompositeGrid.constructor: `Tile[][]` is modelled as a rectangular `array2`. The rows are never exposed or replaced, so ragged rows cannot arise. A ghost snapshot `tiles` of the contents lets functions about the grid read no heap.
- Renderer.Graphics.Draw: the five drawing callbacks are assumed to leave the transform as they found it. They receive the drawing context and could translate it; only the reset after each row would undo that. Every position result rests on this assumption (`DrawNodesOfRow`, `PassTraceAtVisits`). The only implementation in the repository, the demo renderer, sets colours and strokes and draws, and never changes the transform.
- Renderer.CompositeGridRenderer.DrawGrid: the loop nest is split into one method per loop level (`DrawPass`, `DrawRow`, `DrawNodesOfRow`). The node is still fetched and classified before the `null` check, as in the source.
- Renderer.CompositeGridRenderer.DrawEdges: the loop body is the method `DrawEdge`. `getVertex(edgeIndex)` is evaluated on every slot, empty or not, as in the source.
- Renderer.CompositeGridRenderer.DrawPass: the grid's centre rule is passed down as a function value, `CompositeGrid.IsHexagonCentre`, which `DrawGrid` supplies. The loops are proved for any centre rule and tile lookup (`View`) and any per-node drawing (`NodeDraw`) that match the grid's own. `DrawGrid` then instantiates them.
- The offsets of the face, edge and vertex callbacks are the integer spacing counts. Rounding in the double arithmetic of `(y + 1) * rowSpacing` is not modelled.

## Findings

| source | as written | input that shows it | evidently intended | confidence | as-written member | corrected member |
|---|---|---|---|---|---|---|
| src/main/java/hextrigrid/grid/composite/CompositeGrid.java:95 | `getAdjacentTilesOfEdge` passes lattice coordinates `(x, y)` (and at lines 101 and 107-108 the end and opposite nodes) straight to `getHexagonTile`, which indexes by hexagon coordinates | a 1 by 1 grid, any edge leaving node `(1, 1)`, the only centre: the lookup of hexagon `(1, 1)` is off the grid, so the result is `[null, null]` | convert each node through `TriangleCoordinate.getHexagonCoordinate` first, as the renderer does for faces: the result is `[tile, tile]` for the one tile, and in general an edge leaving a tile's centre reports that tile | not executed | Composite.AsWrittenOneByOne | Composite.ConvertedFindsCentreTile |
