/** The grid renderer's traversal: three passes (faces, edges, vertices) over the lattice in
    row-major order, moving the drawing context's origin node by node and handing each node
    to one of five drawing callbacks. Pixels are not modelled: the drawing context records
    its transform, counted in the renderer's three spacing units, and the callbacks it
    received, with the transform each one was drawn at. */
module Renderer {
  import opened JavaInt
  import opened Triangle
  import opened Lattice
  import opened Composite
  import Hexagon

  /** The values of `drawingOperation`. */
  const Faces := 0
  const Edges := 1
  const Vertices := 2

  /** A translation: `columns` times columnSpacing to the right, `oddShifts` times
      oddRowOffset to the left, `rows` times rowSpacing down. */
  datatype Offset = Offset(columns: int, oddShifts: int, rows: int) {
    function Plus(d: Offset): Offset
    {
      Offset(columns + d.columns, oddShifts + d.oddShifts, rows + d.rows)
    }
  }

  /** The five callbacks and the arguments the core gives them; an edge's far end is the
      hexagon corner with the edge's index. */
  datatype Call =
    | DrawHexagon(tile: Tile?)
    | DrawInternalEdge(edge: EdgeId, far: Hexagon.PathPoint)
    | DrawExternalEdge(edge: EdgeId, far: Hexagon.PathPoint)
    | DrawHexagonCentreVertex(vertex: VertexId)
    | DrawExternalEdgeVertex(vertex: VertexId)

  /** One callback, with the pass and lattice node that led to it and the transform it was
      drawn at. */
  datatype Event = Event(pass: int, x: int32, y: int32, at: Offset, call: Call)

  /** The drawing context: its current transform and the callbacks drawn on it so far. */
  class Graphics {
    var transform: Offset
    var drawn: seq<Event>

    constructor (transform: Offset)
      ensures this.transform == transform && drawn == []
    {
      this.transform := transform;
      drawn := [];
    }

    method Translate(d: Offset)
      modifies this
      ensures transform == old(transform).Plus(d) && drawn == old(drawn)
    {
      transform := transform.Plus(d);
    }

    method SetTransform(t: Offset)
      modifies this
      ensures transform == t && drawn == old(drawn)
    {
      transform := t;
    }

    /** A callback drawing at the current transform. */
    method Draw(pass: int, x: int32, y: int32, call: Call)
      modifies this
      ensures transform == old(transform) && drawn == old(drawn) + [Event(pass, x, y, transform, call)]
    {
      drawn := drawn + [Event(pass, x, y, transform, call)];
    }
  }

  /** A lattice node the traversal reaches. */
  datatype Visit = Visit(x: int32, y: int32, node: TriangleGridNode)

  /** The nodes of row y from column x on, up to the first missing node or the lattice width. */
  function VisitedRow(g: TriangleGrid, y: int32, x: int32): seq<Visit>
    requires 0 <= x
    decreases g.width - x
  {
    if x >= g.width then []
    else match g.getNode(x, y)
      case None => []
      case Some(n) => [Visit(x, y, n)] + VisitedRow(g, y, x + 1)
  }

  /** A row's visits from column x: one more than from x + 1 while node x is present inside
      the width, and none once the width or a missing node is reached. */
  lemma VisitedRowStep(g: TriangleGrid, y: int32, x: int32)
    requires 0 <= x
    ensures x < g.width && g.getNode(x, y).Some? ==> |VisitedRow(g, y, x)| == 1 + |VisitedRow(g, y, x + 1)|
    ensures x >= g.width || g.getNode(x, y).None? ==> VisitedRow(g, y, x) == []
  {
  }

  /** The nodes of rows y to height - 1, row after row. */
  function VisitedFrom(g: TriangleGrid, y: int32): seq<Visit>
    requires 0 <= y
    decreases g.height - y
  {
    if y >= g.height then [] else VisitedRow(g, y, 0) + VisitedFrom(g, y + 1)
  }

  /** Every node a pass reaches, in the order it reaches them. */
  function Visited(g: TriangleGrid): seq<Visit>
  {
    VisitedFrom(g, 0)
  }

  /** Node (x, y) is reached: it is inside the lattice and no node of its row left of it,
      nor itself, is missing. */
  ghost predicate Reached(g: TriangleGrid, x: int32, y: int32)
  {
    0 <= y < g.height && 0 <= x < g.width &&
    forall i: int32 :: 0 <= i <= x ==> g.getNode(i, y).Some?
  }

  /** (y, x) comes strictly before (y', x') in row-major order. */
  predicate Precedes(y: int, x: int, y': int, x': int)
  {
    y < y' || (y == y' && x < x')
  }

  ghost predicate RowMajor(vs: seq<Visit>)
  {
    forall i, j :: 0 <= i < j < |vs| ==> Precedes(vs[i].y, vs[i].x, vs[j].y, vs[j].x)
  }

  /** What the traversal asks of the composite grid: whether a lattice node is a hexagon
      centre, and the tile of the hexagon a node falls in. The traversal is stated for any
      such pair; `GridView(grid)` is the grid's own. */
  datatype View = View(isCentre: (int32, int32) -> bool, tileAt: (int32, int32) -> Tile?)

  ghost function GridView(grid: CompositeGrid): View
  {
    View(CompositeGrid.IsHexagonCentre, (x: int32, y: int32) => TileOfNode(grid.tiles, x, y))
  }

  /** `view` looks tiles up as `grid` does. The trigger is the grid's own lookup, so a proof
      meets the hexagon-coordinate arithmetic only where the code itself evaluates it. */
  ghost predicate ViewOf(view: View, grid: CompositeGrid)
  {
    forall x, y {:trigger TileOfNode(grid.tiles, x, y)} :: view.tileAt(x, y) == TileOfNode(grid.tiles, x, y)
  }

  lemma GridViewOf(grid: CompositeGrid)
    ensures ViewOf(GridView(grid), grid)
  {
  }

  /** Where the origin is while node (x, y) is drawn, relative to the transform the traversal
      started from: x column steps, one odd-row shift on odd rows, y row steps. */
  function Position(base: Offset, x: int, y: int32): Offset
  {
    base.Plus(Offset(x, y % 2, y))
  }

  /** The edge callbacks for slots i..2 of a node: a present edge is internal when the node or
      the edge's far end is a hexagon centre, external otherwise; an empty slot draws nothing. */
  function EdgeEvents(g: TriangleGrid, view: View, x: int32, y: int32, node: TriangleGridNode, isHexagonCentre: bool,
                      at: Offset, i: int): seq<Event>
    requires 0 <= i <= 3
    decreases 3 - i
  {
    if i == 3 then []
    else EdgeEvent(g, view, x, y, node, isHexagonCentre, at, i) + EdgeEvents(g, view, x, y, node, isHexagonCentre, at, i + 1)
  }

  /** The callback for edge slot i alone. */
  function EdgeEvent(g: TriangleGrid, view: View, x: int32, y: int32, node: TriangleGridNode, isHexagonCentre: bool,
                     at: Offset, i: int): seq<Event>
    requires 0 <= i < 3
  {
    match node.Edge(i)
    case None => []
    case Some(edge) =>
      var end := g.vertexCoordinateAtEndOfEdge(x, y, i);
      if isHexagonCentre || view.isCentre(end.x, end.y)
      then [Event(Edges, x, y, at, DrawInternalEdge(edge, Hexagon.Vertex(i)))]
      else [Event(Edges, x, y, at, DrawExternalEdge(edge, Hexagon.Vertex(i)))]
  }

  /** The callbacks one node dispatches in one pass; a centre's hexagon is drawn with the tile
      of the hexagon it is the centre of. */
  function NodeEvents(g: TriangleGrid, view: View, drawingOperation: int, x: int32, y: int32,
                      node: TriangleGridNode, isHexagonCentre: bool, at: Offset): seq<Event>
  {
    if drawingOperation == Faces then
      if isHexagonCentre then [Event(Faces, x, y, at, DrawHexagon(view.tileAt(x, y)))] else []
    else if drawingOperation == Edges then
      EdgeEvents(g, view, x, y, node, isHexagonCentre, at, 0)
    else if drawingOperation == Vertices then
      if isHexagonCentre then [Event(Vertices, x, y, at, DrawHexagonCentreVertex(node.vertex))]
      else [Event(Vertices, x, y, at, DrawExternalEdgeVertex(node.vertex))]
    else []
  }

  /** The callbacks of one pass over the nodes `vs`, each drawn at its node's position. */
  function PassTrace(g: TriangleGrid, view: View, drawingOperation: int, vs: seq<Visit>, base: Offset): seq<Event>
  {
    if vs == [] then []
    else
      var v := vs[0];
      NodeEvents(g, view, drawingOperation, v.x, v.y, v.node, view.isCentre(v.x, v.y), Position(base, v.x, v.y))
      + PassTrace(g, view, drawingOperation, vs[1..], base)
  }

  /** What drawing one node adds to the log, given the pass, the node's coordinates, the node,
      whether it is a hexagon centre and the transform it is drawn at. The loops are stated for
      any such function; `Dispatch` is the renderer's own. */
  type NodeDraw = (int, int32, int32, TriangleGridNode, bool, Offset) -> seq<Event>

  function Dispatch(g: TriangleGrid, view: View): NodeDraw
  {
    (drawingOperation: int, x: int32, y: int32, node: TriangleGridNode, isHexagonCentre: bool, at: Offset) =>
      NodeEvents(g, view, drawingOperation, x, y, node, isHexagonCentre, at)
  }

  /** `draw` draws as the renderer's dispatch does. The trigger is the dispatch's own function,
      so a proof meets the per-node callbacks only where it draws a node itself. */
  ghost predicate DispatchOf(draw: NodeDraw, g: TriangleGrid, view: View)
  {
    forall drawingOperation, x, y, node, isHexagonCentre, at
      {:trigger NodeEvents(g, view, drawingOperation, x, y, node, isHexagonCentre, at)} ::
      draw(drawingOperation, x, y, node, isHexagonCentre, at)
      == NodeEvents(g, view, drawingOperation, x, y, node, isHexagonCentre, at)
  }

  lemma DispatchIsDispatchOf(g: TriangleGrid, view: View)
    ensures DispatchOf(Dispatch(g, view), g, view)
  {
  }

  /** The callbacks the column loop makes for row y from column x on: node after node up to
      the first missing node or the lattice width. */
  function RowTrace(g: TriangleGrid, view: View, draw: NodeDraw, drawingOperation: int, y: int32, x: int32,
                    base: Offset): seq<Event>
    requires 0 <= x
    decreases g.width - x
  {
    if x >= g.width then []
    else match g.getNode(x, y)
      case None => []
      case Some(node) =>
        draw(drawingOperation, x, y, node, view.isCentre(x, y), Position(base, x, y))
        + RowTrace(g, view, draw, drawingOperation, y, x + 1, base)
  }

  /** The callbacks the row loop makes from row y on. */
  function PassFrom(g: TriangleGrid, view: View, draw: NodeDraw, drawingOperation: int, y: int32,
                    base: Offset): seq<Event>
    requires 0 <= y
    decreases g.height - y
  {
    if y >= g.height then []
    else RowTrace(g, view, draw, drawingOperation, y, 0, base) + PassFrom(g, view, draw, drawingOperation, y + 1, base)
  }

  /** The passes drawingOperation..2 over the whole lattice, one after another. */
  function PassesFrom(g: TriangleGrid, view: View, draw: NodeDraw, drawingOperation: int, base: Offset): seq<Event>
    requires 0 <= drawingOperation <= 3
    decreases 3 - drawingOperation
  {
    if drawingOperation == 3 then []
    else PassFrom(g, view, draw, drawingOperation, 0, base) + PassesFrom(g, view, draw, drawingOperation + 1, base)
  }

  /** Everything one call of the traversal draws, starting from transform `base`. */
  function GridTrace(g: TriangleGrid, view: View, base: Offset): seq<Event>
  {
    PassesFrom(g, view, Dispatch(g, view), Faces, base)
  }

  class CompositeGridRenderer {
    const grid: CompositeGrid
    /** The wedges between corners 0 and 1 and between corners 3 and 4. */
    const pointyUpTriangle: seq<Hexagon.PathOp>
    const pointyDownTriangle: seq<Hexagon.PathOp>

    /** The edge length and the spacings derived from it are floating point and left out. */
    constructor (grid: CompositeGrid)
      ensures this.grid == grid
      ensures pointyUpTriangle == [Hexagon.MoveTo(Hexagon.Centre), Hexagon.LineTo(Hexagon.Vertex(0)),
                                   Hexagon.LineTo(Hexagon.Vertex(1)), Hexagon.ClosePath]
      ensures pointyDownTriangle == [Hexagon.MoveTo(Hexagon.Centre), Hexagon.LineTo(Hexagon.Vertex(3)),
                                     Hexagon.LineTo(Hexagon.Vertex(4)), Hexagon.ClosePath]
    {
      this.grid := grid;
      pointyUpTriangle := Hexagon.CreateTriangle(0, 1).value;
      pointyDownTriangle := Hexagon.CreateTriangle(3, 4).value;
    }

    /** Draws the grid: every pass, every row, every node up to the row's first gap, moving
        the origin along and restoring the original transform after each row and each pass. */
    method DrawGrid(g2d: Graphics)
      requires grid.Valid()
      modifies g2d
      ensures g2d.transform == old(g2d.transform)
      ensures g2d.drawn == old(g2d.drawn) + GridTrace(grid.triangleGrid, GridView(grid), old(g2d.transform))
    {
      var originalTransform := g2d.transform;
      ghost var view := GridView(grid);
      GridViewOf(grid);
      DispatchIsDispatchOf(grid.triangleGrid, view);
      ghost var draw :| DispatchOf(draw, grid.triangleGrid, view);
      ghost var target := g2d.drawn + PassesFrom(grid.triangleGrid, view, draw, Faces, originalTransform);
      for drawingOperation := 0 to 3
        invariant g2d.transform == originalTransform
        invariant g2d.drawn + PassesFrom(grid.triangleGrid, view, draw, drawingOperation, originalTransform) == target
      {
        ghost var before := g2d.drawn;
        DrawPass(g2d, drawingOperation, originalTransform, CompositeGrid.IsHexagonCentre, view, draw);
        Associative(before, PassFrom(grid.triangleGrid, view, draw, drawingOperation, 0, originalTransform),
                    PassesFrom(grid.triangleGrid, view, draw, drawingOperation + 1, originalTransform));
        g2d.SetTransform(originalTransform);
      }
      PassesFromOfDispatch(grid.triangleGrid, view, draw, Faces, originalTransform);
    }

    /** The row loop of `DrawGrid` for one pass. */
    method DrawPass(g2d: Graphics, drawingOperation: int, originalTransform: Offset,
                    centreTest: (int32, int32) -> bool, ghost view: View, ghost draw: NodeDraw)
      requires grid.Valid() && ViewOf(view, grid) && view.isCentre == centreTest
      requires DispatchOf(draw, grid.triangleGrid, view)
      requires g2d.transform == originalTransform
      modifies g2d
      ensures g2d.drawn == old(g2d.drawn) + PassFrom(grid.triangleGrid, view, draw, drawingOperation, 0, originalTransform)
      ensures g2d.transform == originalTransform.Plus(Offset(0, 0, if grid.triangleGrid.height > 0 then grid.triangleGrid.height else 0))
    {
      ghost var lattice := grid.triangleGrid;
      ghost var target := g2d.drawn + PassFrom(lattice, view, draw, drawingOperation, 0, originalTransform);
      var y: int32 := 0;
      while y < grid.triangleGrid.height
        invariant 0 <= y && (y <= lattice.height || y == 0)
        invariant g2d.transform == originalTransform.Plus(Offset(0, 0, y))
        invariant g2d.drawn + PassFrom(lattice, view, draw, drawingOperation, y, originalTransform) == target
      {
        ghost var before := g2d.drawn;
        DrawRow(g2d, drawingOperation, y, originalTransform, centreTest, view, draw);
        Associative(before, RowTrace(lattice, view, draw, drawingOperation, y, 0, originalTransform),
                    PassFrom(lattice, view, draw, drawingOperation, y + 1, originalTransform));
        y := y + 1;
      }
    }

    /** One round of `DrawGrid`'s row loop, for row y: shift left on an odd row, draw the row's
        nodes, then go back to the original transform moved down y + 1 rows. */
    method DrawRow(g2d: Graphics, drawingOperation: int, y: int32, originalTransform: Offset,
                   centreTest: (int32, int32) -> bool, ghost view: View, ghost draw: NodeDraw)
      requires grid.Valid() && ViewOf(view, grid) && view.isCentre == centreTest && 0 <= y
      requires DispatchOf(draw, grid.triangleGrid, view)
      requires g2d.transform == originalTransform.Plus(Offset(0, 0, y))
      modifies g2d
      ensures g2d.transform == originalTransform.Plus(Offset(0, 0, y + 1))
      ensures g2d.drawn == old(g2d.drawn) + RowTrace(grid.triangleGrid, view, draw, drawingOperation, y, 0, originalTransform)
    {
      if Rem(y, 2) == 1 {
        g2d.Translate(Offset(0, 1, 0));
      }
      DrawNodesOfRow(g2d, drawingOperation, y, originalTransform, centreTest, view, draw);
      g2d.SetTransform(originalTransform);
      g2d.Translate(Offset(0, 0, y + 1));
    }

    /** The column loop of `DrawGrid` for row y: the row's nodes from column 0 up to the first
        missing node or the lattice width, with one column step after each. */
    method DrawNodesOfRow(g2d: Graphics, drawingOperation: int, y: int32, originalTransform: Offset,
                          centreTest: (int32, int32) -> bool, ghost view: View, ghost draw: NodeDraw)
      requires grid.Valid() && ViewOf(view, grid) && view.isCentre == centreTest && 0 <= y
      requires DispatchOf(draw, grid.triangleGrid, view)
      requires g2d.transform == Position(originalTransform, 0, y)
      modifies g2d
      ensures g2d.drawn == old(g2d.drawn) + RowTrace(grid.triangleGrid, view, draw, drawingOperation, y, 0, originalTransform)
      ensures g2d.transform == Position(originalTransform, |VisitedRow(grid.triangleGrid, y, 0)|, y)
    {
      ghost var lattice := grid.triangleGrid;
      ghost var target := g2d.drawn + RowTrace(lattice, view, draw, drawingOperation, y, 0, originalTransform);
      var x: int32 := 0;
      while x < grid.triangleGrid.width
        invariant 0 <= x && (x <= lattice.width || x == 0)
        invariant g2d.transform == Position(originalTransform, x, y)
        invariant g2d.drawn + RowTrace(lattice, view, draw, drawingOperation, y, x, originalTransform) == target
        invariant |VisitedRow(lattice, y, 0)| == x + |VisitedRow(lattice, y, x)|
      {
        var node := grid.triangleGrid.getNode(x, y);
        var isHexagonCentre := centreTest(x, y);
        if node == None {
          break;
        }
        VisitedRowStep(lattice, y, x);
        ghost var before := g2d.drawn;
        DrawNode(g2d, node.value, drawingOperation, x, y, isHexagonCentre, centreTest, view, draw);
        Associative(before, draw(drawingOperation, x, y, node.value, isHexagonCentre, Position(originalTransform, x, y)),
                    RowTrace(lattice, view, draw, drawingOperation, y, x + 1, originalTransform));
        g2d.Translate(Offset(1, 0, 0));
        x := x + 1;
      }
      VisitedRowStep(lattice, y, x);
    }

    /** Dispatches one node: a hexagon for a centre in the face pass, its edges in the edge
        pass, a centre or border vertex in the vertex pass. */
    method DrawNode(g2d: Graphics, node: TriangleGridNode, drawingOperation: int, x: int32, y: int32,
                    isHexagonCentre: bool, centreTest: (int32, int32) -> bool, ghost view: View, ghost draw: NodeDraw)
      requires grid.Valid() && ViewOf(view, grid) && view.isCentre == centreTest
      requires DispatchOf(draw, grid.triangleGrid, view)
      modifies g2d
      ensures g2d.transform == old(g2d.transform)
      ensures g2d.drawn == old(g2d.drawn) + draw(drawingOperation, x, y, node, isHexagonCentre, old(g2d.transform))
    {
      ghost var events := NodeEvents(grid.triangleGrid, view, drawingOperation, x, y, node, isHexagonCentre, g2d.transform);
      if drawingOperation == Faces {
        if isHexagonCentre {
          var tile := grid.TileAtNode(x, y);
          g2d.Draw(Faces, x, y, DrawHexagon(tile));
        }
      } else if drawingOperation == Edges {
        DrawEdges(g2d, node, x, y, isHexagonCentre, centreTest, view);
      } else if drawingOperation == Vertices {
        if isHexagonCentre {
          g2d.Draw(Vertices, x, y, DrawHexagonCentreVertex(node.vertex));
        } else {
          g2d.Draw(Vertices, x, y, DrawExternalEdgeVertex(node.vertex));
        }
      }
    }

    /** Draws the node's present edges in slot order, each from the origin to the hexagon
        corner with the same index. */
    method DrawEdges(g2d: Graphics, node: TriangleGridNode, x: int32, y: int32, isHexagonCentre: bool,
                     centreTest: (int32, int32) -> bool, ghost view: View)
      requires view.isCentre == centreTest
      modifies g2d
      ensures g2d.transform == old(g2d.transform)
      ensures g2d.drawn == old(g2d.drawn) + EdgeEvents(grid.triangleGrid, view, x, y, node, isHexagonCentre,
                                                       old(g2d.transform), 0)
    {
      ghost var at := g2d.transform;
      ghost var target := g2d.drawn + EdgeEvents(grid.triangleGrid, view, x, y, node, isHexagonCentre, at, 0);
      for edgeIndex := 0 to 3
        invariant g2d.transform == at
        invariant g2d.drawn + EdgeEvents(grid.triangleGrid, view, x, y, node, isHexagonCentre, at, edgeIndex) == target
      {
        ghost var before := g2d.drawn;
        DrawEdge(g2d, node, x, y, isHexagonCentre, edgeIndex, centreTest, view);
        Associative(before, EdgeEvent(grid.triangleGrid, view, x, y, node, isHexagonCentre, at, edgeIndex),
                    EdgeEvents(grid.triangleGrid, view, x, y, node, isHexagonCentre, at, edgeIndex + 1));
      }
    }

    /** One round of `DrawEdges`' loop: the edge in slot `edgeIndex`, if there is one, internal
        when the node or the edge's far end is a hexagon centre. */
    method DrawEdge(g2d: Graphics, node: TriangleGridNode, x: int32, y: int32, isHexagonCentre: bool,
                    edgeIndex: int32, centreTest: (int32, int32) -> bool, ghost view: View)
      requires view.isCentre == centreTest && 0 <= edgeIndex < 3
      modifies g2d
      ensures g2d.transform == old(g2d.transform)
      ensures g2d.drawn == old(g2d.drawn) + EdgeEvent(grid.triangleGrid, view, x, y, node, isHexagonCentre,
                                                      old(g2d.transform), edgeIndex as int)
    {
      var vertex := Hexagon.GetVertex(edgeIndex).value;
      if node.Edge(edgeIndex as int).Some? {
        var vertexCoordinate := grid.triangleGrid.vertexCoordinateAtEndOfEdge(x, y, edgeIndex);
        var isEdgeVertexHexagonCentre := centreTest(vertexCoordinate.x, vertexCoordinate.y);
        if isHexagonCentre || isEdgeVertexHexagonCentre {
          g2d.Draw(Edges, x, y, DrawInternalEdge(node.Edge(edgeIndex as int).value, vertex));
        } else {
          g2d.Draw(Edges, x, y, DrawExternalEdge(node.Edge(edgeIndex as int).value, vertex));
        }
      }
    }
  }

  /** The traces do not depend on how the per-node callbacks are given: any `draw` that draws
      as the dispatch does yields the dispatch's traces. */
  lemma {:induction false} RowTraceOfDispatch(g: TriangleGrid, view: View, draw: NodeDraw, drawingOperation: int,
                                              y: int32, x: int32, base: Offset)
    requires DispatchOf(draw, g, view) && 0 <= x
    ensures RowTrace(g, view, draw, drawingOperation, y, x, base)
            == RowTrace(g, view, Dispatch(g, view), drawingOperation, y, x, base)
    decreases g.width - x
  {
    if x < g.width && g.getNode(x, y).Some? {
      var node := g.getNode(x, y).value;
      assert draw(drawingOperation, x, y, node, view.isCentre(x, y), Position(base, x, y))
             == NodeEvents(g, view, drawingOperation, x, y, node, view.isCentre(x, y), Position(base, x, y));
      RowTraceOfDispatch(g, view, draw, drawingOperation, y, x + 1, base);
    }
  }

  lemma {:induction false} PassFromOfDispatch(g: TriangleGrid, view: View, draw: NodeDraw, drawingOperation: int,
                                              y: int32, base: Offset)
    requires DispatchOf(draw, g, view) && 0 <= y
    ensures PassFrom(g, view, draw, drawingOperation, y, base)
            == PassFrom(g, view, Dispatch(g, view), drawingOperation, y, base)
    decreases g.height - y
  {
    if y < g.height {
      RowTraceOfDispatch(g, view, draw, drawingOperation, y, 0, base);
      PassFromOfDispatch(g, view, draw, drawingOperation, y + 1, base);
    }
  }

  lemma {:induction false} PassesFromOfDispatch(g: TriangleGrid, view: View, draw: NodeDraw, drawingOperation: int,
                                                base: Offset)
    requires DispatchOf(draw, g, view) && 0 <= drawingOperation <= 3
    ensures PassesFrom(g, view, draw, drawingOperation, base)
            == PassesFrom(g, view, Dispatch(g, view), drawingOperation, base)
    decreases 3 - drawingOperation
  {
    if drawingOperation < 3 {
      PassFromOfDispatch(g, view, draw, drawingOperation, 0, base);
      PassesFromOfDispatch(g, view, draw, drawingOperation + 1, base);
    }
  }

  lemma Associative(a: seq<Event>, b: seq<Event>, c: seq<Event>)
    ensures (a + b) + c == a + (b + c)
  {
  }

  /** A pass over two runs of nodes is the pass over the first followed by the pass over the second. */
  lemma {:induction false} PassTraceAppend(g: TriangleGrid, view: View, drawingOperation: int,
                                           vs: seq<Visit>, ws: seq<Visit>, base: Offset)
    ensures PassTrace(g, view, drawingOperation, vs + ws, base)
            == PassTrace(g, view, drawingOperation, vs, base) + PassTrace(g, view, drawingOperation, ws, base)
  {
    if vs == [] {
      assert vs + ws == ws;
    } else {
      assert (vs + ws)[0] == vs[0];
      assert (vs + ws)[1..] == vs[1..] + ws;
      PassTraceAppend(g, view, drawingOperation, vs[1..], ws, base);
    }
  }
}
