/** What the renderer's traversal draws, stated against the reference definitions: the nodes it
    visits, the order it visits them in, and the callbacks each pass makes for each node. */
module Traversal {
  import opened JavaInt
  import opened Triangle
  import opened Lattice
  import opened Composite
  import opened Renderer
  import Hexagon

  /** The column loop's trace is the pass over the nodes the row reaches. */
  lemma {:induction false} RowTraceIsPassTrace(g: TriangleGrid, view: View, drawingOperation: int,
                                               y: int32, x: int32, base: Offset)
    requires 0 <= x
    ensures RowTrace(g, view, Dispatch(g, view), drawingOperation, y, x, base)
            == PassTrace(g, view, drawingOperation, VisitedRow(g, y, x), base)
    decreases g.width - x
  {
    if x < g.width && g.getNode(x, y).Some? {
      var node := g.getNode(x, y).value;
      var vs := VisitedRow(g, y, x);
      var here := NodeEvents(g, view, drawingOperation, x, y, node, view.isCentre(x, y), Position(base, x, y));
      assert vs == [Visit(x, y, node)] + VisitedRow(g, y, x + 1);
      assert vs[1..] == VisitedRow(g, y, x + 1);
      calc {
        RowTrace(g, view, Dispatch(g, view), drawingOperation, y, x, base);
        here + RowTrace(g, view, Dispatch(g, view), drawingOperation, y, x + 1, base);
        { RowTraceIsPassTrace(g, view, drawingOperation, y, x + 1, base); }
        here + PassTrace(g, view, drawingOperation, vs[1..], base);
        PassTrace(g, view, drawingOperation, vs, base);
      }
    }
  }

  /** The row loop's trace is the pass over the nodes of the remaining rows. */
  lemma {:induction false} PassFromIsPassTrace(g: TriangleGrid, view: View, drawingOperation: int,
                                               y: int32, base: Offset)
    requires 0 <= y
    ensures PassFrom(g, view, Dispatch(g, view), drawingOperation, y, base)
            == PassTrace(g, view, drawingOperation, VisitedFrom(g, y), base)
    decreases g.height - y
  {
    if y < g.height {
      RowTraceIsPassTrace(g, view, drawingOperation, y, 0, base);
      PassFromIsPassTrace(g, view, drawingOperation, y + 1, base);
      PassTraceAppend(g, view, drawingOperation, VisitedRow(g, y, 0), VisitedFrom(g, y + 1), base);
    }
  }

  /** One call draws the face pass, then the edge pass, then the vertex pass, each over the
      same nodes in the same order. */
  lemma GridTraceIsThreePasses(g: TriangleGrid, view: View, base: Offset)
    ensures GridTrace(g, view, base)
            == PassTrace(g, view, Faces, Visited(g), base)
               + PassTrace(g, view, Edges, Visited(g), base)
               + PassTrace(g, view, Vertices, Visited(g), base)
  {
    PassFromIsPassTrace(g, view, Faces, 0, base);
    PassFromIsPassTrace(g, view, Edges, 0, base);
    PassFromIsPassTrace(g, view, Vertices, 0, base);
    var f := PassTrace(g, view, Faces, Visited(g), base);
    var e := PassTrace(g, view, Edges, Visited(g), base);
    var v := PassTrace(g, view, Vertices, Visited(g), base);
    calc {
      GridTrace(g, view, base);
      f + PassesFrom(g, view, Dispatch(g, view), Edges, base);
      f + (e + PassesFrom(g, view, Dispatch(g, view), Vertices, base));
      f + (e + (v + []));
      { assert v + [] == v; Associative(f, e, v); }
      f + e + v;
    }
  }

  /** A node is in row y's visits from column x0 exactly when it is present, lies in the
      lattice at or right of x0, and no node between x0 and it is missing. */
  lemma {:induction false} InVisitedRow(g: TriangleGrid, y: int32, x0: int32, v: Visit)
    requires 0 <= x0
    ensures v in VisitedRow(g, y, x0) <==>
              v.y == y && x0 <= v.x < g.width && g.getNode(v.x, y) == Some(v.node) &&
              forall i: int32 :: x0 <= i <= v.x ==> g.getNode(i, y).Some?
    decreases g.width - x0
  {
    if x0 < g.width && g.getNode(x0, y).Some? {
      InVisitedRow(g, y, x0 + 1, v);
      var rest := VisitedRow(g, y, x0 + 1);
      assert VisitedRow(g, y, x0) == [Visit(x0, y, g.getNode(x0, y).value)] + rest;
      if v.y == y && x0 < v.x < g.width && g.getNode(v.x, y) == Some(v.node) &&
         forall i: int32 :: x0 <= i <= v.x ==> g.getNode(i, y).Some? {
        assert v in rest;
      }
    }
  }

  /** A node is in the visits from row y0 exactly when its row is one of rows y0..height - 1
      and that row's loop reaches it. */
  lemma {:induction false} InVisitedFrom(g: TriangleGrid, y0: int32, v: Visit)
    requires 0 <= y0
    ensures v in VisitedFrom(g, y0) <==> y0 <= v.y < g.height && v in VisitedRow(g, v.y, 0)
    decreases g.height - y0
  {
    if y0 < g.height {
      InVisitedFrom(g, y0 + 1, v);
      InVisitedRow(g, y0, 0, v);
      if v.y >= 0 {
        InVisitedRow(g, v.y, 0, v);
      }
    }
  }

  /** The traversal visits exactly the reached nodes, each with the node the lattice returns. */
  lemma VisitedIsReached(g: TriangleGrid, v: Visit)
    ensures v in Visited(g) <==> Reached(g, v.x, v.y) && g.getNode(v.x, v.y) == Some(v.node)
  {
    InVisitedFrom(g, 0, v);
    if v.y >= 0 {
      InVisitedRow(g, v.y, 0, v);
    }
  }

  /** Within a row, the visits are the consecutive columns x0, x0 + 1, ... */
  lemma {:induction false} VisitedRowConsecutive(g: TriangleGrid, y: int32, x0: int32)
    requires 0 <= x0
    ensures forall k :: 0 <= k < |VisitedRow(g, y, x0)| ==>
              VisitedRow(g, y, x0)[k].y == y && VisitedRow(g, y, x0)[k].x == x0 + k
    decreases g.width - x0
  {
    if x0 < g.width && g.getNode(x0, y).Some? {
      VisitedRowConsecutive(g, y, x0 + 1);
    }
  }

  /** Two runs in row-major order, all of the first before all of the second, make one. */
  lemma RowMajorAppend(a: seq<Visit>, b: seq<Visit>)
    requires RowMajor(a) && RowMajor(b)
    requires forall v: Visit, w: Visit :: v in a && w in b ==> Precedes(v.y, v.x, w.y, w.x)
    ensures RowMajor(a + b)
  {
    forall i, j | 0 <= i < j < |a + b|
      ensures Precedes((a + b)[i].y, (a + b)[i].x, (a + b)[j].y, (a + b)[j].x)
    {
      if j >= |a| && i < |a| {
        assert (a + b)[i] in a && (a + b)[j] in b;
      } else if i >= |a| {
        assert (a + b)[i] == b[i - |a|] && (a + b)[j] == b[j - |a|];
      }
    }
  }

  /** The visits from row y0 on are in row-major order. */
  lemma {:induction false} VisitedFromRowMajor(g: TriangleGrid, y0: int32)
    requires 0 <= y0
    ensures RowMajor(VisitedFrom(g, y0))
    decreases g.height - y0
  {
    if y0 < g.height {
      var row := VisitedRow(g, y0, 0);
      var rest := VisitedFrom(g, y0 + 1);
      VisitedRowConsecutive(g, y0, 0);
      VisitedFromRowMajor(g, y0 + 1);
      forall v: Visit, w: Visit | v in row && w in rest
        ensures Precedes(v.y, v.x, w.y, w.x)
      {
        InVisitedFrom(g, y0 + 1, w);
      }
      RowMajorAppend(row, rest);
    }
  }

  /** Each pass visits the nodes in row-major order, so no node is visited twice. */
  lemma VisitedRowMajor(g: TriangleGrid)
    ensures RowMajor(Visited(g))
    ensures forall i, j :: 0 <= i < j < |Visited(g)| ==>
              (Visited(g)[i].x, Visited(g)[i].y) != (Visited(g)[j].x, Visited(g)[j].y)
  {
    VisitedFromRowMajor(g, 0);
  }

  /** The callbacks of one node in one pass carry that pass, that node and its transform. */
  lemma NodeEventsTagged(g: TriangleGrid, view: View, drawingOperation: int, x: int32, y: int32,
                         node: TriangleGridNode, isHexagonCentre: bool, at: Offset)
    ensures forall e: Event :: e in NodeEvents(g, view, drawingOperation, x, y, node, isHexagonCentre, at) ==>
              e.pass == drawingOperation && e.x == x && e.y == y && e.at == at
  {
    if drawingOperation == Edges {
      EdgeEventsOfNode(g, view, x, y, node, isHexagonCentre, at);
    }
  }

  /** Every callback of a pass carries that pass. */
  lemma {:induction false} PassTraceCarriesPass(g: TriangleGrid, view: View, drawingOperation: int,
                                                vs: seq<Visit>, base: Offset)
    ensures forall e: Event :: e in PassTrace(g, view, drawingOperation, vs, base) ==> e.pass == drawingOperation
  {
    if vs != [] {
      var v := vs[0];
      NodeEventsTagged(g, view, drawingOperation, v.x, v.y, v.node, view.isCentre(v.x, v.y),
                       Position(base, v.x, v.y));
      PassTraceCarriesPass(g, view, drawingOperation, vs[1..], base);
    }
  }

  /** Every callback of a pass is drawn for a visited node, at that node's position: its
      column steps, odd-row shift and row steps from the base transform. */
  lemma {:induction false} PassTraceAtVisits(g: TriangleGrid, view: View, drawingOperation: int,
                                             vs: seq<Visit>, base: Offset)
    ensures forall e: Event :: e in PassTrace(g, view, drawingOperation, vs, base) ==>
              e.at == Position(base, e.x, e.y) && exists v: Visit :: v in vs && v.x == e.x && v.y == e.y
  {
    if vs != [] {
      var v := vs[0];
      var here := NodeEvents(g, view, drawingOperation, v.x, v.y, v.node, view.isCentre(v.x, v.y),
                             Position(base, v.x, v.y));
      var rest := PassTrace(g, view, drawingOperation, vs[1..], base);
      NodeEventsTagged(g, view, drawingOperation, v.x, v.y, v.node, view.isCentre(v.x, v.y),
                       Position(base, v.x, v.y));
      PassTraceAtVisits(g, view, drawingOperation, vs[1..], base);
      forall e: Event | e in here + rest
        ensures e.at == Position(base, e.x, e.y) && exists w: Visit :: w in vs && w.x == e.x && w.y == e.y
      {
        if e in here {
          assert v in vs;
        } else {
          var w: Visit :| w in vs[1..] && w.x == e.x && w.y == e.y;
          assert w in vs;
        }
      }
    }
  }

  /** Runs tagged face, edge and vertex, in that order, make a log sorted by pass. */
  lemma RunsInPassOrder(f: seq<Event>, e: seq<Event>, v: seq<Event>)
    requires forall x: Event :: x in f ==> x.pass == Faces
    requires forall x: Event :: x in e ==> x.pass == Edges
    requires forall x: Event :: x in v ==> x.pass == Vertices
    ensures forall i, j :: 0 <= i < j < |f + e + v| ==> (f + e + v)[i].pass <= (f + e + v)[j].pass
  {
    var t := f + e + v;
    forall i | 0 <= i < |t|
      ensures t[i].pass == if i < |f| then Faces else if i < |f| + |e| then Edges else Vertices
    {
      if i < |f| {
        assert t[i] == f[i] && f[i] in f;
      } else if i < |f| + |e| {
        assert t[i] == e[i - |f|] && e[i - |f|] in e;
      } else {
        assert t[i] == v[i - |f| - |e|] && v[i - |f| - |e|] in v;
      }
    }
  }

  /** All face callbacks come first, then all edge callbacks, then all vertex callbacks. */
  lemma PassesInOrder(g: TriangleGrid, view: View, base: Offset)
    ensures forall i, j :: 0 <= i < j < |GridTrace(g, view, base)| ==>
              GridTrace(g, view, base)[i].pass <= GridTrace(g, view, base)[j].pass
  {
    GridTraceIsThreePasses(g, view, base);
    PassTraceCarriesPass(g, view, Faces, Visited(g), base);
    PassTraceCarriesPass(g, view, Edges, Visited(g), base);
    PassTraceCarriesPass(g, view, Vertices, Visited(g), base);
    RunsInPassOrder(PassTrace(g, view, Faces, Visited(g), base), PassTrace(g, view, Edges, Visited(g), base),
                    PassTrace(g, view, Vertices, Visited(g), base));
  }

  /** The face pass draws a hexagon exactly at the visited centres, each with the tile of the
      hexagon that centre falls in. */
  lemma {:induction false} FacePassDrawsCentres(g: TriangleGrid, view: View, vs: seq<Visit>, base: Offset)
    ensures forall e: Event :: e in PassTrace(g, view, Faces, vs, base) ==>
              view.isCentre(e.x, e.y) && e.call == DrawHexagon(view.tileAt(e.x, e.y))
    ensures forall v: Visit :: v in vs ==>
              (view.isCentre(v.x, v.y) <==>
               Event(Faces, v.x, v.y, Position(base, v.x, v.y), DrawHexagon(view.tileAt(v.x, v.y)))
                 in PassTrace(g, view, Faces, vs, base))
  {
    if vs != [] {
      FacePassDrawsCentres(g, view, vs[1..], base);
      forall v: Visit | v in vs
        ensures view.isCentre(v.x, v.y) ==>
                Event(Faces, v.x, v.y, Position(base, v.x, v.y), DrawHexagon(view.tileAt(v.x, v.y)))
                  in PassTrace(g, view, Faces, vs, base)
      {
        if v != vs[0] {
          assert v in vs[1..];
        }
      }
    }
  }

  /** The visited hexagon centres, in visiting order. */
  function Centres(view: View, vs: seq<Visit>): (cs: seq<Visit>)
    ensures |cs| <= |vs|
    ensures forall v: Visit :: v in cs <==> v in vs && view.isCentre(v.x, v.y)
  {
    if vs == [] then []
    else if view.isCentre(vs[0].x, vs[0].y) then [vs[0]] + Centres(view, vs[1..])
    else Centres(view, vs[1..])
  }

  /** The hexagon callback for centre v. */
  function HexagonEvent(view: View, v: Visit, base: Offset): Event
  {
    Event(Faces, v.x, v.y, Position(base, v.x, v.y), DrawHexagon(view.tileAt(v.x, v.y)))
  }

  /** The face pass draws each visited centre exactly once, in visiting order, and nothing else. */
  lemma {:induction false} FacePassOnePerCentre(g: TriangleGrid, view: View, vs: seq<Visit>, base: Offset)
    ensures |PassTrace(g, view, Faces, vs, base)| == |Centres(view, vs)|
    ensures forall k :: 0 <= k < |Centres(view, vs)| ==>
              PassTrace(g, view, Faces, vs, base)[k] == HexagonEvent(view, Centres(view, vs)[k], base)
  {
    if vs != [] {
      FacePassOnePerCentre(g, view, vs[1..], base);
      var t := PassTrace(g, view, Faces, vs, base);
      var rest := PassTrace(g, view, Faces, vs[1..], base);
      var cs := Centres(view, vs);
      var cr := Centres(view, vs[1..]);
      if view.isCentre(vs[0].x, vs[0].y) {
        assert t == [HexagonEvent(view, vs[0], base)] + rest;
        assert cs == [vs[0]] + cr;
        forall k | 1 <= k < |cs|
          ensures t[k] == HexagonEvent(view, cs[k], base)
        {
          assert t[k] == rest[k - 1] && cs[k] == cr[k - 1];
        }
      } else {
        assert t == rest && cs == cr;
      }
    }
  }

  /** A log whose callbacks never go back in row-major order of their nodes. */
  ghost predicate InRowMajorOrder(t: seq<Event>)
  {
    forall i, j :: 0 <= i < j < |t| ==> !Precedes(t[j].y, t[j].x, t[i].y, t[i].x)
  }

  lemma OrderedAppend(a: seq<Event>, b: seq<Event>)
    requires InRowMajorOrder(a) && InRowMajorOrder(b)
    requires forall e: Event, f: Event :: e in a && f in b ==> !Precedes(f.y, f.x, e.y, e.x)
    ensures InRowMajorOrder(a + b)
  {
    forall i, j | 0 <= i < j < |a + b|
      ensures !Precedes((a + b)[j].y, (a + b)[j].x, (a + b)[i].y, (a + b)[i].x)
    {
      if j >= |a| && i < |a| {
        assert (a + b)[i] in a && (a + b)[j] in b;
      } else if i >= |a| {
        assert (a + b)[i] == b[i - |a|] && (a + b)[j] == b[j - |a|];
      }
    }
  }

  /** A pass over nodes in row-major order draws its callbacks in row-major order. */
  lemma {:induction false} PassTraceInRowMajorOrder(g: TriangleGrid, view: View, drawingOperation: int,
                                                    vs: seq<Visit>, base: Offset)
    requires RowMajor(vs)
    ensures InRowMajorOrder(PassTrace(g, view, drawingOperation, vs, base))
  {
    if vs != [] {
      var v := vs[0];
      var here := NodeEvents(g, view, drawingOperation, v.x, v.y, v.node, view.isCentre(v.x, v.y),
                             Position(base, v.x, v.y));
      var rest := PassTrace(g, view, drawingOperation, vs[1..], base);
      assert RowMajor(vs[1..]) by {
        forall i, j | 0 <= i < j < |vs[1..]|
          ensures Precedes(vs[1..][i].y, vs[1..][i].x, vs[1..][j].y, vs[1..][j].x)
        {
          assert vs[1..][i] == vs[i + 1] && vs[1..][j] == vs[j + 1];
        }
      }
      PassTraceInRowMajorOrder(g, view, drawingOperation, vs[1..], base);
      NodeEventsTagged(g, view, drawingOperation, v.x, v.y, v.node, view.isCentre(v.x, v.y),
                       Position(base, v.x, v.y));
      PassTraceAtVisits(g, view, drawingOperation, vs[1..], base);
      forall e: Event, f: Event | e in here && f in rest
        ensures !Precedes(f.y, f.x, e.y, e.x)
      {
        var w: Visit :| w in vs[1..] && w.x == f.x && w.y == f.y;
        var k :| 0 <= k < |vs[1..]| && vs[1..][k] == w;
        assert vs[1..][k] == vs[k + 1];
      }
      OrderedAppend(here, rest);
    }
  }

  /** Within each pass, callbacks follow the nodes in row-major order. */
  lemma PassInRowMajorOrder(g: TriangleGrid, view: View, drawingOperation: int, base: Offset)
    ensures InRowMajorOrder(PassTrace(g, view, drawingOperation, Visited(g), base))
  {
    VisitedRowMajor(g);
    PassTraceInRowMajorOrder(g, view, drawingOperation, Visited(g), base);
  }

  /** How many edge slots of a node are filled. */
  function PresentEdges(node: TriangleGridNode): (n: nat)
    ensures n <= 3
  {
    (if node.edge0.Some? then 1 else 0) + (if node.edge1.Some? then 1 else 0) +
    (if node.edge2.Some? then 1 else 0)
  }

  /** The callback of edge slot i: one for a filled slot, none for an empty one; at the node
      and its transform, naming the slot's edge and corner i, and internal exactly when the
      node or the edge's far end is a hexagon centre. */
  lemma EdgeEventShape(g: TriangleGrid, view: View, x: int32, y: int32, node: TriangleGridNode,
                       isHexagonCentre: bool, at: Offset, i: int)
    requires 0 <= i < 3
    ensures |EdgeEvent(g, view, x, y, node, isHexagonCentre, at, i)| == if node.Edge(i).Some? then 1 else 0
    ensures forall e: Event :: e in EdgeEvent(g, view, x, y, node, isHexagonCentre, at, i) ==>
              e.pass == Edges && e.x == x && e.y == y && e.at == at &&
              (e.call.DrawInternalEdge? || e.call.DrawExternalEdge?) &&
              e.call.far == Hexagon.Vertex(i) && node.Edge(i) == Some(e.call.edge) &&
              var end := g.vertexCoordinateAtEndOfEdge(x, y, i as int32);
              (e.call.DrawInternalEdge? <==> isHexagonCentre || view.isCentre(end.x, end.y))
  {
  }

  /** A node's edge callbacks: one per filled slot, each at the node and its transform, naming
      the slot's edge and the corner with the slot's index, and internal exactly when the node
      or the edge's far end is a hexagon centre. */
  lemma EdgeEventsOfNode(g: TriangleGrid, view: View, x: int32, y: int32, node: TriangleGridNode,
                         isHexagonCentre: bool, at: Offset)
    ensures |EdgeEvents(g, view, x, y, node, isHexagonCentre, at, 0)| == PresentEdges(node)
    ensures forall e: Event :: e in EdgeEvents(g, view, x, y, node, isHexagonCentre, at, 0) ==>
              e.pass == Edges && e.x == x && e.y == y && e.at == at &&
              (e.call.DrawInternalEdge? || e.call.DrawExternalEdge?) &&
              e.call.far.Vertex? && e.call.far.index < 3 &&
              node.Edge(e.call.far.index) == Some(e.call.edge) &&
              var end := g.vertexCoordinateAtEndOfEdge(x, y, e.call.far.index as int32);
              (e.call.DrawInternalEdge? <==> isHexagonCentre || view.isCentre(end.x, end.y))
  {
    var e0 := EdgeEvent(g, view, x, y, node, isHexagonCentre, at, 0);
    var e1 := EdgeEvent(g, view, x, y, node, isHexagonCentre, at, 1);
    var e2 := EdgeEvent(g, view, x, y, node, isHexagonCentre, at, 2);
    EdgeEventShape(g, view, x, y, node, isHexagonCentre, at, 0);
    EdgeEventShape(g, view, x, y, node, isHexagonCentre, at, 1);
    EdgeEventShape(g, view, x, y, node, isHexagonCentre, at, 2);
    assert EdgeEvents(g, view, x, y, node, isHexagonCentre, at, 0) == e0 + (e1 + (e2 + []));
  }

  /** A filled slot is drawn, internal or external as its ends decide, and not the other way. */
  lemma EdgeSlotClassified(g: TriangleGrid, view: View, x: int32, y: int32, node: TriangleGridNode,
                           isHexagonCentre: bool, at: Offset, i: int32)
    requires 0 <= i < 3 && node.Edge(i as int).Some?
    ensures var end := g.vertexCoordinateAtEndOfEdge(x, y, i);
            var internal := isHexagonCentre || view.isCentre(end.x, end.y);
            var edges := EdgeEvents(g, view, x, y, node, isHexagonCentre, at, 0);
            var edge := node.Edge(i as int).value;
            (Event(Edges, x, y, at, DrawInternalEdge(edge, Hexagon.Vertex(i as nat))) in edges <==> internal) &&
            (Event(Edges, x, y, at, DrawExternalEdge(edge, Hexagon.Vertex(i as nat))) in edges <==> !internal)
  {
    EdgeEventsOfNode(g, view, x, y, node, isHexagonCentre, at);
    var edges := EdgeEvents(g, view, x, y, node, isHexagonCentre, at, 0);
    assert edges == EdgeEvent(g, view, x, y, node, isHexagonCentre, at, 0)
                    + EdgeEvent(g, view, x, y, node, isHexagonCentre, at, 1)
                    + EdgeEvent(g, view, x, y, node, isHexagonCentre, at, 2);
  }

  /** Across a whole edge pass, every callback is an edge of its node's slot, classified by
      whether the node or the edge's far end is a hexagon centre. */
  lemma {:induction false} EdgePassClassifies(g: TriangleGrid, view: View, vs: seq<Visit>, base: Offset)
    ensures forall e: Event :: e in PassTrace(g, view, Edges, vs, base) ==>
              (e.call.DrawInternalEdge? || e.call.DrawExternalEdge?) &&
              e.call.far.Vertex? && e.call.far.index < 3 &&
              var end := g.vertexCoordinateAtEndOfEdge(e.x, e.y, e.call.far.index as int32);
              (e.call.DrawInternalEdge? <==> view.isCentre(e.x, e.y) || view.isCentre(end.x, end.y))
  {
    if vs != [] {
      var v := vs[0];
      EdgeEventsOfNode(g, view, v.x, v.y, v.node, view.isCentre(v.x, v.y), Position(base, v.x, v.y));
      EdgePassClassifies(g, view, vs[1..], base);
    }
  }

  /** The vertex pass draws one callback per visited node, in visiting order: the centre
      vertex for a hexagon centre, the border vertex otherwise. */
  lemma {:induction false} VertexPassOnePerNode(g: TriangleGrid, view: View, vs: seq<Visit>, base: Offset)
    ensures |PassTrace(g, view, Vertices, vs, base)| == |vs|
    ensures forall k :: 0 <= k < |vs| ==>
              var e := PassTrace(g, view, Vertices, vs, base)[k];
              e.pass == Vertices && e.x == vs[k].x && e.y == vs[k].y &&
              e.at == Position(base, vs[k].x, vs[k].y) &&
              (e.call == DrawHexagonCentreVertex(vs[k].node.vertex) <==> view.isCentre(vs[k].x, vs[k].y)) &&
              (e.call == DrawExternalEdgeVertex(vs[k].node.vertex) <==> !view.isCentre(vs[k].x, vs[k].y))
  {
    if vs != [] {
      VertexPassOnePerNode(g, view, vs[1..], base);
      var t := PassTrace(g, view, Vertices, vs, base);
      var rest := PassTrace(g, view, Vertices, vs[1..], base);
      forall k | 1 <= k < |vs|
        ensures t[k] == rest[k - 1] && vs[k] == vs[1..][k - 1]
      {
      }
    }
  }

  /** On the grid itself, every callback of the face pass draws a hexagon at a lattice hexagon
      centre, filled with the grid's tile for that node as the grid's own lookup returns it. */
  lemma GridFacesUseGridTiles(grid: CompositeGrid, base: Offset)
    requires grid.Valid()
    ensures forall e: Event :: e in GridTrace(grid.triangleGrid, GridView(grid), base) && e.pass == Faces ==>
              CompositeGrid.IsHexagonCentre(e.x, e.y) && e.call == DrawHexagon(grid.TileAtNode(e.x, e.y))
  {
    var g := grid.triangleGrid;
    var view := GridView(grid);
    var f := PassTrace(g, view, Faces, Visited(g), base);
    var ed := PassTrace(g, view, Edges, Visited(g), base);
    var v := PassTrace(g, view, Vertices, Visited(g), base);
    GridTraceIsThreePasses(g, view, base);
    PassTraceCarriesPass(g, view, Edges, Visited(g), base);
    PassTraceCarriesPass(g, view, Vertices, Visited(g), base);
    FacePassDrawsCentres(g, view, Visited(g), base);
    forall e: Event | e in f + ed + v && e.pass == Faces
      ensures CompositeGrid.IsHexagonCentre(e.x, e.y) && e.call == DrawHexagon(grid.TileAtNode(e.x, e.y))
    {
      assert e in f;
      assert grid.TileAtNode(e.x, e.y) == view.tileAt(e.x, e.y);
    }
  }
}
