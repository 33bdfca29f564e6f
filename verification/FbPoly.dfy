/** Polygons: the scan-line fill against the even-odd rule, and the outline. */
module FbPoly {
  import opened FbLayout
  import opened FrameBuffers
  import opened FbLine
  import opened FbCrossings
  import opened Arith

  // ---- what is painted

  ghost function Nothing(): (int, int) -> bool {
    (a, b) => false
  }

  function Max(a: int, b: int): int {
    if a > b then a else b
  }

  // The pixels an edge adds where the crossings miss it: its lower end, or all of it if it is
  // level.
  ghost function EdgeRegion(e: Edge, row: int, x: int, y: int): (int, int) -> bool {
    if Crosses(e, row) || row != Max(e.py1, e.py2) then Nothing()
    else if e.py1 < e.py2 then Only(x + e.px2, y + e.py2)
    else if e.py2 < e.py1 then Only(x + e.px1, y + e.py1)
    else Whole(x + e.px1, y + e.py1, x + e.px2, y + e.py2)
  }

  ghost function EdgesRegion(coords: seq<int>, row: int, x: int, y: int, n: nat): (int, int) -> bool
    requires n <= VertexCount(coords)
  {
    if n == 0 then Nothing()
    else Or(EdgesRegion(coords, row, x, y, n - 1), EdgeRegion(EdgeAt(coords, n - 1), row, x, y))
  }

  ghost function SpanRegion(nodes: seq<int>, x: int, line: int, m: nat): (int, int) -> bool
    requires |nodes| % 2 == 0
  {
    (a, b) => b == line && InSpan(nodes, a - x, m)
  }

  ghost function EvenOddRegion(nodes: seq<int>, x: int, line: int): (int, int) -> bool {
    (a, b) => b == line && EvenOdd(nodes, a - x)
  }

  // A scan line: the even-odd rule on the crossings of the row, and the ends of the edges.
  ghost function RowRegion(coords: seq<int>, row: int, x: int, y: int): (int, int) -> bool {
    var n := VertexCount(coords);
    Or(EdgesRegion(coords, row, x, y, n), EvenOddRegion(Crossings(coords, row, n), x, y + row))
  }

  ghost function RowsRegion(coords: seq<int>, x: int, y: int, low: int, count: nat): (int, int) -> bool {
    if count == 0 then Nothing()
    else Or(RowsRegion(coords, x, y, low, count - 1), RowRegion(coords, low + count - 1, x, y))
  }

  ghost function OutlineRegion(coords: seq<int>, x: int, y: int, n: nat): (int, int) -> bool
    requires n <= VertexCount(coords)
  {
    if n == 0 then Nothing()
    else
      var e := EdgeAt(coords, n - 1);
      Or(OutlineRegion(coords, x, y, n - 1), Whole(x + e.px1, y + e.py1, x + e.px2, y + e.py2))
  }

  function MinY(coords: seq<int>, n: nat): int
    requires 0 < n <= VertexCount(coords)
  {
    var py := coords[2 * n - 1];
    if n == 1 then py else if MinY(coords, n - 1) < py then MinY(coords, n - 1) else py
  }

  function MaxY(coords: seq<int>, n: nat): int
    requires 0 < n <= VertexCount(coords)
  {
    var py := coords[2 * n - 1];
    if n == 1 then py else if MaxY(coords, n - 1) > py then MaxY(coords, n - 1) else py
  }

  // ---- painting one thing after another

  lemma ClipThen(g: Geometry, s0: seq<int>, s1: seq<int>, s2: seq<int>, r: (int, int) -> bool,
                 t: (int, int) -> bool, v: int)
    requires g.Valid() && Painted(g, s0, s1, Clip(g, r), v) && Painted(g, s1, s2, Clip(g, t), v)
    ensures Painted(g, s0, s2, Clip(g, Or(r, t)), v)
  {
    hide Painted;
    PaintedThen(g, s0, s1, s2, Clip(g, r), Clip(g, t), Clip(g, Or(r, t)), v);
  }

  lemma ClipNone(g: Geometry, s: seq<int>, v: int)
    requires g.Valid()
    ensures Painted(g, s, s, Clip(g, Nothing()), v)
  {
  }

  lemma ClipSame(g: Geometry, s0: seq<int>, s1: seq<int>, r: (int, int) -> bool, t: (int, int) -> bool, v: int)
    requires g.Valid() && Painted(g, s0, s1, Clip(g, r), v)
    requires forall a, b :: r(a, b) <==> t(a, b)
    ensures Painted(g, s0, s1, Clip(g, t), v)
  {
    hide Painted;
    PaintedSame(g, s0, s1, Clip(g, r), Clip(g, t), v);
  }

  // ---- the fill

  // The missing pixels of one edge.
  method FixEdge(fb: FrameBuffer, x: int, y: int, e: Edge, row: int, col: nat)
    requires fb.Valid() && !Crosses(e, row)
    modifies fb.buf
    ensures fb.Valid()
    ensures Painted(fb.g, old(fb.buf[..]), fb.buf[..], Clip(fb.g, EdgeRegion(e, row, x, y)), Trunc(fb.g.format, col))
  {
    hide Painted, IsBuffer, Clip, Only, Whole, Trunc;
    ClipNone(fb.g, fb.buf[..], Trunc(fb.g.format, col));
    if row == Max(e.py1, e.py2) {
      if e.py1 < e.py2 {
        fb.SetPixelChecked(x + e.px2, y + e.py2, col);
      } else if e.py2 < e.py1 {
        fb.SetPixelChecked(x + e.px1, y + e.py1, col);
      } else {
        Line(fb, x + e.px1, y + e.py1, x + e.px2, y + e.py2, col);
      }
    }
  }

  // The walk around the polygon for one row.
  method CollectNodes(fb: FrameBuffer, x: int, y: int, coords: seq<int>, row: int, col: nat, nodes: array<int>)
      returns (nNodes: nat)
    requires fb.Valid() && VertexCount(coords) > 0 && nodes.Length == VertexCount(coords) && nodes != fb.buf
    modifies fb.buf, nodes
    ensures fb.Valid() && nNodes <= nodes.Length && nodes[..nNodes] == Crossings(coords, row, VertexCount(coords))
    ensures Painted(fb.g, old(fb.buf[..]), fb.buf[..], Clip(fb.g, EdgesRegion(coords, row, x, y, VertexCount(coords))),
                    Trunc(fb.g.format, col))
  {
    hide Painted, IsBuffer, Clip, EdgeRegion, Trunc, Node, Or;
    var nPoly := VertexCount(coords);
    nNodes := 0;
    var px1, py1 := coords[0], coords[1];
    var i := nPoly * 2 - 1;
    ghost var j: nat := 0;
    ghost var start := fb.buf[..];
    ClipNone(fb.g, start, Trunc(fb.g.format, col));
    while i >= 0
      invariant j <= nPoly && i == 2 * (nPoly - j) - 1 && nNodes <= j && fb.Valid()
      invariant j < nPoly ==> px1 == EdgeAt(coords, j).px1 && py1 == EdgeAt(coords, j).py1
      invariant nodes[..nNodes] == Crossings(coords, row, j)
      invariant Painted(fb.g, start, fb.buf[..], Clip(fb.g, EdgesRegion(coords, row, x, y, j)), Trunc(fb.g.format, col))
    {
      var py2 := coords[i];
      var px2 := coords[i - 1];
      i := i - 2;
      var e := Edge(px1, py1, px2, py2);
      assert e == EdgeAt(coords, j);
      ghost var before := fb.buf[..];
      if Crosses(e, row) {
        nodes[nNodes] := Node(e, row);
        nNodes := nNodes + 1;
        NoEdgeRegion(fb.g, before, e, row, x, y, Trunc(fb.g.format, col));
      } else {
        FixEdge(fb, x, y, e, row, col);
      }
      ClipThen(fb.g, start, before, fb.buf[..], EdgesRegion(coords, row, x, y, j), EdgeRegion(e, row, x, y),
               Trunc(fb.g.format, col));
      px1, py1 := px2, py2;
      j := j + 1;
    }
  }

  lemma NoEdgeRegion(g: Geometry, s: seq<int>, e: Edge, row: int, x: int, y: int, v: int)
    requires g.Valid() && Crosses(e, row)
    ensures Painted(g, s, s, Clip(g, EdgeRegion(e, row, x, y)), v)
  {
    ClipNone(g, s, v);
  }

  lemma NextSpan(nodes: seq<int>, x: int, line: int, m: nat)
    requires |nodes| % 2 == 0 && 2 * m + 1 < |nodes| && Sorted(nodes)
    ensures var r := Or(SpanRegion(nodes, x, line, m),
                        Rect(x + nodes[2 * m], line, nodes[2 * m + 1] - nodes[2 * m] + 1, 1));
            var next := SpanRegion(nodes, x, line, m + 1);
            forall a, b :: r(a, b) <==> next(a, b)
  {
    forall c ensures InSpan(nodes, c, m + 1) <==> InSpan(nodes, c, m) || nodes[2 * m] <= c <= nodes[2 * m + 1] {
      if InSpan(nodes, c, m + 1) {
        var k: nat :| 2 * k + 1 < |nodes| && k < m + 1 && nodes[2 * k] <= c <= nodes[2 * k + 1];
        assert k < m || k == m;
      }
    }
  }

  // Fills between the pairs of crossings; every width is at least one.
  method FillSpans(fb: FrameBuffer, x: int, line: int, nodes: array<int>, nNodes: nat, col: nat)
    requires fb.Valid() && nNodes <= nodes.Length && nNodes % 2 == 0 && Sorted(nodes[..nNodes]) && nodes != fb.buf
    modifies fb.buf
    ensures fb.Valid()
    ensures Painted(fb.g, old(fb.buf[..]), fb.buf[..],
                    Clip(fb.g, SpanRegion(nodes[..nNodes], x, line, nNodes / 2)), Trunc(fb.g.format, col))
  {
    hide Painted, IsBuffer, Clip, Or, Rect, SpanRegion, Trunc;
    ghost var start, s := fb.buf[..], nodes[..nNodes];
    NoSpans(fb.g, start, s, x, line, Trunc(fb.g.format, col));
    var i := 0;
    while i < nNodes
      invariant 0 <= i <= nNodes && i % 2 == 0 && fb.Valid() && nodes[..nNodes] == s
      invariant Painted(fb.g, start, fb.buf[..], Clip(fb.g, SpanRegion(s, x, line, i / 2)), Trunc(fb.g.format, col))
    {
      assert nodes[i] == s[i] && nodes[i + 1] == s[i + 1];
      FillSpan(fb, x, line, s, i / 2, nodes[i], nodes[i + 1], col, start);
      i := i + 2;
    }
  }

  method FillSpan(fb: FrameBuffer, x: int, line: int, ghost s: seq<int>, ghost m: nat, left: int, right: int, col: nat,
                  ghost start: seq<int>)
    requires fb.Valid() && |s| % 2 == 0 && 2 * m + 1 < |s| && Sorted(s) && left == s[2 * m] && right == s[2 * m + 1]
    requires Painted(fb.g, start, fb.buf[..], Clip(fb.g, SpanRegion(s, x, line, m)), Trunc(fb.g.format, col))
    modifies fb.buf
    ensures fb.Valid()
    ensures Painted(fb.g, start, fb.buf[..], Clip(fb.g, SpanRegion(s, x, line, m + 1)), Trunc(fb.g.format, col))
  {
    hide Painted, IsBuffer, Clip, Or, Rect, SpanRegion, Trunc;
    ghost var before := fb.buf[..];
    var w := right - left + 1;
    assert w >= 1;
    fb.FillRect(x + left, line, w, 1, col);
    NextSpan(s, x, line, m);
    ghost var r := Rect(x + left, line, w, 1);
    ClipThen(fb.g, start, before, fb.buf[..], SpanRegion(s, x, line, m), r, Trunc(fb.g.format, col));
    ClipSame(fb.g, start, fb.buf[..], Or(SpanRegion(s, x, line, m), r), SpanRegion(s, x, line, m + 1),
             Trunc(fb.g.format, col));
  }

  lemma NoSpans(g: Geometry, units: seq<int>, nodes: seq<int>, x: int, line: int, v: int)
    requires g.Valid() && |nodes| % 2 == 0
    ensures Painted(g, units, units, Clip(g, SpanRegion(nodes, x, line, 0)), v)
  {
    hide Painted;
    ClipNone(g, units, v);
    forall c ensures !InSpan(nodes, c, 0) {
    }
    ClipSame(g, units, units, Nothing(), SpanRegion(nodes, x, line, 0), v);
  }

  // The sorted pairs paint what the even-odd rule asks of the crossings in the order found.
  lemma SpansFollowRule(sorted: seq<int>, found: seq<int>, x: int, line: int)
    requires Sorted(sorted) && |sorted| % 2 == 0 && multiset(sorted) == multiset(found)
    ensures forall a, b :: SpanRegion(sorted, x, line, |sorted| / 2)(a, b) <==> EvenOddRegion(found, x, line)(a, b)
  {
    forall c ensures InSpan(sorted, c, |sorted| / 2) <==> EvenOdd(found, c) {
      SpansAreEvenOdd(sorted, c);
      EvenOddOfPermutation(sorted, found, c);
    }
  }

  // One scan line.
  method FillRow(fb: FrameBuffer, x: int, y: int, coords: seq<int>, row: int, col: nat)
    requires fb.Valid() && VertexCount(coords) > 0
    modifies fb.buf
    ensures fb.Valid()
    ensures Painted(fb.g, old(fb.buf[..]), fb.buf[..], Clip(fb.g, RowRegion(coords, row, x, y)),
                    Trunc(fb.g.format, col))
  {
    hide Painted, IsBuffer, Clip, Or, EdgesRegion, SpanRegion, EvenOddRegion, Trunc, Crossings, EvenOdd;
    ghost var start, n := fb.buf[..], VertexCount(coords);
    ghost var found := Crossings(coords, row, n);
    ghost var rule := EvenOddRegion(found, x, y + row);
    var nodes := new int[VertexCount(coords)];
    var nNodes := CollectNodes(fb, x, y, coords, row, col, nodes);
    ghost var edges := fb.buf[..];
    EvenCrossings(coords, row);
    SortNodes(nodes, nNodes);
    ghost var sorted := nodes[..nNodes];
    FillSpans(fb, x, y + row, nodes, nNodes, col);
    SpansFollowRule(sorted, found, x, y + row);
    ClipSame(fb.g, edges, fb.buf[..], SpanRegion(sorted, x, y + row, nNodes / 2), rule, Trunc(fb.g.format, col));
    ClipThen(fb.g, start, edges, fb.buf[..], EdgesRegion(coords, row, x, y, n), rule, Trunc(fb.g.format, col));
  }

  // framebuf_poly with fill.
  method FillPoly(fb: FrameBuffer, x: int, y: int, coords: seq<int>, col: nat)
    requires fb.Valid()
    modifies fb.buf
    ensures fb.Valid()
    ensures Painted(fb.g, old(fb.buf[..]), fb.buf[..], Clip(fb.g, Filled(coords, x, y)), Trunc(fb.g.format, col))
  {
    hide Painted, IsBuffer, Clip, Or, RowRegion, Trunc, Filled;
    var nPoly := VertexCount(coords);
    if nPoly == 0 {
      NoVertices(coords, x, y);
      ClipNone(fb.g, fb.buf[..], Trunc(fb.g.format, col));
      ClipSame(fb.g, fb.buf[..], fb.buf[..], Nothing(), Filled(coords, x, y), Trunc(fb.g.format, col));
      return;
    }
    var yMin, yMax := coords[1], coords[1];
    for i := 1 to nPoly
      invariant yMin == MinY(coords, i) && yMax == MaxY(coords, i)
    {
      var py := coords[i * 2 + 1];
      yMin := if yMin < py then yMin else py;
      yMax := if yMax > py then yMax else py;
    }
    YRange(coords, nPoly);
    ghost var start := fb.buf[..];
    ClipNone(fb.g, start, Trunc(fb.g.format, col));
    for row := yMin to yMax + 1
      invariant fb.Valid()
      invariant Painted(fb.g, start, fb.buf[..], Clip(fb.g, RowsRegion(coords, x, y, yMin, row - yMin)),
                        Trunc(fb.g.format, col))
    {
      ghost var before := fb.buf[..];
      FillRow(fb, x, y, coords, row, col);
      ClipThen(fb.g, start, before, fb.buf[..], RowsRegion(coords, x, y, yMin, row - yMin),
               RowRegion(coords, row, x, y), Trunc(fb.g.format, col));
    }
    FillExactly(coords, x, y);
    ClipSame(fb.g, start, fb.buf[..], RowsRegion(coords, x, y, yMin, yMax - yMin + 1), Filled(coords, x, y),
             Trunc(fb.g.format, col));
  }

  lemma NoVertices(coords: seq<int>, x: int, y: int)
    requires VertexCount(coords) == 0
    ensures forall a, b :: !Filled(coords, x, y)(a, b)
  {
    forall a, b ensures !Filled(coords, x, y)(a, b) {
      assert MetUpTo(coords, b - y, a - x, 0) == 0;
    }
  }

  // framebuf_poly without fill.
  method OutlinePoly(fb: FrameBuffer, x: int, y: int, coords: seq<int>, col: nat)
    requires fb.Valid()
    modifies fb.buf
    ensures fb.Valid()
    ensures Painted(fb.g, old(fb.buf[..]), fb.buf[..], Clip(fb.g, Outlined(coords, x, y)), Trunc(fb.g.format, col))
  {
    hide Painted, IsBuffer, Clip, Or, Whole, Trunc, OutlineRegion, Outlined;
    ghost var start := fb.buf[..];
    NoLines(coords, x, y);
    ClipNone(fb.g, start, Trunc(fb.g.format, col));
    OutlineExactly(coords, x, y);
    var nPoly := VertexCount(coords);
    if nPoly == 0 {
      ClipSame(fb.g, start, start, Nothing(), Outlined(coords, x, y), Trunc(fb.g.format, col));
      return;
    }
    var px1, py1 := coords[0], coords[1];
    var i := nPoly * 2 - 1;
    ghost var j: nat := 0;
    while i >= 0
      invariant j <= nPoly && i == 2 * (nPoly - j) - 1 && fb.Valid()
      invariant j < nPoly ==> px1 == EdgeAt(coords, j).px1 && py1 == EdgeAt(coords, j).py1
      invariant Painted(fb.g, start, fb.buf[..], Clip(fb.g, OutlineRegion(coords, x, y, j)), Trunc(fb.g.format, col))
    {
      var py2 := coords[i];
      var px2 := coords[i - 1];
      i := i - 2;
      ghost var before := fb.buf[..];
      Line(fb, x + px1, y + py1, x + px2, y + py2, col);
      ClipThen(fb.g, start, before, fb.buf[..], OutlineRegion(coords, x, y, j),
               Whole(x + px1, y + py1, x + px2, y + py2), Trunc(fb.g.format, col));
      OneMoreLine(coords, x, y, j);
      px1, py1 := px2, py2;
      j := j + 1;
    }
    ClipSame(fb.g, start, fb.buf[..], OutlineRegion(coords, x, y, nPoly), Outlined(coords, x, y),
             Trunc(fb.g.format, col));
  }

  lemma OneMoreLine(coords: seq<int>, x: int, y: int, j: nat)
    requires j < VertexCount(coords)
    ensures var e := EdgeAt(coords, j);
            OutlineRegion(coords, x, y, j + 1)
            == Or(OutlineRegion(coords, x, y, j), Whole(x + e.px1, y + e.py1, x + e.px2, y + e.py2))
  {
  }

  lemma NoLines(coords: seq<int>, x: int, y: int)
    ensures OutlineRegion(coords, x, y, 0) == Nothing()
  {
  }

  // ---- the rows left out have nothing in them

  lemma {:induction false} YRange(coords: seq<int>, n: nat)
    requires 0 < n <= VertexCount(coords)
    ensures forall i: nat :: i < n ==> MinY(coords, n) <= coords[2 * i + 1] <= MaxY(coords, n)
    ensures MinY(coords, n) <= MaxY(coords, n)
  {
    if n > 1 {
      YRange(coords, n - 1);
    }
  }

  lemma EdgeInRange(coords: seq<int>, j: nat)
    requires j < VertexCount(coords)
    ensures var e, n := EdgeAt(coords, j), VertexCount(coords);
            MinY(coords, n) <= e.py1 <= MaxY(coords, n) && MinY(coords, n) <= e.py2 <= MaxY(coords, n)
  {
    var n := VertexCount(coords);
    YRange(coords, n);
    var from, to: nat := if j == 0 then 0 else n - j, n - 1 - j;
    assert coords[2 * from + 1] == EdgeAt(coords, j).py1;
    assert coords[2 * to + 1] == EdgeAt(coords, j).py2;
  }

  lemma {:induction false} NothingOutside(coords: seq<int>, row: int, x: int, y: int, n: nat)
    requires 0 < VertexCount(coords) && n <= VertexCount(coords)
    requires row < MinY(coords, VertexCount(coords)) || row > MaxY(coords, VertexCount(coords))
    ensures Crossings(coords, row, n) == []
    ensures forall a, b :: !EdgesRegion(coords, row, x, y, n)(a, b)
  {
    hide MinY, MaxY, EdgeAt;
    if n > 0 {
      NothingOutside(coords, row, x, y, n - 1);
      EdgeInRange(coords, n - 1);
    }
  }

  // Restricting the fill to the vertical extent of the polygon leaves nothing out: a pixel is
  // painted exactly when some row, of all rows, paints it.
  lemma EveryRow(coords: seq<int>, x: int, y: int, a: int, b: int)
    requires VertexCount(coords) > 0
    ensures var n := VertexCount(coords);
            RowsRegion(coords, x, y, MinY(coords, n), MaxY(coords, n) - MinY(coords, n) + 1)(a, b)
            <==> exists row :: RowRegion(coords, row, x, y)(a, b)
  {
    hide RowRegion;
    var n := VertexCount(coords);
    var low, high := MinY(coords, n), MaxY(coords, n);
    YRange(coords, n);
    RowsUnfold(coords, x, y, low, high - low + 1, a, b);
    if exists row :: RowRegion(coords, row, x, y)(a, b) {
      var row :| RowRegion(coords, row, x, y)(a, b);
      if !(low <= row <= high) {
        EmptyRow(coords, row, x, y);
        assert false;
      }
    }
  }

  lemma EmptyRow(coords: seq<int>, row: int, x: int, y: int)
    requires 0 < VertexCount(coords)
    requires row < MinY(coords, VertexCount(coords)) || row > MaxY(coords, VertexCount(coords))
    ensures forall a, b :: !RowRegion(coords, row, x, y)(a, b)
  {
    hide EdgesRegion, Crossings;
    NothingOutside(coords, row, x, y, VertexCount(coords));
    forall c ensures !EvenOdd([], c) {
    }
  }

  lemma {:induction false} RowsUnfold(coords: seq<int>, x: int, y: int, low: int, count: nat, a: int, b: int)
    ensures RowsRegion(coords, x, y, low, count)(a, b)
            <==> exists row :: low <= row < low + count && RowRegion(coords, row, x, y)(a, b)
  {
    hide RowRegion;
    if count > 0 {
      RowsUnfold(coords, x, y, low, count - 1, a, b);
      if RowsRegion(coords, x, y, low, count)(a, b) && !RowsRegion(coords, x, y, low, count - 1)(a, b) {
        assert RowRegion(coords, low + count - 1, x, y)(a, b);
      }
    }
  }

  // ---- what the fill paints, from the vertices alone

  // The i-th side of the closed polygon, from the vertex after vertex i back to it.
  function Side(coords: seq<int>, i: nat): Edge
    requires i < VertexCount(coords)
  {
    var next := (i + 1) % VertexCount(coords);
    Edge(coords[2 * next], coords[2 * next + 1], coords[2 * i], coords[2 * i + 1])
  }

  lemma SidesAreEdges(coords: seq<int>, j: nat)
    requires j < VertexCount(coords)
    ensures EdgeAt(coords, j) == Side(coords, VertexCount(coords) - 1 - j)
  {
    if j > 0 {
      assert (VertexCount(coords) - j) % VertexCount(coords) == VertexCount(coords) - j;
    }
  }

  // A side with one end at or above the row and one below it meets the row.
  predicate Meets(e: Edge, row: int) {
    (e.py1 <= row < e.py2) || (e.py2 <= row < e.py1)
  }

  // How many of the sides from number `from` on meet the row at column c or left of it.
  function MetUpTo(coords: seq<int>, row: int, c: int, from: nat): nat
    requires from <= VertexCount(coords)
    decreases VertexCount(coords) - from
  {
    if from == VertexCount(coords) then 0
    else
      var e := Side(coords, from);
      MetUpTo(coords, row, c, from + 1) + if Meets(e, row) && Node(e, row) <= c then 1 else 0
  }

  predicate MetAt(coords: seq<int>, row: int, c: int, i: nat)
    requires i < VertexCount(coords)
  {
    Meets(Side(coords, i), row) && Node(Side(coords, i), row) == c
  }

  // A level side has all its pixels, and any other the pixel of its end with the greater y.
  predicate EndsAt(e: Edge, c: int, row: int) {
    if e.py1 == e.py2 then row == e.py1 && (e.px1 <= c <= e.px2 || e.px2 <= c <= e.px1)
    else if e.py1 < e.py2 then (c, row) == (e.px2, e.py2)
    else (c, row) == (e.px1, e.py1)
  }

  // Inside by the even-odd rule, or on a crossing, or an end of a side.
  ghost predicate FilledAt(coords: seq<int>, c: int, row: int) {
    || MetUpTo(coords, row, c, 0) % 2 == 1
    || (exists i: nat :: i < VertexCount(coords) && MetAt(coords, row, c, i))
    || (exists i: nat :: i < VertexCount(coords) && EndsAt(Side(coords, i), c, row))
  }

  ghost function Filled(coords: seq<int>, x: int, y: int): (int, int) -> bool {
    (a, b) => FilledAt(coords, a - x, b - y)
  }

  lemma MeetsIsCrosses(e: Edge, row: int)
    ensures Meets(e, row) <==> Crosses(e, row)
    ensures Crosses(e, row) ==> e.py1 != e.py2
  {
  }

  lemma {:induction false} CrossingsCount(coords: seq<int>, row: int, c: int, n: nat)
    requires n <= VertexCount(coords)
    ensures CountUpTo(Crossings(coords, row, n), c) == MetUpTo(coords, row, c, VertexCount(coords) - n)
    ensures c in Crossings(coords, row, n) <==>
            exists i: nat :: VertexCount(coords) - n <= i < VertexCount(coords) && MetAt(coords, row, c, i)
  {
    hide EdgeAt, Side, Node, Crosses, Meets;
    if n > 0 {
      var first := VertexCount(coords) - n;
      var e := Side(coords, first);
      CrossingsCount(coords, row, c, n - 1);
      SidesAreEdges(coords, n - 1);
      MeetsIsCrosses(e, row);
      var before := Crossings(coords, row, n - 1);
      if Crosses(e, row) {
        CountAppend(before, [Node(e, row)], c);
        assert [Node(e, row)][..0] == [];
        assert MetAt(coords, row, c, first) <==> Node(e, row) == c;
      } else {
        assert before + [] == before;
        assert !MetAt(coords, row, c, first);
      }
    }
  }

  lemma LevelLine(x1: int, x2: int, y: int)
    ensures forall a, b :: Whole(x1, y, x2, y)(a, b) <==> b == y && (x1 <= a <= x2 || x2 <= a <= x1)
  {
    var dx := Abs(x2 - x1);
    forall i: nat ensures Point(x1, y, x2, y, i) == (x1 + Sign(x2 - x1) * i, y) {
      if dx > 0 {
        DivMod(0, dx, 2 * dx);
        assert 2 * i * 0 == 0;
      }
    }
    forall a, b | b == y && (x1 <= a <= x2 || x2 <= a <= x1) ensures Whole(x1, y, x2, y)(a, b) {
      assert Point(x1, y, x2, y, Abs(a - x1)) == (a, b);
    }
  }

  lemma EndPixels(e: Edge, row: int, x: int, y: int, a: int, b: int)
    ensures EdgeRegion(e, row, x, y)(a, b) <==> EndsAt(e, a - x, b - y) && b == y + row
  {
    hide Whole;
    if e.py1 == e.py2 {
      LevelLine(x + e.px1, x + e.px2, y + e.py1);
    }
  }

  lemma {:induction false} EndsOfEdges(coords: seq<int>, row: int, x: int, y: int, n: nat, a: int, b: int)
    requires n <= VertexCount(coords)
    ensures EdgesRegion(coords, row, x, y, n)(a, b) <==>
            b == y + row
            && exists i: nat ::
                 VertexCount(coords) - n <= i < VertexCount(coords) && EndsAt(Side(coords, i), a - x, row)
  {
    hide EdgeAt, Side, EndsAt, EdgeRegion;
    if n > 0 {
      var first := VertexCount(coords) - n;
      EndsOfEdges(coords, row, x, y, n - 1, a, b);
      SidesAreEdges(coords, n - 1);
      EndPixels(Side(coords, first), row, x, y, a, b);
    }
  }

  // A row of the fill is painted exactly where the rule on the vertices says so.
  lemma RowExactly(coords: seq<int>, row: int, x: int, y: int, a: int, b: int)
    ensures RowRegion(coords, row, x, y)(a, b) <==> b == y + row && FilledAt(coords, a - x, b - y)
  {
    hide EdgesRegion, Crossings, EndsAt, MetAt, CountUpTo, MetUpTo;
    var n := VertexCount(coords);
    var found := Crossings(coords, row, n);
    EndsOfEdges(coords, row, x, y, n, a, b);
    CrossingsCount(coords, row, a - x, n);
    assert EvenOddRegion(found, x, y + row)(a, b) <==> b == y + row && EvenOdd(found, a - x);
    assert EvenOdd(found, a - x) <==> CountUpTo(found, a - x) % 2 == 1 || (a - x) in found;
  }

  // The whole fill: exactly the pixels inside by the even-odd rule, those of the crossings, the
  // lower ends of the sides, and all of every level side.
  lemma FillExactly(coords: seq<int>, x: int, y: int)
    requires VertexCount(coords) > 0
    ensures var n := VertexCount(coords);
            var rows := RowsRegion(coords, x, y, MinY(coords, n), MaxY(coords, n) - MinY(coords, n) + 1);
            forall a, b :: rows(a, b) <==> Filled(coords, x, y)(a, b)
  {
    hide RowRegion, RowsRegion, FilledAt, MinY, MaxY;
    var n := VertexCount(coords);
    YRange(coords, n);
    var rows := RowsRegion(coords, x, y, MinY(coords, n), MaxY(coords, n) - MinY(coords, n) + 1);
    forall a, b ensures rows(a, b) <==> Filled(coords, x, y)(a, b) {
      EveryRow(coords, x, y, a, b);
      RowExactly(coords, b - y, x, y, a, b);
      if rows(a, b) {
        var row :| RowRegion(coords, row, x, y)(a, b);
        RowExactly(coords, row, x, y, a, b);
      }
    }
  }

  ghost predicate OnSide(coords: seq<int>, x: int, y: int, i: nat, a: int, b: int)
    requires i < VertexCount(coords)
  {
    var e := Side(coords, i);
    Whole(x + e.px1, y + e.py1, x + e.px2, y + e.py2)(a, b)
  }

  ghost function Outlined(coords: seq<int>, x: int, y: int): (int, int) -> bool {
    (a, b) => exists i: nat :: i < VertexCount(coords) && OnSide(coords, x, y, i, a, b)
  }

  lemma {:induction false} OnFirstSides(coords: seq<int>, x: int, y: int, n: nat, a: int, b: int)
    requires n <= VertexCount(coords)
    ensures OutlineRegion(coords, x, y, n)(a, b) <==>
            exists i: nat :: VertexCount(coords) - n <= i < VertexCount(coords) && OnSide(coords, x, y, i, a, b)
  {
    hide EdgeAt, Side, Whole;
    if n > 0 {
      OnFirstSides(coords, x, y, n - 1, a, b);
      SidesAreEdges(coords, n - 1);
      assert OutlineRegion(coords, x, y, n)(a, b) <==>
             OutlineRegion(coords, x, y, n - 1)(a, b) || OnSide(coords, x, y, VertexCount(coords) - n, a, b);
    }
  }

  // The outline: exactly the pixels of the lines along the sides.
  lemma OutlineExactly(coords: seq<int>, x: int, y: int)
    ensures forall a, b :: OutlineRegion(coords, x, y, VertexCount(coords))(a, b) <==> Outlined(coords, x, y)(a, b)
  {
    hide OutlineRegion, OnSide;
    forall a, b ensures OutlineRegion(coords, x, y, VertexCount(coords))(a, b) <==> Outlined(coords, x, y)(a, b) {
      OnFirstSides(coords, x, y, VertexCount(coords), a, b);
    }
  }

  // The square of 0 to 4: the pixels of its bottom row, which no crossing gives.
  lemma SquareBottom(c: int)
    ensures var coords := [0, 0, 4, 0, 4, 4, 0, 4];
            FilledAt(coords, c, 4) <==> 0 <= c <= 4
  {
    hide Side, MetAt;
    var coords := [0, 0, 4, 0, 4, 4, 0, 4];
    SquareSides();
    forall i: nat | i < 4 ensures !Meets(Side(coords, i), 4) {
    }
    NoneMet(coords, 4, c, 0);
    assert EndsAt(Side(coords, 2), c, 4) <==> 0 <= c <= 4;
  }

  lemma SquareSides()
    ensures var coords := [0, 0, 4, 0, 4, 4, 0, 4];
            && VertexCount(coords) == 4
            && Side(coords, 0) == Edge(4, 0, 0, 0) && Side(coords, 1) == Edge(4, 4, 4, 0)
            && Side(coords, 2) == Edge(0, 4, 4, 4) && Side(coords, 3) == Edge(0, 0, 0, 4)
  {
  }

  lemma {:induction false} NoneMet(coords: seq<int>, row: int, c: int, from: nat)
    requires from <= VertexCount(coords) && forall i: nat :: i < VertexCount(coords) ==> !Meets(Side(coords, i), row)
    ensures MetUpTo(coords, row, c, from) == 0
    ensures forall i: nat :: i < VertexCount(coords) ==> !MetAt(coords, row, c, i)
    decreases VertexCount(coords) - from
  {
    hide Side, Node;
    if from < VertexCount(coords) {
      NoneMet(coords, row, c, from + 1);
    }
  }
}
