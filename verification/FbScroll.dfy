/** Scrolling in place: every pixel is read before it is overwritten. */
module FbScroll {
  import opened Arith
  import opened FbLayout
  import opened FrameBuffers

  // The colour at (x, y), or any value outside the picture.
  ghost function ColourAt(g: Geometry, units: seq<int>, x: int, y: int): int {
    if g.Contains(x, y) && g.UnitAt(x, y) < |units| then Look(g, units, x, y) else 0
  }

  // The pixels of the region have the colour their source had; all other fields are as before.
  ghost predicate Shifted(g: Geometry, before: seq<int>, after: seq<int>, region: (int, int) -> bool,
                          xstep: int, ystep: int)
    requires g.Valid()
  {
    && |before| == |after|
    && forall u: nat, k: nat :: u < |after| && k < PerUnit(g.format) ==>
         GetField(g.format, after[u], k) ==
         if region(g.PixelX(u, k), g.PixelY(u, k))
         then ColourAt(g, before, g.PixelX(u, k) - xstep, g.PixelY(u, k) - ystep)
         else GetField(g.format, before[u], k)
  }

  // The pixels whose source is in the picture.
  ghost function HasSource(g: Geometry, xstep: int, ystep: int): (int, int) -> bool {
    (a, b) => 0 <= a < g.width && 0 <= b < g.height && 0 <= a - xstep < g.width && 0 <= b - ystep < g.height
  }

  lemma ShiftedNone(g: Geometry, units: seq<int>, region: (int, int) -> bool, xstep: int, ystep: int)
    requires g.Valid() && forall a, b :: !region(a, b)
    ensures Shifted(g, units, units, region, xstep, ystep)
  {
  }

  lemma ShiftedSame(g: Geometry, s0: seq<int>, s1: seq<int>, r: (int, int) -> bool, r': (int, int) -> bool,
                    xstep: int, ystep: int)
    requires g.Valid() && Shifted(g, s0, s1, r, xstep, ystep)
    requires forall a, b :: r'(a, b) <==> r(a, b)
    ensures Shifted(g, s0, s1, r', xstep, ystep)
  {
  }

  // A pixel outside the shifted region still has its old colour.
  lemma StillThere(g: Geometry, s0: seq<int>, s1: seq<int>, r: (int, int) -> bool, xstep: int, ystep: int,
                   x: nat, y: nat)
    requires g.Valid() && Shifted(g, s0, s1, r, xstep, ystep)
    requires g.Contains(x, y) && g.UnitAt(x, y) < |s1| && !r(x, y)
    ensures Look(g, s1, x, y) == ColourAt(g, s0, x, y)
  {
    AddressOfPixel(g, x, y);
  }

  // Copying the source of a pixel, not yet overwritten, onto it.
  lemma ShiftedStep(g: Geometry, s0: seq<int>, s1: seq<int>, s2: seq<int>, r: (int, int) -> bool,
                    r': (int, int) -> bool, xstep: int, ystep: int, x: nat, y: nat)
    requires g.Valid() && Shifted(g, s0, s1, r, xstep, ystep) && g.Contains(x, y)
    requires Painted(g, s1, s2, Only(x, y), ColourAt(g, s0, x - xstep, y - ystep))
    requires forall a, b :: r'(a, b) <==> r(a, b) || Only(x, y)(a, b)
    ensures Shifted(g, s0, s2, r', xstep, ystep)
  {
    hide ColourAt;
  }

  lemma StoredColour(g: Geometry, units: seq<int>, x: nat, y: nat)
    requires IsBuffer(g, units) && g.UnitAt(x, y) < |units|
    ensures var v := Look(g, units, x, y); 0 <= v && Trunc(g.format, v) == v
  {
    SomeColours(g.format, units[g.UnitAt(x, y)], g.SlotAt(x, y));
  }

  lemma SomeColours(f: Format, unit: int, k: nat)
    requires k < PerUnit(f)
    ensures 0 <= GetField(f, unit, k) < Colours(f)
  {
  }

  const WRAP := 0x1_0000_0000

  ghost function And(r: (int, int) -> bool, s: (int, int) -> bool): (int, int) -> bool {
    (a, b) => r(a, b) && s(a, b)
  }

  ghost function RowsBefore(row: int, dy: int): (int, int) -> bool {
    (a, b) => if dy == 1 then b < row else b > row
  }

  ghost function CellsBefore(row: int, dy: int, col: int, dx: int): (int, int) -> bool {
    (a, b) => (if dy == 1 then b < row else b > row) || (b == row && (if dx == 1 then a < col else a > col))
  }

  // What has been moved when row `row` is next, and when cell `col` of it is next.
  ghost function Rows(g: Geometry, xstep: int, ystep: int, row: int, dy: int): (int, int) -> bool {
    And(HasSource(g, xstep, ystep), RowsBefore(row, dy))
  }

  ghost function Cells(g: Geometry, xstep: int, ystep: int, row: int, dy: int, col: int, dx: int): (int, int) -> bool {
    And(HasSource(g, xstep, ystep), CellsBefore(row, dy, col, dx))
  }

  lemma WrapStep(a: int, d: int)
    ensures (a % WRAP + d) % WRAP == (a + d) % WRAP
  {
    Fundamental(a, WRAP);
    Fundamental(a % WRAP + d, WRAP);
    DivMod(a / WRAP + (a % WRAP + d) / WRAP, (a % WRAP + d) % WRAP, WRAP);
  }

  lemma WrapSame(a: int)
    requires 0 <= a < WRAP
    ensures a % WRAP == a
  {
  }

  // The body of the loops.
  method MovePixel(fb: FrameBuffer, x: nat, y: nat, xstep: int, ystep: int, ghost start: seq<int>,
                   ghost r: (int, int) -> bool, ghost r': (int, int) -> bool)
    requires fb.Valid() && fb.g.Contains(x, y) && fb.g.Contains(x - xstep, y - ystep)
    requires Shifted(fb.g, start, fb.buf[..], r, xstep, ystep) && !r(x - xstep, y - ystep)
    requires forall a, b :: r'(a, b) <==> r(a, b) || Only(x, y)(a, b)
    modifies fb.buf
    ensures fb.Valid() && Shifted(fb.g, start, fb.buf[..], r', xstep, ystep)
  {
    hide Shifted, Painted, IsBuffer, Look, ColourAt;
    ghost var before := fb.buf[..];
    var colour := fb.GetPixel(x - xstep, y - ystep);
    StillThere(fb.g, start, before, r, xstep, ystep, x - xstep, y - ystep);
    StoredColour(fb.g, before, x - xstep, y - ystep);
    fb.SetPixel(x, y, colour);
    ShiftedStep(fb.g, start, before, fb.buf[..], r, r', xstep, ystep, x, y);
  }

  // One row, in an order in which no source has been overwritten.
  method ScrollRow(fb: FrameBuffer, xstep: int, ystep: int, y: nat, dy: int, sx: nat, xend: int, dx: int,
                   ghost start: seq<int>)
    requires fb.Valid() && |start| == fb.buf.Length && fb.g.width < WRAP / 2
    requires if xstep < 0 then sx == 0 && xend == fb.g.width + xstep && dx == 1
             else sx == fb.g.width - 1 && xend == (xstep - 1) % WRAP && dx == -1
    requires -(fb.g.width as int) < xstep < fb.g.width && 0 <= y < fb.g.height && 0 <= y - ystep < fb.g.height
    requires dy == if ystep < 0 then 1 else -1
    requires Shifted(fb.g, start, fb.buf[..], Rows(fb.g, xstep, ystep, y, dy), xstep, ystep)
    modifies fb.buf
    ensures fb.Valid()
    ensures Shifted(fb.g, start, fb.buf[..], Rows(fb.g, xstep, ystep, y + dy, dy), xstep, ystep)
  {
    hide Shifted, Painted, IsBuffer, Look, ColourAt;
    var g := fb.g;
    var x := sx;
    ghost var col := sx;
    ShiftedSame(g, start, fb.buf[..], Rows(g, xstep, ystep, y, dy),
                Cells(g, xstep, ystep, y, dy, col, dx), xstep, ystep);
    while x != xend
      invariant fb.Valid() && x == col % WRAP
      invariant if dx == 1 then 0 <= col <= xend else xstep - 1 <= col < g.width
      invariant Shifted(g, start, fb.buf[..], Cells(g, xstep, ystep, y, dy, col, dx), xstep, ystep)
      decreases if dx == 1 then xend - col else col + 1
    {
      WrapSame(if col < 0 then 0 else col);
      MovePixel(fb, x, y, xstep, ystep, start, Cells(g, xstep, ystep, y, dy, col, dx),
                Cells(g, xstep, ystep, y, dy, col + dx, dx));
      WrapStep(col, dx);
      x := (x + dx) % WRAP;
      col := col + dx;
    }
    ShiftedSame(g, start, fb.buf[..], Cells(g, xstep, ystep, y, dy, col, dx),
                Rows(g, xstep, ystep, y + dy, dy), xstep, ystep);
  }

  // framebuf_scroll: the same as moving a copy of the picture, for any steps.
  method Scroll(fb: FrameBuffer, xstep: int, ystep: int)
    requires fb.Valid() && fb.g.width <= 0xffff && fb.g.height <= 0xffff
    modifies fb.buf
    ensures fb.Valid()
    ensures Shifted(fb.g, old(fb.buf[..]), fb.buf[..], HasSource(fb.g, xstep, ystep), xstep, ystep)
  {
    hide Shifted, IsBuffer;
    var g := fb.g;
    ghost var start := fb.buf[..];
    var sx, y, xend, yend;
    var dx, dy;
    if xstep < 0 {
      if -xstep >= g.width {
        ShiftedNone(g, start, HasSource(g, xstep, ystep), xstep, ystep);
        return;
      }
      sx, xend, dx := 0, g.width + xstep, 1;
    } else {
      if xstep >= g.width {
        ShiftedNone(g, start, HasSource(g, xstep, ystep), xstep, ystep);
        return;
      }
      sx, xend, dx := g.width - 1, (xstep - 1) % WRAP, -1;
    }
    if ystep < 0 {
      if -ystep >= g.height {
        ShiftedNone(g, start, HasSource(g, xstep, ystep), xstep, ystep);
        return;
      }
      y, yend, dy := 0, g.height + ystep, 1;
    } else {
      if ystep >= g.height {
        ShiftedNone(g, start, HasSource(g, xstep, ystep), xstep, ystep);
        return;
      }
      y, yend, dy := g.height - 1, (ystep - 1) % WRAP, -1;
    }
    ghost var row := y;
    ShiftedNone(g, start, Rows(g, xstep, ystep, row, dy), xstep, ystep);
    while y != yend
      invariant fb.Valid() && y == row % WRAP
      invariant if dy == 1 then 0 <= row <= yend else ystep - 1 <= row < g.height
      invariant Shifted(g, start, fb.buf[..], Rows(g, xstep, ystep, row, dy), xstep, ystep)
      decreases if dy == 1 then yend - row else row + 1
    {
      ScrollRow(fb, xstep, ystep, y, dy, sx, xend, dx, start);
      WrapStep(row, dy);
      y := (y + dy) % WRAP;
      row := row + dy;
    }
    ShiftedSame(g, start, fb.buf[..], Rows(g, xstep, ystep, row, dy), HasSource(g, xstep, ystep), xstep, ystep);
  }

  // In terms of pixels.
  lemma ScrolledPixel(g: Geometry, before: seq<int>, after: seq<int>, xstep: int, ystep: int, x: nat, y: nat)
    requires g.Valid() && g.Contains(x, y) && g.UnitAt(x, y) < |after|
    requires Shifted(g, before, after, HasSource(g, xstep, ystep), xstep, ystep)
    ensures Look(g, after, x, y) ==
            if g.Contains(x - xstep, y - ystep) then ColourAt(g, before, x - xstep, y - ystep)
            else ColourAt(g, before, x, y)
  {
    AddressOfPixel(g, x, y);
  }
}
