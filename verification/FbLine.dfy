/** Integer line drawing: the pixels are the exact line rounded to the nearest, in closed form. */
module FbLine {
  import opened Arith
  import opened FbLayout
  import opened FrameBuffers

  function Sign(a: int): int {
    if a > 0 then 1 else -1
  }

  // The long and the short side of the box the line crosses.
  function Major(x1: int, y1: int, x2: int, y2: int): nat {
    if Abs(y2 - y1) > Abs(x2 - x1) then Abs(y2 - y1) else Abs(x2 - x1)
  }

  function Minor(x1: int, y1: int, x2: int, y2: int): nat {
    if Abs(y2 - y1) > Abs(x2 - x1) then Abs(x2 - x1) else Abs(y2 - y1)
  }

  // How far the line has gone along its short side after i steps along its long side: i * dy / dx
  // rounded to the nearest, halves up.
  function MinorAt(i: nat, dx: nat, dy: nat): int {
    if dx == 0 then 0 else (2 * i * dy + dx) / (2 * dx)
  }

  function Point(x1: int, y1: int, x2: int, y2: int, i: nat): (int, int) {
    var m := MinorAt(i, Major(x1, y1, x2, y2), Minor(x1, y1, x2, y2));
    if Abs(y2 - y1) > Abs(x2 - x1) then (x1 + Sign(x2 - x1) * m, y1 + Sign(y2 - y1) * i)
    else (x1 + Sign(x2 - x1) * i, y1 + Sign(y2 - y1) * m)
  }

  // The first n points of the line.
  ghost function Points(x1: int, y1: int, x2: int, y2: int, n: nat): (int, int) -> bool {
    (a, b) => exists i: nat :: i < n && Point(x1, y1, x2, y2, i) == (a, b)
  }

  ghost function Whole(x1: int, y1: int, x2: int, y2: int): (int, int) -> bool {
    Points(x1, y1, x2, y2, Major(x1, y1, x2, y2) + 1)
  }

  // Within half a pixel of the exact line, and half a pixel off only forward.
  lemma NearLine(i: nat, dx: nat, dy: nat)
    requires dx > 0
    ensures -(dx as int) < 2 * MinorAt(i, dx, dy) * dx - 2 * i * dy <= dx
  {
    Fundamental(2 * i * dy + dx, 2 * dx);
    Associate(MinorAt(i, dx, dy), 2, dx);
  }

  // The error term determines the position.
  lemma ErrorTerm(m: int, i: nat, dx: nat, dy: nat)
    requires dx > 0 && -2 * dx <= Error(i, m, dx, dy) < 0
    ensures m == MinorAt(i, dx, dy)
  {
    Associate(m, 2, dx);
    DivMod(m, 2 * i * dy - dx - 2 * m * dx + 2 * dx, 2 * dx);
  }

  // One step along the long side moves at most one along the short side, and not back.
  lemma OneStep(i: nat, dx: nat, dy: nat)
    requires dx > 0 && dy <= dx
    ensures MinorAt(i, dx, dy) <= MinorAt(i + 1, dx, dy) <= MinorAt(i, dx, dy) + 1
  {
    var a, b := 2 * i * dy + dx, 2 * (i + 1) * dy + dx;
    assert b == a + 2 * dy by { Distribute(2 * i, 2, dy); }
    Fundamental(a, 2 * dx);
    var q, r := a / (2 * dx), a % (2 * dx);
    if r + 2 * dy < 2 * dx {
      DivMod(q, r + 2 * dy, 2 * dx);
    } else {
      Distribute(q, 1, 2 * dx);
      DivMod(q + 1, r + 2 * dy - 2 * dx, 2 * dx);
    }
  }

  // The line starts at its first point and ends at its last.
  lemma EndPoints(x1: int, y1: int, x2: int, y2: int)
    ensures Point(x1, y1, x2, y2, 0) == (x1, y1)
    ensures Point(x1, y1, x2, y2, Major(x1, y1, x2, y2)) == (x2, y2)
  {
    var dx, dy := Major(x1, y1, x2, y2), Minor(x1, y1, x2, y2);
    if dx > 0 {
      assert MinorAt(0, dx, dy) == 0 by { DivMod(0, dx, 2 * dx); }
      assert MinorAt(dx, dx, dy) == dy by {
        assert 2 * dx * dy == dy * (2 * dx);
        DivMod(dy, dx, 2 * dx);
      }
    }
  }

  // In every octant the points follow one another by single steps.
  lemma Connected(x1: int, y1: int, x2: int, y2: int, i: nat)
    requires i < Major(x1, y1, x2, y2)
    ensures var p, q := Point(x1, y1, x2, y2, i), Point(x1, y1, x2, y2, i + 1);
            Abs(p.0 - q.0) <= 1 && Abs(p.1 - q.1) <= 1 && p != q
  {
    OneStep(i, Major(x1, y1, x2, y2), Minor(x1, y1, x2, y2));
  }

  lemma PointsGrow(g: Geometry, x1: int, y1: int, x2: int, y2: int, n: nat)
    ensures var p := Point(x1, y1, x2, y2, n);
            forall a, b :: Clip(g, Points(x1, y1, x2, y2, n + 1))(a, b) <==>
                           Clip(g, Points(x1, y1, x2, y2, n))(a, b) || Clip(g, Only(p.0, p.1))(a, b)
  {
    var p := Point(x1, y1, x2, y2, n);
    forall a, b
      ensures Points(x1, y1, x2, y2, n + 1)(a, b) <==> Points(x1, y1, x2, y2, n)(a, b) || Only(p.0, p.1)(a, b)
    {
      if Points(x1, y1, x2, y2, n + 1)(a, b) {
        var i: nat :| i < n + 1 && Point(x1, y1, x2, y2, i) == (a, b);
        assert i < n || i == n;
      }
      if Points(x1, y1, x2, y2, n)(a, b) {
        var i: nat :| i < n && Point(x1, y1, x2, y2, i) == (a, b);
        assert i < n + 1;
      }
    }
  }

  // One more point of the line.
  method PlotPoint(fb: FrameBuffer, px: int, py: int, col: nat, ghost start: seq<int>,
                   ghost x1: int, ghost y1: int, ghost x2: int, ghost y2: int, ghost n: nat)
    requires fb.Valid() && (px, py) == Point(x1, y1, x2, y2, n)
    requires Painted(fb.g, start, fb.buf[..], Clip(fb.g, Points(x1, y1, x2, y2, n)), Trunc(fb.g.format, col))
    modifies fb.buf
    ensures fb.Valid()
    ensures Painted(fb.g, start, fb.buf[..], Clip(fb.g, Points(x1, y1, x2, y2, n + 1)), Trunc(fb.g.format, col))
  {
    hide Painted, IsBuffer, Trunc, Points, Clip, Point;
    ghost var before := fb.buf[..];
    fb.SetPixelChecked(px, py, col);
    PointsGrow(fb.g, x1, y1, x2, y2, n);
    PaintedThen(fb.g, start, before, fb.buf[..], Clip(fb.g, Points(x1, y1, x2, y2, n)), Clip(fb.g, Only(px, py)),
                Clip(fb.g, Points(x1, y1, x2, y2, n + 1)), Trunc(fb.g.format, col));
  }

  // What `e` is when the pixel of step i - 1 is m along the short side.
  function Error(i: int, m: int, dx: int, dy: int): int {
    2 * i * dy - dx - 2 * m * dx
  }

  lemma ErrorGrows(i: int, m: int, dx: int, dy: int)
    ensures Error(i + 1, m, dx, dy) == Error(i, m, dx, dy) + 2 * dy
    ensures Error(i, m + 1, dx, dy) == Error(i, m, dx, dy) - 2 * dx
  {
    Distribute(2 * i, 2, dy);
    Distribute(2 * m, 2, dx);
  }

  // The inner loop of step i: it runs once if the line moves along its short side and not at
  // all otherwise.
  method MinorSteps(e0: int, y0: int, sy: int, i: nat, dx: nat, dy: nat) returns (e: int, y: int)
    requires 0 < dx && dy <= dx && e0 == Error(i + 1, MinorAt(i, dx, dy), dx, dy)
    ensures y == y0 + sy * (MinorAt(i + 1, dx, dy) - MinorAt(i, dx, dy))
    ensures e == Error(i + 1, MinorAt(i + 1, dx, dy), dx, dy)
    ensures 0 <= MinorAt(i + 1, dx, dy) - MinorAt(i, dx, dy) <= 1
  {
    hide MinorAt, Error;
    e, y := e0, y0;
    ghost var m0 := MinorAt(i, dx, dy);
    ghost var steps := 0;
    StepError(i, dx, dy, m0);
    while e >= 0
      invariant e == Error(i + 1, m0 + steps, dx, dy) && -2 * dx <= e < 2 * dx
      invariant y == y0 + sy * steps
      invariant steps == 0 || (steps == 1 && e < 0)
      decreases e
    {
      ErrorGrows(i + 1, m0 + steps, dx, dy);
      y := y + sy;
      e := e - 2 * dx;
      steps := steps + 1;
    }
    ErrorTerm(m0 + steps, i + 1, dx, dy);
  }

  // The points in terms of the walk: x runs along the long side.
  lemma PointOfWalk(x1: int, y1: int, x2: int, y2: int, i: nat)
    ensures var steep := Abs(y2 - y1) > Abs(x2 - x1);
            var m := MinorAt(i, Major(x1, y1, x2, y2), Minor(x1, y1, x2, y2));
            Point(x1, y1, x2, y2, i) ==
            if steep then (x1 + Sign(x2 - x1) * m, y1 + Sign(y2 - y1) * i)
            else (x1 + Sign(x2 - x1) * i, y1 + Sign(y2 - y1) * m)
  {
  }

  // The loop over the long side.
  method Walk(fb: FrameBuffer, x0: int, y0: int, sx: int, sy: int, dx: nat, dy: nat, steep: bool, col: nat,
              ghost start: seq<int>, ghost x1: int, ghost y1: int, ghost x2: int, ghost y2: int)
    requires fb.Valid() && dy <= dx
    requires steep == (Abs(y2 - y1) > Abs(x2 - x1)) && dx == Major(x1, y1, x2, y2) && dy == Minor(x1, y1, x2, y2)
    requires if steep then x0 == y1 && y0 == x1 && sx == Sign(y2 - y1) && sy == Sign(x2 - x1)
             else x0 == x1 && y0 == y1 && sx == Sign(x2 - x1) && sy == Sign(y2 - y1)
    requires fb.buf[..] == start
    modifies fb.buf
    ensures fb.Valid()
    ensures Painted(fb.g, start, fb.buf[..], Clip(fb.g, Points(x1, y1, x2, y2, dx)), Trunc(fb.g.format, col))
  {
    hide Painted, IsBuffer, Trunc, Points, Clip, MinorAt, Error, Point, Major, Minor, Abs, Sign;
    var x, y := x0, y0;
    var e := 2 * dy - dx;
    NoPoints(fb.g, start, x1, y1, x2, y2, Trunc(fb.g.format, col));
    AtStart(dx, dy);
    ErrorAtStart(dx, dy);
    for i := 0 to dx
      invariant fb.Valid()
      invariant Painted(fb.g, start, fb.buf[..], Clip(fb.g, Points(x1, y1, x2, y2, i)), Trunc(fb.g.format, col))
      invariant x == x0 + sx * i && y == y0 + sy * MinorAt(i, dx, dy)
      invariant e == Error(i + 1, MinorAt(i, dx, dy), dx, dy)
    {
      PointOfWalk(x1, y1, x2, y2, i);
      PlotPoint(fb, if steep then y else x, if steep then x else y, col, start, x1, y1, x2, y2, i);
      e, y := MinorSteps(e, y, sy, i, dx, dy);
      x := x + sx;
      e := e + 2 * dy;
      ErrorGrows(i + 1, MinorAt(i + 1, dx, dy), dx, dy);
    }
  }

  // line
  method Line(fb: FrameBuffer, x1: int, y1: int, x2: int, y2: int, col: nat)
    requires fb.Valid()
    modifies fb.buf
    ensures fb.Valid()
    ensures Painted(fb.g, old(fb.buf[..]), fb.buf[..], Clip(fb.g, Whole(x1, y1, x2, y2)), Trunc(fb.g.format, col))
  {
    hide Painted, IsBuffer, Trunc, Points, Clip, MinorAt, Point;
    ghost var start := fb.buf[..];
    var dx := x2 - x1;
    var sx := 1;
    if dx <= 0 {
      dx, sx := -dx, -1;
    }
    var dy := y2 - y1;
    var sy := 1;
    if dy <= 0 {
      dy, sy := -dy, -1;
    }
    var x, y := x1, y1;
    var steep := dy > dx;
    if steep {
      x, y := y, x;
      dx, dy := dy, dx;
      sx, sy := sy, sx;
    }
    Walk(fb, x, y, sx, sy, dx, dy, steep, col, start, x1, y1, x2, y2);
    EndPoints(x1, y1, x2, y2);
    PlotPoint(fb, x2, y2, col, start, x1, y1, x2, y2, dx);
  }

  lemma NoPoints(g: Geometry, start: seq<int>, x1: int, y1: int, x2: int, y2: int, v: int)
    requires g.Valid()
    ensures Painted(g, start, start, Clip(g, Points(x1, y1, x2, y2, 0)), v)
  {
  }

  lemma AtStart(dx: nat, dy: nat)
    ensures MinorAt(0, dx, dy) == 0
  {
    if dx > 0 {
      DivMod(0, dx, 2 * dx);
    }
  }

  lemma ErrorAtStart(dx: int, dy: int)
    ensures Error(1, 0, dx, dy) == 2 * dy - dx
  {
  }

  // The error term stays within one step of zero.
  lemma StepError(i: nat, dx: nat, dy: nat, m: int)
    requires dx > 0 && dy <= dx && m == MinorAt(i, dx, dy)
    ensures -2 * dx <= Error(i + 1, m, dx, dy) < 2 * dx
  {
    Fundamental(2 * i * dy + dx, 2 * dx);
    Associate(m, 2, dx);
    Distribute(2 * i, 2, dy);
  }
}
