/**
  The frame buffer: single pixels, and the rectangle fill of each format, which must paint what
  a double loop over single pixels paints.
 */
module FrameBuffers {
  import opened Arith
  import opened FbLayout
  import opened Wrappers

  // Pixels x <= a < x + w, y <= b < y + h.
  ghost function Rect(x: int, y: int, w: int, h: int): (int, int) -> bool {
    (a, b) => x <= a < x + w && y <= b < y + h
  }

  ghost function Or(r: (int, int) -> bool, s: (int, int) -> bool): (int, int) -> bool {
    (a, b) => r(a, b) || s(a, b)
  }

  // Where the pixels of a row are, in units from the start of the buffer.
  lemma UnitInRow(g: Geometry, x: nat, y: nat)
    requires g.Valid() && !g.format.MVLSB?
    ensures g.UnitAt(x, y) == x / PerUnit(g.format) + y * (g.stride / PerUnit(g.format))
  {
    RowMultiple(x, y, g.stride, PerUnit(g.format));
  }

  // What is left of a region inside the picture.
  ghost function Clip(g: Geometry, r: (int, int) -> bool): (int, int) -> bool {
    (a, b) => r(a, b) && 0 <= a < g.width && 0 <= b < g.height
  }

  lemma NextPair(g: Geometry, x: nat, i: nat, y: nat)
    requires g.Valid() && g.format.GS4_HMSB?
    ensures g.UnitAt(x + 2 * i, y) == g.UnitAt(x, y) + i
    ensures x % 2 == 1 ==> g.UnitAt(x + 1, y) == g.UnitAt(x, y) + 1
  {
    UnitInRow(g, x, y);
    UnitInRow(g, x + 1, y);
    UnitInRow(g, x + 2 * i, y);
  }

  // A byte holds a pair of nibbles; writing it whole is writing both.
  lemma PairOfNibbles(byte: int, v: int)
    requires IsUnit(GS4_HMSB, byte) && 0 <= v < 16
    ensures SetField(GS4_HMSB, SetField(GS4_HMSB, byte, 0, v), 1, v) == 16 * v + v
  {
    var first := SetField(GS4_HMSB, byte, 0, v);
    assert first == 16 * v + byte % 16;
  }

  lemma PairPainted(g: Geometry, units: seq<int>, x: nat, y: nat, v: int)
    requires g.Valid() && g.format.GS4_HMSB? && IsBuffer(g, units) && x % 2 == 0 && x + 1 < g.stride
    requires g.UnitAt(x, y) < |units| && 0 <= v < 16
    ensures g.UnitAt(x + 1, y) == g.UnitAt(x, y)
    ensures var one := SetAt(g, units, x, y, v);
            var two := SetAt(g, one, x + 1, y, v);
            && IsBuffer(g, two) && two == units[g.UnitAt(x, y) := 16 * v + v]
            && Painted(g, units, one, Only(x, y), v) && Painted(g, one, two, Only(x + 1, y), v)
  {
    hide Painted, SetField, GetField;
    UnitInRow(g, x, y);
    UnitInRow(g, x + 1, y);
    PixelPainted(g, units, x, y, v);
    PixelPainted(g, SetAt(g, units, x, y, v), x + 1, y, v);
    PairOfNibbles(units[g.UnitAt(x, y)], v);
  }

  class FrameBuffer {
    const g: Geometry
    const buf: array<int>

    ghost predicate Valid()
      reads buf
    {
      && g.Valid()
      && IsBuffer(g, buf[..])
      && forall x: nat, y: nat :: g.Contains(x, y) ==> g.UnitAt(x, y) < buf.Length
    }

    constructor (g: Geometry, buf: array<int>)
      ensures this.g == g && this.buf == buf
    {
      this.g, this.buf := g, buf;
    }

    // framebuf_make_new on a buffer of `len` bytes: None where it raises ValueError.
    static method MakeNew(buf: array<int>, width: int, height: int, code: int, stride: int, len: nat)
        returns (r: Option<FrameBuffer>)
      requires forall f :: FormatOf(code) == Some(f) ==>
                 buf.Length == UnitCount(f, len) && forall u :: 0 <= u < buf.Length ==> IsUnit(f, buf[u])
      ensures r.Some? <==> CheckedGeometry(width, height, code, stride, len).Some?
      ensures r.Some? ==>
                && Some(r.value.g) == CheckedGeometry(width, height, code, stride, len) && r.value.buf == buf
                && (RoundedStride(r.value.g.format, stride) <= 0xffff ==>
                      (r.value.Valid() <==> BytesRequired(r.value.g.format, width, height, stride) <= len))
                && (BitsFit(r.value.g.format, width, height, stride) ==>
                      BytesRequired(r.value.g.format, width, height, stride) <= len)
    {
      hide BytesRequired, BytesChecked, BitsFit, RoundedStride;
      match CheckedGeometry(width, height, code, stride, len) {
        case None => r := None;
        case Some(g) =>
          var fb := new FrameBuffer(g, buf);
          StrideWraps(width, height, code, stride, len);
          InsideExactly(width, height, code, stride, len);
          r := Some(fb);
      }
    }

    // Writes the field of pixel (x, y), found at unit u, and adds the pixel to the painted region.
    method Put(u: nat, x: nat, y: nat, v: int, ghost start: seq<int>, ghost r: (int, int) -> bool,
               ghost r': (int, int) -> bool)
      requires Valid() && g.Contains(x, y) && u == g.UnitAt(x, y) && 0 <= v < Colours(g.format)
      requires Painted(g, start, buf[..], r, v) && forall a, b :: r'(a, b) <==> r(a, b) || Only(x, y)(a, b)
      modifies buf
      ensures Valid() && Painted(g, start, buf[..], r', v)
      ensures buf[..] == SetAt(g, old(buf[..]), x, y, v)
    {
      hide Painted, IsBuffer, GetField, Colours;
      PixelPainted(g, buf[..], x, y, v);
      PaintedThen(g, start, buf[..], SetAt(g, buf[..], x, y, v), r, Only(x, y), r', v);
      buf[u] := SetField(g.format, buf[u], g.SlotAt(x, y), v);
    }

    // setpixel
    method SetPixel(x: nat, y: nat, col: nat)
      requires Valid() && g.Contains(x, y)
      modifies buf
      ensures Valid() && buf[..] == SetAt(g, old(buf[..]), x, y, Trunc(g.format, col))
      ensures Painted(g, old(buf[..]), buf[..], Only(x, y), Trunc(g.format, col))
    {
      hide Painted, IsBuffer, SetField, Colours;
      ghost var none := (a, b) => false;
      PaintedNone(g, buf[..], none, Trunc(g.format, col));
      Put(g.UnitAt(x, y), x, y, Trunc(g.format, col), buf[..], none, Only(x, y));
    }

    // getpixel
    method GetPixel(x: nat, y: nat) returns (col: int)
      requires Valid() && g.Contains(x, y)
      ensures col == Look(g, buf[..], x, y)
    {
      col := GetField(g.format, buf[g.UnitAt(x, y)], g.SlotAt(x, y));
    }

    // mono_horiz_fill_rect: column by column
    method MonoHorizFill(x: nat, y: nat, w: nat, h: nat, col: nat)
      requires Valid() && (g.format.MHLSB? || g.format.MHMSB?) && x + w <= g.width && y + h <= g.height
      modifies buf
      ensures Valid() && Painted(g, old(buf[..]), buf[..], Rect(x, y, w, h), Trunc(g.format, col))
    {
      hide Painted, IsBuffer, SetField, GetField;
      ghost var start := buf[..];
      var v := Trunc(g.format, col);
      var advance := g.stride / 8;
      var ww: nat, xx: nat := w, x;
      PaintedNone(g, start, Rect(x, y, 0, h), v);
      while ww > 0
        invariant xx + ww == x + w && x <= xx && Valid()
        invariant Painted(g, start, buf[..], Rect(x, y, xx - x, h), v)
      {
        ww := ww - 1;
        var b := xx / 8 + y * advance;
        var hh: nat := h;
        PaintedSame(g, start, buf[..], Rect(x, y, xx - x, h), Or(Rect(x, y, xx - x, h), Rect(xx, y, 1, 0)), v);
        while hh > 0
          invariant hh <= h && b == xx / 8 + (y + h - hh) * advance && Valid()
          invariant Painted(g, start, buf[..], Or(Rect(x, y, xx - x, h), Rect(xx, y, 1, h - hh)), v)
        {
          var yy := y + h - hh;
          UnitInRow(g, xx, yy);
          Put(b, xx, yy, v, start, Or(Rect(x, y, xx - x, h), Rect(xx, y, 1, h - hh)),
              Or(Rect(x, y, xx - x, h), Rect(xx, y, 1, h - hh + 1)));
          Distribute(yy, 1, advance);
          b := b + advance;
          hh := hh - 1;
        }
        PaintedSame(g, start, buf[..], Or(Rect(x, y, xx - x, h), Rect(xx, y, 1, h)), Rect(x, y, xx + 1 - x, h), v);
        xx := xx + 1;
      }
    }

    // mvlsb_fill_rect: row by row
    method MvlsbFill(x: nat, y: nat, w: nat, h: nat, col: nat)
      requires Valid() && g.format.MVLSB? && x + w <= g.width && y + h <= g.height
      modifies buf
      ensures Valid() && Painted(g, old(buf[..]), buf[..], Rect(x, y, w, h), Trunc(g.format, col))
    {
      hide Painted, IsBuffer, SetField, GetField;
      ghost var start := buf[..];
      var v := Trunc(g.format, col);
      var hh: nat, yy: nat := h, y;
      PaintedNone(g, start, Rect(x, y, w, 0), v);
      while hh > 0
        invariant yy + hh == y + h && y <= yy && Valid()
        invariant Painted(g, start, buf[..], Rect(x, y, w, yy - y), v)
      {
        hh := hh - 1;
        var b := yy / 8 * g.stride + x;
        FillRun(x, y, w, yy, b, v, start);
        yy := yy + 1;
      }
    }

    // One row of single-field units, one after the other.
    method FillRun(x: nat, y: nat, w: nat, yy: nat, from: nat, v: int, ghost start: seq<int>)
      requires Valid() && y <= yy && x + w <= g.width && yy < g.height && 0 <= v < Colours(g.format)
      requires g.format.MVLSB? || PerUnit(g.format) == 1
      requires from == g.UnitAt(x, yy)
      requires Painted(g, start, buf[..], Rect(x, y, w, yy - y), v)
      modifies buf
      ensures Valid() && Painted(g, start, buf[..], Rect(x, y, w, yy + 1 - y), v)
    {
      hide Painted, IsBuffer, SetField, GetField, Colours;
      var b, ww: nat := from, w;
      PaintedSame(g, start, buf[..], Rect(x, y, w, yy - y), Or(Rect(x, y, w, yy - y), Rect(x, yy, 0, 1)), v);
      while ww > 0
        invariant ww <= w && b == from + (w - ww) && Valid()
        invariant Painted(g, start, buf[..], Or(Rect(x, y, w, yy - y), Rect(x, yy, w - ww, 1)), v)
      {
        Put(b, x + (w - ww), yy, v, start, Or(Rect(x, y, w, yy - y), Rect(x, yy, w - ww, 1)),
            Or(Rect(x, y, w, yy - y), Rect(x, yy, w - ww + 1, 1)));
        b := b + 1;
        ww := ww - 1;
      }
      PaintedSame(g, start, buf[..], Or(Rect(x, y, w, yy - y), Rect(x, yy, w, 1)), Rect(x, y, w, yy + 1 - y), v);
    }

    // rgb565_fill_rect and gs8_fill_rect: row by row, one pointer throughout
    method WholeUnitFill(x: nat, y: nat, w: nat, h: nat, col: nat)
      requires Valid() && (g.format.RGB565? || g.format.GS8?) && x + w <= g.width && y + h <= g.height
      modifies buf
      ensures Valid() && Painted(g, old(buf[..]), buf[..], Rect(x, y, w, h), Trunc(g.format, col))
    {
      hide Painted, IsBuffer, SetField, GetField;
      ghost var start := buf[..];
      var v := Trunc(g.format, col);
      var b, hh: nat := x + y * g.stride, h;
      PaintedNone(g, start, Rect(x, y, w, 0), v);
      while hh > 0
        invariant hh <= h && b == x + (y + h - hh) * g.stride && Valid()
        invariant Painted(g, start, buf[..], Rect(x, y, w, h - hh), v)
      {
        var yy := y + h - hh;
        FillRun(x, y, w, yy, b, v, start);
        Distribute(yy, 1, g.stride);
        b := b + g.stride;
        hh := hh - 1;
      }
    }

    // gs2_hmsb_fill_rect: the double loop itself
    method Gs2Fill(x: nat, y: nat, w: nat, h: nat, col: nat)
      requires Valid() && g.format.GS2_HMSB? && x + w <= g.width && y + h <= g.height
      modifies buf
      ensures Valid() && Painted(g, old(buf[..]), buf[..], Rect(x, y, w, h), Trunc(g.format, col))
    {
      hide Painted, IsBuffer, SetField, GetField;
      ghost var start := buf[..];
      ghost var v := Trunc(g.format, col);
      PaintedNone(g, start, Rect(x, y, 0, h), v);
      for xx := x to x + w
        invariant Valid() && Painted(g, start, buf[..], Rect(x, y, xx - x, h), v)
      {
        PaintedSame(g, start, buf[..], Rect(x, y, xx - x, h), Or(Rect(x, y, xx - x, h), Rect(xx, y, 1, 0)), v);
        for yy := y to y + h
          invariant Valid() && Painted(g, start, buf[..], Or(Rect(x, y, xx - x, h), Rect(xx, y, 1, yy - y)), v)
        {
          ghost var before := buf[..];
          SetPixel(xx, yy, col);
          PaintedThen(g, start, before, buf[..], Or(Rect(x, y, xx - x, h), Rect(xx, y, 1, yy - y)), Only(xx, yy),
                      Or(Rect(x, y, xx - x, h), Rect(xx, y, 1, yy + 1 - y)), v);
        }
        PaintedSame(g, start, buf[..], Or(Rect(x, y, xx - x, h), Rect(xx, y, 1, h)), Rect(x, y, xx + 1 - x, h), v);
      }
    }

    // One byte of a memset, which writes both nibbles.
    method PutPair(p: nat, x: nat, y: nat, pair: int, v: int, ghost start: seq<int>, ghost r: (int, int) -> bool,
                   ghost r': (int, int) -> bool)
      requires Valid() && g.format.GS4_HMSB? && g.Contains(x, y) && g.Contains(x + 1, y) && x % 2 == 0
      requires p == g.UnitAt(x, y) && 0 <= v < 16 && pair == 16 * v + v
      requires Painted(g, start, buf[..], r, v)
      requires forall a, b :: r'(a, b) <==> r(a, b) || Only(x, y)(a, b) || Only(x + 1, y)(a, b)
      modifies buf
      ensures Valid() && Painted(g, start, buf[..], r', v)
    {
      hide Painted, IsBuffer, SetField, GetField;
      PairPainted(g, buf[..], x, y, v);
      ghost var one := SetAt(g, buf[..], x, y, v);
      ghost var two := SetAt(g, one, x + 1, y, v);
      PaintedThen(g, start, buf[..], one, r, Only(x, y), Or(r, Only(x, y)), v);
      PaintedThen(g, start, one, two, Or(r, Only(x, y)), Only(x + 1, y), r', v);
      buf[p] := pair;
      assert buf[..] == two;
    }

    // memset: n whole bytes from column cx of row yy.
    method MemsetPairs(p: nat, pair: int, n: nat, ghost x: nat, cx: nat, yy: nat, v: int, ghost start: seq<int>,
                       ghost above: (int, int) -> bool)
      requires Valid() && g.format.GS4_HMSB? && yy < g.height && x <= cx
      requires (n > 0 ==> cx % 2 == 0) && cx + 2 * n <= g.width
      requires p == g.UnitAt(cx, yy) && 0 <= v < 16 && pair == 16 * v + v
      requires Painted(g, start, buf[..], Or(above, Rect(x, yy, cx - x, 1)), v)
      modifies buf
      ensures Valid() && Painted(g, start, buf[..], Or(above, Rect(x, yy, cx - x + 2 * n, 1)), v)
    {
      hide Painted, IsBuffer, SetField, GetField, Geometry.UnitAt;
      for i := 0 to n
        invariant Valid() && Painted(g, start, buf[..], Or(above, Rect(x, yy, cx - x + 2 * i, 1)), v)
      {
        NextPair(g, cx, i, yy);
        PutPair(p + i, cx + 2 * i, yy, pair, v, start, Or(above, Rect(x, yy, cx - x + 2 * i, 1)),
                Or(above, Rect(x, yy, cx - x + 2 * i + 2, 1)));
      }
    }

    // The row of gs4_hmsb_fill_rect: an odd nibble, whole bytes by memset, a last nibble.
    method Gs4Row(x: nat, y: nat, w: nat, yy: nat, from: nat, v: int, ghost start: seq<int>) returns (p: nat)
      requires Valid() && g.format.GS4_HMSB? && y <= yy < g.height && x + w <= g.width && 0 <= v < 16
      requires from == g.UnitAt(x, yy)
      requires Painted(g, start, buf[..], Rect(x, y, w, yy - y), v)
      modifies buf
      ensures Valid() && Painted(g, start, buf[..], Rect(x, y, w, yy + 1 - y), v)
      ensures p == from + (w + 1) / 2
    {
      hide Painted, IsBuffer, SetField, GetField, Geometry.UnitAt;
      ghost var above := Rect(x, y, w, yy - y);
      var cx := x;
      var ww: nat := w;
      var oddX := x % 2 == 1;
      var pair := 16 * v + v;
      p := from;
      NextPair(g, x, 0, yy);
      PaintedSame(g, start, buf[..], above, Or(above, Rect(x, yy, 0, 1)), v);
      if oddX && ww > 0 {
        Put(p, x, yy, v, start, Or(above, Rect(x, yy, 0, 1)), Or(above, Rect(x, yy, 1, 1)));
        p, ww, cx := p + 1, ww - 1, cx + 1;
      }
      var n := ww / 2;
      MemsetPairs(p, pair, n, x, cx, yy, v, start, above);
      NextPair(g, cx, n, yy);
      p, cx := p + n, cx + 2 * n;
      if ww % 2 == 1 {
        Put(p, cx, yy, v, start, Or(above, Rect(x, yy, cx - x, 1)), Or(above, Rect(x, yy, w, 1)));
        if !oddX {
          p := p + 1;
        }
      }
      PaintedSame(g, start, buf[..], Or(above, Rect(x, yy, w, 1)), Rect(x, y, w, yy + 1 - y), v);
    }

    // gs4_hmsb_fill_rect
    method Gs4Fill(x: nat, y: nat, w: nat, h: nat, col: nat)
      requires Valid() && g.format.GS4_HMSB? && x + w <= g.width && y + h <= g.height
      modifies buf
      ensures Valid() && Painted(g, old(buf[..]), buf[..], Rect(x, y, w, h), Trunc(g.format, col))
    {
      hide Painted, IsBuffer, SetField, GetField;
      ghost var start := buf[..];
      var v := Trunc(g.format, col);
      var pair, hh: nat := (x + y * g.stride) / 2, h;
      var tillNextLine := (g.stride - w) / 2;
      PaintedNone(g, start, Rect(x, y, w, 0), v);
      while hh > 0
        invariant hh <= h && pair == g.UnitAt(x, y + h - hh) && Valid()
        invariant Painted(g, start, buf[..], Rect(x, y, w, h - hh), v)
      {
        var yy := y + h - hh;
        UnitInRow(g, x, yy);
        UnitInRow(g, x, yy + 1);
        Distribute(yy, 1, g.stride / 2);
        pair := Gs4Row(x, y, w, yy, pair, v, start);
        pair := pair + tillNextLine;
        hh := hh - 1;
      }
    }

    // The fill_rect of the format.
    method FormatFill(x: nat, y: nat, w: nat, h: nat, col: nat)
      requires Valid() && x + w <= g.width && y + h <= g.height
      modifies buf
      ensures Valid() && Painted(g, old(buf[..]), buf[..], Rect(x, y, w, h), Trunc(g.format, col))
    {
      match g.format {
        case MVLSB => MvlsbFill(x, y, w, h, col);
        case RGB565 => WholeUnitFill(x, y, w, h, col);
        case GS8 => WholeUnitFill(x, y, w, h, col);
        case GS2_HMSB => Gs2Fill(x, y, w, h, col);
        case GS4_HMSB => Gs4Fill(x, y, w, h, col);
        case MHLSB => MonoHorizFill(x, y, w, h, col);
        case MHMSB => MonoHorizFill(x, y, w, h, col);
      }
    }

    // framebuf_fill
    method Fill(col: nat)
      requires Valid()
      modifies buf
      ensures Valid()
      ensures forall x: nat, y: nat :: g.Contains(x, y) ==> Look(g, buf[..], x, y) == Trunc(g.format, col)
    {
      hide Painted, Look;
      ghost var start := buf[..];
      FormatFill(0, 0, g.width, g.height, col);
      forall x: nat, y: nat | g.Contains(x, y) ensures Look(g, buf[..], x, y) == Trunc(g.format, col) {
        LookAfterPainting(g, start, buf[..], Rect(0, 0, g.width, g.height), Trunc(g.format, col), x, y);
      }
    }

    // fill_rect: paints what is inside the picture.
    method FillRect(x: int, y: int, w: int, h: int, col: nat)
      requires Valid()
      modifies buf
      ensures Valid() && Painted(g, old(buf[..]), buf[..], Clip(g, Rect(x, y, w, h)), Trunc(g.format, col))
    {
      hide Painted, IsBuffer, Trunc;
      ghost var start := buf[..];
      if h < 1 || w < 1 || x + w <= 0 || y + h <= 0 || y >= g.height || x >= g.width {
        PaintedNone(g, start, Clip(g, Rect(x, y, w, h)), Trunc(g.format, col));
        return;
      }
      var xend := if g.width < x + w then g.width else x + w;
      var yend := if g.height < y + h then g.height else y + h;
      var x0 := if x < 0 then 0 else x;
      var y0 := if y < 0 then 0 else y;
      FormatFill(x0, y0, xend - x0, yend - y0, col);
      PaintedSame(g, start, buf[..], Rect(x0, y0, xend - x0, yend - y0), Clip(g, Rect(x, y, w, h)),
                  Trunc(g.format, col));
    }

    // setpixel_checked
    method SetPixelChecked(x: int, y: int, col: nat)
      requires Valid()
      modifies buf
      ensures Valid() && Painted(g, old(buf[..]), buf[..], Clip(g, Only(x, y)), Trunc(g.format, col))
    {
      hide Painted, IsBuffer, Trunc;
      ghost var start := buf[..];
      if 0 <= x < g.width && 0 <= y < g.height {
        SetPixel(x, y, col);
        PaintedSame(g, start, buf[..], Only(x, y), Clip(g, Only(x, y)), Trunc(g.format, col));
      } else {
        PaintedNone(g, start, Clip(g, Only(x, y)), Trunc(g.format, col));
      }
    }
  }
}
