/**
  How a frame buffer packs its pixels: the seven formats as one layout of fields in units, the
  size check of the constructor, and what it means to paint a region of the picture.
 */
module FbLayout {
  import opened Arith
  import opened Wrappers

  datatype Format = MVLSB | RGB565 | GS2_HMSB | GS4_HMSB | GS8 | MHLSB | MHMSB

  // ---- units and fields

  // The memory is seen through a pointer to 16-bit words for RGB565 and to bytes otherwise.
  function UnitRange(f: Format): int {
    if f.RGB565? then 0x10000 else 0x100
  }

  // How many pixels share a unit.
  function PerUnit(f: Format): nat {
    match f
    case MVLSB => 8
    case MHLSB => 8
    case MHMSB => 8
    case GS2_HMSB => 4
    case GS4_HMSB => 2
    case GS8 => 1
    case RGB565 => 1
  }

  function Colours(f: Format): int {
    match f
    case MVLSB => 2
    case MHLSB => 2
    case MHMSB => 2
    case GS2_HMSB => 4
    case GS4_HMSB => 16
    case GS8 => 256
    case RGB565 => 65536
  }

  function BitWeight(i: nat): int
    requires i < 8
  {
    [1, 2, 4, 8, 16, 32, 64, 128][i]
  }

  // The place of slot k in its unit, as the power of two it is shifted by.
  function Weight(f: Format, k: nat): int
    requires k < PerUnit(f)
  {
    match f
    case MVLSB => BitWeight(k)
    case MHMSB => BitWeight(k)
    case MHLSB => BitWeight(7 - k)
    case GS2_HMSB => [1, 4, 16, 64][k]
    case GS4_HMSB => if k == 1 then 1 else 16
    case GS8 => 1
    case RGB565 => 1
  }

  predicate IsUnit(f: Format, unit: int) {
    0 <= unit < UnitRange(f)
  }

  // Shift right and mask.
  function GetField(f: Format, unit: int, k: nat): int
    requires k < PerUnit(f)
  {
    unit / Weight(f, k) % Colours(f)
  }

  // Clear the field and put v there, leaving the other bits of the unit.
  function SetField(f: Format, unit: int, k: nat, v: int): int
    requires k < PerUnit(f)
  {
    unit - GetField(f, unit, k) * Weight(f, k) + v * Weight(f, k)
  }

  // A colour as the format stores it.
  function Trunc(f: Format, col: nat): (v: int)
    ensures 0 <= v < Colours(f)
  {
    match f
    case MVLSB => if col != 0 then 1 else 0
    case MHLSB => if col != 0 then 1 else 0
    case MHMSB => if col != 0 then 1 else 0
    case GS2_HMSB => col % 4
    case GS4_HMSB => col % 16
    case GS8 => col % 256
    case RGB565 => col % 65536
  }

  // ---- arithmetic of fields

  // A field below w does not see what is added at w.
  lemma LowerField(a: int, low: int, m: int, w: int, c: int)
    requires w > 0 && c > 0
    ensures (a * (m * (c * w)) + low) / w % c == low / w % c
  {
    Fundamental(low, w);
    var q, r := low / w, low % w;
    Fundamental(q, c);
    var q', r' := q / c, q % c;
    calc {
      a * (m * (c * w));
      { Associate(a, m, c * w); Associate(a * m, c, w); }
      a * m * c * w;
    }
    Distribute(a * m * c, q, w);
    DivMod(a * m * c + q, r, w);
    Distribute(a * m, q', c);
    DivMod(a * m + q', r', c);
    DivMod(q', r', c);
  }

  // A field above does not see what is below its weight.
  lemma HigherField(high: int, r: int, d: int, m: int)
    requires 0 <= r < d && m > 0
    ensures (high * d + r) / (m * d) == high / m
  {
    Fundamental(high, m);
    var q, s := high / m, high % m;
    Distribute(q * m, s, d);
    Associate(q, m, d);
    InRange(s, r, d, m);
    DivMod(q, s * d + r, m * d);
  }

  lemma InRange(high: int, r: int, d: int, m: int)
    requires 0 <= high < m && 0 <= r < d
    ensures 0 <= high * d + r < m * d
  {
    Monotone(high, m - 1, d);
    Distribute(m - 1, 1, d);
    NonNegative(high, d);
  }

  lemma OutOfRange(high: int, r: int, d: int, m: int)
    requires 0 <= high && 0 <= r < d && high * d + r < m * d
    ensures high < m
  {
    if high >= m {
      Monotone(m, high, d);
    }
  }

  lemma Regroup(unit: int, w: int, c: int)
    requires unit >= 0 && w > 0 && c > 0
    ensures unit / w / c >= 0 && unit == unit / w / c * (c * w) + (unit / w % c * w + unit % w)
  {
    var q := unit / w;
    QuotientNonNegative(unit, w);
    QuotientNonNegative(q, c);
    Fundamental(unit, w);
    Fundamental(q, c);
    Distribute(q / c * c, q % c, w);
    Associate(q / c, c, w);
  }

  // ---- fields are independent

  // The weights of two slots are a power of the colour count apart.
  lemma WeightsNest(f: Format, k: nat, j: nat)
    requires k < PerUnit(f) && j < PerUnit(f) && j != k
    ensures var w, w', c := Weight(f, k), Weight(f, j), Colours(f);
            if w' < w then w == w / (c * w') * (c * w') else w' == w' / (c * w) * (c * w)
  {
  }

  lemma WeightFits(f: Format, k: nat)
    requires k < PerUnit(f)
    ensures var w, c := Weight(f, k), Colours(f);
            w >= 1 && c >= 2 && UnitRange(f) == UnitRange(f) / (c * w) * (c * w)
  {
  }

  // A unit taken apart around a field of weight w, and put together with another value.
  lemma Apart(unit: int, w: int, c: int, v: int, m: int)
    requires 0 <= unit < m * (c * w) && w >= 1 && c >= 2 && 0 <= v < c
    ensures var high, low, g := unit / w / c, unit % w, unit / w % c;
            && 0 <= high && 0 <= low < w && 0 <= g < c
            && unit == high * (c * w) + (g * w + low)
            && 0 <= high * (c * w) + (v * w + low) < m * (c * w)
            && (high * (c * w) + (v * w + low)) / w % c == v
  {
    var high, low, g := unit / w / c, unit % w, unit / w % c;
    Regroup(unit, w, c);
    Fundamental(unit, w);
    Fundamental(unit / w, c);
    InRange(g, low, w, c);
    InRange(v, low, w, c);
    OutOfRange(high, g * w + low, c * w, m);
    InRange(high, v * w + low, c * w, m);
    Rebuilt(high, v, low, w, c);
  }

  lemma Rebuilt(high: int, v: int, low: int, w: int, c: int)
    requires 0 <= v < c && 0 <= low < w
    ensures (high * (c * w) + (v * w + low)) / w % c == v
  {
    Distribute(high * c, v, w);
    Associate(high, c, w);
    DivMod(high * c + v, low, w);
    DivMod(high, v, c);
  }

  lemma Split(f: Format, unit: int, k: nat, v: int) returns (high: int, low: int)
    requires IsUnit(f, unit) && k < PerUnit(f) && 0 <= v < Colours(f)
    ensures var w, c := Weight(f, k), Colours(f);
            && 0 <= low < w && 0 <= high
            && unit == high * (c * w) + (GetField(f, unit, k) * w + low)
            && SetField(f, unit, k, v) == high * (c * w) + (v * w + low)
            && IsUnit(f, SetField(f, unit, k, v))
            && GetField(f, SetField(f, unit, k, v), k) == v
  {
    hide Weight, Colours, BitWeight, UnitRange;
    var w, c := Weight(f, k), Colours(f);
    WeightFits(f, k);
    high, low := unit / w / c, unit % w;
    Apart(unit, w, c, v, UnitRange(f) / (c * w));
  }

  lemma OtherField(high: int, g: int, v: int, low: int, w: int, w': int, c: int)
    requires 0 <= g < c && 0 <= v < c && 0 <= low < w && 0 < w'
    requires if w' < w then w == w / (c * w') * (c * w') else w' == w' / (c * w) * (c * w)
    ensures (high * (c * w) + (v * w + low)) / w' % c == (high * (c * w) + (g * w + low)) / w' % c
  {
    Associate(high, c, w);
    if w' < w {
      Distribute(high * c, g, w);
      Distribute(high * c, v, w);
      LowerField(high * c + g, low, w / (c * w'), w', c);
      LowerField(high * c + v, low, w / (c * w'), w', c);
    } else {
      var m := w' / (c * w);
      InRange(g, low, w, c);
      InRange(v, low, w, c);
      assert m > 0 by { if m <= 0 { Monotone(m, 0, c * w); } }
      HigherField(high, g * w + low, c * w, m);
      HigherField(high, v * w + low, c * w, m);
    }
  }

  // A field written reads back, the other fields of the unit read as before, and the unit
  // stays one.
  lemma FieldWritten(f: Format, unit: int, k: nat, v: int, j: nat)
    requires IsUnit(f, unit) && k < PerUnit(f) && j < PerUnit(f) && 0 <= v < Colours(f)
    ensures IsUnit(f, SetField(f, unit, k, v))
    ensures GetField(f, SetField(f, unit, k, v), j) == if j == k then v else GetField(f, unit, j)
  {
    hide Weight, Colours, BitWeight, UnitRange;
    var high, low := Split(f, unit, k, v);
    if j != k {
      WeightsNest(f, k, j);
      WeightFits(f, k);
      WeightFits(f, j);
      OtherField(high, GetField(f, unit, k), v, low, Weight(f, k), Weight(f, j), Colours(f));
    }
  }

  // ---- where a pixel is

  // A picture of width by height pixels in rows of `stride`; MVLSB stacks eight rows in a
  // row of bytes.
  datatype Geometry = Geometry(format: Format, width: nat, height: nat, stride: nat) {
    ghost predicate Valid() {
      1 <= width <= stride && 1 <= height && (format.MVLSB? || stride % PerUnit(format) == 0)
    }

    predicate Contains(x: int, y: int) {
      0 <= x < width && 0 <= y < height
    }

    function UnitAt(x: nat, y: nat): nat {
      if format.MVLSB? then y / 8 * stride + x else (x + y * stride) / PerUnit(format)
    }

    function SlotAt(x: nat, y: nat): (k: nat)
      ensures k < PerUnit(format)
    {
      if format.MVLSB? then y % 8 else x % PerUnit(format)
    }

    // The pixel a field holds; the coordinates of padding are outside the picture.
    ghost function PixelX(u: nat, k: nat): int
      requires Valid()
    {
      if format.MVLSB? then u % stride else (u * PerUnit(format) + k) % stride
    }

    ghost function PixelY(u: nat, k: nat): int
      requires Valid()
    {
      if format.MVLSB? then u / stride * 8 + k else (u * PerUnit(format) + k) / stride
    }
  }

  // In a row whose length is a multiple of the packing, a row index and a column index add up
  // to a unit and a slot.
  lemma RowMultiple(x: nat, y: nat, stride: nat, p: nat)
    requires p > 0 && stride % p == 0
    ensures (x + y * stride) % p == x % p
    ensures (x + y * stride) / p * p + x % p == x + y * stride
    ensures (x + y * stride) / p == x / p + y * (stride / p)
  {
    Fundamental(stride, p);
    Fundamental(x, p);
    Associate(y, stride / p, p);
    Distribute(y * (stride / p), x / p, p);
    DivMod(y * (stride / p) + x / p, x % p, p);
  }

  lemma AddressOfPixel(g: Geometry, x: nat, y: nat)
    requires g.Valid() && x < g.stride
    ensures g.PixelX(g.UnitAt(x, y), g.SlotAt(x, y)) == x
    ensures g.PixelY(g.UnitAt(x, y), g.SlotAt(x, y)) == y
  {
    if g.format.MVLSB? {
      DivMod(y / 8, x, g.stride);
    } else {
      RowMultiple(x, y, g.stride, PerUnit(g.format));
      DivMod(y, x, g.stride);
    }
  }

  lemma PixelOfAddress(g: Geometry, u: nat, k: nat)
    requires g.Valid() && k < PerUnit(g.format)
    ensures 0 <= g.PixelX(u, k) < g.stride && 0 <= g.PixelY(u, k)
    ensures g.UnitAt(g.PixelX(u, k), g.PixelY(u, k)) == u
    ensures g.SlotAt(g.PixelX(u, k), g.PixelY(u, k)) == k
  {
    if g.format.MVLSB? {
      Fundamental(u, g.stride);
      QuotientNonNegative(u, g.stride);
      DivMod(u / g.stride, k, 8);
    } else {
      var p := PerUnit(g.format);
      NonNegative(u, p);
      var c := u * p + k;
      Fundamental(c, g.stride);
      QuotientNonNegative(c, g.stride);
      RowMultiple(c % g.stride, c / g.stride, g.stride, p);
      DivMod(u, k, p);
    }
  }

  // ---- the size check of the constructor

  function RoundUp(n: nat, m: nat): nat
    requires m > 0
  {
    (n + m - 1) / m * m
  }

  function FormatOf(code: int): Option<Format> {
    match code
    case 0 => Some(MVLSB)
    case 1 => Some(RGB565)
    case 2 => Some(GS4_HMSB)
    case 3 => Some(MHLSB)
    case 4 => Some(MHMSB)
    case 5 => Some(GS2_HMSB)
    case 6 => Some(GS8)
    case _ => None
  }

  function BitsPerPixel(f: Format): nat {
    match f
    case MVLSB => 1
    case MHLSB => 1
    case MHMSB => 1
    case GS2_HMSB => 2
    case GS4_HMSB => 4
    case GS8 => 8
    case RGB565 => 16
  }

  function RoundedStride(f: Format, stride: nat): nat {
    if f.MVLSB? then stride else RoundUp(stride, PerUnit(f))
  }

  predicate DimensionsOk(width: int, height: int, stride: int) {
    !(width < 1 || height < 1 || width > 0xffff || height > 0xffff || stride > 0xffff || stride < width)
  }

  // The bits asked of the buffer.
  function BitsRequired(f: Format, width: nat, height: nat, stride: nat): int
    requires DimensionsOk(width, height, stride)
  {
    var heightRequired := if f.MVLSB? then RoundUp(height, 8) else height;
    var stridesRequired := if f.MVLSB? then heightRequired - 8 else height - 1;
    var widthRequired := if f.MVLSB? then width else RoundUp(width, PerUnit(f));
    (stridesRequired * RoundedStride(f, stride) + (heightRequired - stridesRequired) * widthRequired) * BitsPerPixel(f)
  }

  function BytesRequired(f: Format, width: nat, height: nat, stride: nat): int
    requires DimensionsOk(width, height, stride)
  {
    BitsRequired(f, width, height, stride) / 8
  }

  // The bits are counted in a size_t, here of 32 bits.
  function BytesChecked(f: Format, width: nat, height: nat, stride: nat): int
    requires DimensionsOk(width, height, stride)
  {
    BitsRequired(f, width, height, stride) % SIZE_T_RANGE / 8
  }

  ghost predicate BitsFit(f: Format, width: nat, height: nat, stride: nat)
    requires DimensionsOk(width, height, stride)
  {
    BitsRequired(f, width, height, stride) < SIZE_T_RANGE
  }

  // framebuf_make_new_helper: None where it raises ValueError. The stride is kept in 16 bits.
  function CheckedGeometry(width: int, height: int, code: int, stride: int, len: nat): Option<Geometry> {
    if !DimensionsOk(width, height, stride) then None
    else match FormatOf(code)
      case None => None
      case Some(f) =>
        if BytesChecked(f, width, height, stride) > len then None
        else Some(Geometry(f, width, height, RoundedStride(f, stride) % 0x10000))
  }

  function UnitCount(f: Format, len: nat): nat {
    if f.RGB565? then len / 2 else len
  }

  lemma RoundUpFacts(n: nat, m: nat)
    requires n > 0 && m > 0
    ensures RoundUp(n, m) % m == 0 && n <= RoundUp(n, m) < n + m
    ensures RoundUp(n, m) / m == (n - 1) / m + 1
  {
    Fundamental(n + m - 1, m);
    Fundamental(n - 1, m);
    Distribute((n - 1) / m, 1, m);
    DivMod((n - 1) / m + 1, (n - 1) % m, m);
    DivMod((n + m - 1) / m, 0, m);
  }

  // n units hold this many bytes.
  lemma UnitBytes(f: Format, n: nat)
    ensures n * PerUnit(f) * BitsPerPixel(f) / 8 == if f.RGB565? then 2 * n else n
  {
  }

  lemma RowsOfUnits(width: nat, height: nat, s: nat, p: nat)
    requires width > 0 && height > 0 && p > 0 && s % p == 0
    ensures (width - 1 + (height - 1) * s) / p == (height - 1) * (s / p) + (width - 1) / p
    ensures (height - 1) * s + RoundUp(width, p) == ((height - 1) * (s / p) + ((width - 1) / p + 1)) * p
  {
    RoundUpFacts(width, p);
    RowMultiple(width - 1, height - 1, s, p);
    Fundamental(s, p);
    Fundamental(RoundUp(width, p), p);
    Associate(height - 1, s / p, p);
    Distribute((height - 1) * (s / p), (width - 1) / p + 1, p);
  }

  lemma RowsOfBytes(width: nat, height: nat, s: nat)
    requires width > 0 && height > 0
    ensures ((RoundUp(height, 8) - 8) * s + 8 * width) / 8 == (height - 1) / 8 * s + width
  {
    RoundUpFacts(height, 8);
    var rows := (height - 1) / 8;
    Fundamental(RoundUp(height, 8), 8);
    Associate(8, rows, s);
  }

  // With the stride as it is before it is cut to 16 bits.
  ghost predicate LastPixelInside(f: Format, width: nat, height: nat, stride: nat, len: nat)
    requires DimensionsOk(width, height, stride)
  {
    Geometry(f, width, height, RoundedStride(f, stride)).UnitAt(width - 1, height - 1) < UnitCount(f, len)
  }

  // Before the stride is cut to 16 bits, the bytes required are there exactly when the last pixel
  // is in the buffer.
  lemma SizeCheckExact(f: Format, width: nat, height: nat, stride: nat, len: nat)
    requires DimensionsOk(width, height, stride)
    ensures BytesRequired(f, width, height, stride) <= len <==>
            LastPixelInside(f, width, height, stride, len)
  {
    var s := RoundedStride(f, stride);
    if f.MVLSB? {
      hide RoundUp;
      RowsOfBytes(width, height, s);
      assert BytesRequired(f, width, height, stride) == (height - 1) / 8 * s + width by {
        RoundUpFacts(height, 8);
      }
    } else {
      SizeCheckExactInRows(f, width, height, stride, len);
    }
  }

  lemma BytesInRows(f: Format, width: nat, height: nat, stride: nat)
    requires DimensionsOk(width, height, stride) && !f.MVLSB?
    ensures var s := RoundedStride(f, stride);
            BytesRequired(f, width, height, stride)
            == ((height - 1) * s + RoundUp(width, PerUnit(f))) * BitsPerPixel(f) / 8
  {
    hide RoundUp, PerUnit, BitsPerPixel, RoundedStride;
    SomePerUnit(f);
    OneTimes(height, height - 1, RoundUp(width, PerUnit(f)));
  }

  lemma OneTimes(a: int, b: int, w: int)
    requires a - b == 1
    ensures (a - b) * w == w
  {
  }

  lemma SizeCheckExactInRows(f: Format, width: nat, height: nat, stride: nat, len: nat)
    requires DimensionsOk(width, height, stride) && !f.MVLSB?
    ensures BytesRequired(f, width, height, stride) <= len <==>
            LastPixelInside(f, width, height, stride, len)
  {
    hide RoundUp, PerUnit, BitsPerPixel, BytesRequired;
    var p := PerUnit(f);
    var s := RoundedStride(f, stride);
    SomePerUnit(f);
    RoundUpFacts(stride, p);
    RowsOfUnits(width, height, s, p);
    var n := (height - 1) * (s / p) + ((width - 1) / p + 1);
    NonNegative(height - 1, s / p);
    UnitBytes(f, n);
    BytesInRows(f, width, height, stride);
  }

  lemma SomePerUnit(f: Format)
    ensures PerUnit(f) > 0
    ensures PerUnit(f) == 1 || PerUnit(f) == 2 || PerUnit(f) == 4 || PerUnit(f) == 8
  {
  }

  lemma UnitMonotone(g: Geometry, g': Geometry, x: nat, y: nat)
    requires g.width == g'.width && g.height == g'.height && g.format == g'.format && g.stride <= g'.stride
    requires g.Contains(x, y)
    ensures g.UnitAt(x, y) <= g'.UnitAt(g.width - 1, g.height - 1)
  {
    if g.format.MVLSB? {
      LessProduct(y / 8, g.stride, (g.height - 1) / 8, g'.stride);
    } else {
      LessProduct(y, g.stride, g.height - 1, g'.stride);
    }
  }

  lemma LessProduct(a: nat, b: nat, c: nat, d: nat)
    requires a <= c && b <= d
    ensures a * b <= c * d
  {
    Monotone(a, c, b);
    Monotone(b, d, c);
  }

  // The bits are those of at most 65536 times 65535 pixels.
  lemma BitsBounds(f: Format, width: nat, height: nat, stride: nat)
    requires DimensionsOk(width, height, stride)
    ensures 0 <= BitsRequired(f, width, height, stride) <= 0xFFFF_0000 * BitsPerPixel(f)
  {
    hide RoundUp, RoundedStride, BitsPerPixel, PerUnit;
    SomePerUnit(f);
    RoundsTo(f, stride);
    var s := RoundedStride(f, stride);
    if f.MVLSB? {
      RoundedBelow(height, 8);
      RoundUpFacts(height, 8);
      var rows := RoundUp(height, 8) - 8;
      AtLeastEight(height);
      NonNegative(rows, s);
      LessProduct(rows, s, 65528, 65535);
      Scale(rows * s + 8 * width, 0xFFFF_0000, BitsPerPixel(f));
    } else {
      RoundedBelow(width, PerUnit(f));
      OneTimes(height, height - 1, RoundUp(width, PerUnit(f)));
      NonNegative(height - 1, s);
      LessProduct(height - 1, s, 65534, 65536);
      Scale((height - 1) * s + RoundUp(width, PerUnit(f)), 0xFFFF_0000, BitsPerPixel(f));
    }
  }

  lemma AtLeastEight(n: nat)
    requires n > 0
    ensures RoundUp(n, 8) >= 8
  {
  }

  lemma Scale(a: int, b: int, n: nat)
    requires 0 <= a <= b
    ensures 0 <= a * n <= b * n
  {
    NonNegative(a, n);
    Monotone(a, b, n);
  }

  // Formats of one bit a pixel never wrap, and with a size_t of 64 bits none does.
  lemma WhichWrap(f: Format, width: nat, height: nat, stride: nat)
    requires DimensionsOk(width, height, stride)
    ensures BitsPerPixel(f) == 1 ==> BitsFit(f, width, height, stride)
    ensures BitsRequired(f, width, height, stride) < 0x1_0000_0000_0000_0000
  {
    hide BitsRequired;
    BitsBounds(f, width, height, stride);
  }

  // Wrapping never asks for more, and asks for less exactly when the bits do not fit.
  lemma CheckedBelow(f: Format, width: nat, height: nat, stride: nat)
    requires DimensionsOk(width, height, stride)
    ensures 0 <= BytesChecked(f, width, height, stride) <= BytesRequired(f, width, height, stride)
    ensures BytesChecked(f, width, height, stride) == BytesRequired(f, width, height, stride)
            <==> BitsFit(f, width, height, stride)
  {
    hide BitsRequired;
    BitsBounds(f, width, height, stride);
    var bits := BitsRequired(f, width, height, stride);
    Fundamental(bits, SIZE_T_RANGE);
    Fundamental(bits, 8);
    Fundamental(bits % SIZE_T_RANGE, 8);
  }

  // The check is sufficient, for every length of the buffer, exactly when the bits fit a size_t.
  lemma CheckSufficientExactly(f: Format, width: nat, height: nat, stride: nat)
    requires DimensionsOk(width, height, stride)
    ensures (forall len: nat :: BytesChecked(f, width, height, stride) <= len ==>
               LastPixelInside(f, width, height, stride, len))
            <==> BitsFit(f, width, height, stride)
  {
    hide BytesRequired, BytesChecked, BitsFit, LastPixelInside;
    CheckedBelow(f, width, height, stride);
    forall len: nat
      ensures LastPixelInside(f, width, height, stride, len) <==> BytesRequired(f, width, height, stride) <= len
    {
      SizeCheckExact(f, width, height, stride, len);
    }
    var least: nat := BytesChecked(f, width, height, stride);
    assert LastPixelInside(f, width, height, stride, least) <==> BitsFit(f, width, height, stride);
  }

  lemma PixelInside(width: int, height: int, code: int, stride: int, len: nat, x: nat, y: nat)
    requires CheckedGeometry(width, height, code, stride, len).Some?
    requires CheckedGeometry(width, height, code, stride, len).value.Contains(x, y)
    requires BytesRequired(CheckedGeometry(width, height, code, stride, len).value.format, width, height, stride) <= len
    ensures var g := CheckedGeometry(width, height, code, stride, len).value;
            g.UnitAt(x, y) < UnitCount(g.format, len)
  {
    hide BytesRequired, BytesChecked, RoundedStride;
    var g := CheckedGeometry(width, height, code, stride, len).value;
    SizeCheckExact(g.format, width, height, stride, len);
    var s := RoundedStride(g.format, stride);
    UnitMonotone(g, g.(stride := s), x, y);
  }

  ghost predicate AllInside(g: Geometry, len: nat) {
    forall x: nat, y: nat :: g.Contains(x, y) ==> g.UnitAt(x, y) < UnitCount(g.format, len)
  }

  // With a stride that is not cut, every pixel of a frame buffer that passed the check is inside
  // exactly when the bytes required are there; if the bits fit, they are.
  lemma InsideExactly(width: int, height: int, code: int, stride: int, len: nat)
    requires CheckedGeometry(width, height, code, stride, len).Some?
    ensures var g := CheckedGeometry(width, height, code, stride, len).value;
            && (RoundedStride(g.format, stride) <= 0xffff ==>
                  (AllInside(g, len) <==> BytesRequired(g.format, width, height, stride) <= len))
            && (BytesRequired(g.format, width, height, stride) <= len ==> AllInside(g, len))
            && (BitsFit(g.format, width, height, stride) ==> BytesRequired(g.format, width, height, stride) <= len)
  {
    hide BytesRequired, BytesChecked, BitsFit, RoundedStride;
    var g := CheckedGeometry(width, height, code, stride, len).value;
    CheckedBelow(g.format, width, height, stride);
    SizeCheckExact(g.format, width, height, stride, len);
    if BytesRequired(g.format, width, height, stride) <= len {
      forall x: nat, y: nat | g.Contains(x, y)
        ensures g.UnitAt(x, y) < UnitCount(g.format, len)
      {
        PixelInside(width, height, code, stride, len, x, y);
      }
    } else if RoundedStride(g.format, stride) <= 0xffff {
      RoundsTo(g.format, stride);
      assert g.Contains(width - 1, height - 1);
    }
  }

  // A frame buffer that passed the check keeps every pixel inside the buffer if its bits fit.
  lemma SizeCheckSuffices(width: int, height: int, code: int, stride: int, len: nat)
    requires CheckedGeometry(width, height, code, stride, len).Some?
    ensures var g := CheckedGeometry(width, height, code, stride, len).value;
            BitsFit(g.format, width, height, stride) ==> AllInside(g, len)
  {
    hide BytesRequired, BytesChecked, BitsFit, RoundedStride, AllInside;
    InsideExactly(width, height, code, stride, len);
  }

  // An RGB565 picture of 16384 by 16384 pixels takes 2^32 bits: an empty buffer passes the check.
  lemma BitsWrapExample(x: nat, y: nat)
    requires x < 16384 && y < 16384
    ensures var g := Geometry(RGB565, 16384, 16384, 16384);
            && CheckedGeometry(16384, 16384, 1, 16384, 0) == Some(g)
            && g.Contains(x, y) && g.UnitAt(x, y) >= UnitCount(RGB565, 0)
  {
    NonNegative(y, 16384);
  }

  ghost predicate SamePlace(g: Geometry, x: nat, y: nat, x': nat, y': nat) {
    g.UnitAt(x, y) == g.UnitAt(x', y') && g.SlotAt(x, y) == g.SlotAt(x', y')
  }

  ghost predicate PixelsDistinct(g: Geometry) {
    forall x: nat, y: nat, x': nat, y': nat ::
      g.Contains(x, y) && g.Contains(x', y') && SamePlace(g, x, y, x', y') ==> x == x' && y == y'
  }

  lemma RoundedBelow(n: nat, m: nat)
    requires 0 < n <= 0xffff && (m == 1 || m == 2 || m == 4 || m == 8)
    ensures n <= RoundUp(n, m) <= 0x10000 && RoundUp(n, m) % m == 0
  {
    hide RoundUp;
    RoundUpFacts(n, m);
    var r := RoundUp(n, m);
    Fundamental(r, m);
    var q := r / m;
    if m == 8 {
      assert r == q * 8;
    } else if m == 4 {
      assert r == q * 4;
    } else if m == 2 {
      assert r == q * 2;
    }
  }

  // A stride that rounds past 16 bits rounds to exactly 65536.
  lemma RoundsTo(f: Format, stride: nat)
    requires 0 < stride <= 0xffff
    ensures var s := RoundedStride(f, stride);
            stride <= s <= 0x10000 && (f.MVLSB? ==> s == stride) && (f.MVLSB? || s % PerUnit(f) == 0)
  {
    hide RoundUp;
    RoundedBelow(stride, PerUnit(f));
  }

  lemma ValidDistinct(g: Geometry)
    requires g.Valid()
    ensures PixelsDistinct(g)
  {
    hide Geometry.UnitAt, Geometry.SlotAt;
    forall x: nat, y: nat, x': nat, y': nat | g.Contains(x, y) && g.Contains(x', y') && SamePlace(g, x, y, x', y')
      ensures x == x' && y == y'
    {
      AddressOfPixel(g, x, y);
      AddressOfPixel(g, x', y');
    }
  }

  lemma NoStrideClash(g: Geometry)
    requires g.stride == 0 && g.width >= 1 && g.height >= 2 && !g.format.MVLSB?
    ensures !PixelsDistinct(g)
  {
    assert g.Contains(0, 0) && g.Contains(0, 1) && SamePlace(g, 0, 0, 0, 1);
  }

  // Distinct pixels are in distinct places exactly when the rounded stride fits 16 bits, or
  // there is only one row.
  lemma StrideWraps(width: int, height: int, code: int, stride: int, len: nat)
    requires CheckedGeometry(width, height, code, stride, len).Some?
    ensures var g := CheckedGeometry(width, height, code, stride, len).value;
            && (RoundedStride(g.format, stride) <= 0xffff ==> g.Valid())
            && (PixelsDistinct(g) <==> RoundedStride(g.format, stride) <= 0xffff || height == 1)
  {
    hide PixelsDistinct, RoundedStride, BytesRequired, PerUnit;
    var g := CheckedGeometry(width, height, code, stride, len).value;
    RoundsTo(g.format, stride);
    if RoundedStride(g.format, stride) <= 0xffff {
      ValidDistinct(g);
    } else if height == 1 {
      OneRowDistinct(g);
    } else {
      NoStrideClash(g);
    }
  }

  lemma OneRowDistinct(g: Geometry)
    requires g.height == 1
    ensures PixelsDistinct(g)
  {
    forall x: nat, y: nat, x': nat, y': nat | g.Contains(x, y) && g.Contains(x', y') && SamePlace(g, x, y, x', y')
      ensures x == x' && y == y'
    {
      Fundamental(x, PerUnit(g.format));
      Fundamental(x', PerUnit(g.format));
    }
  }

  // An MHLSB stride of 65529 is rounded up to 65536 and kept as 0: the second row starts where
  // the first does.
  lemma StrideWrapsExample()
    ensures var g := CheckedGeometry(1, 2, 3, 65529, 9000);
            g == Some(Geometry(MHLSB, 1, 2, 0)) && SamePlace(g.value, 0, 0, 0, 1)
  {
  }

  // ---- painting

  ghost predicate IsBuffer(g: Geometry, units: seq<int>) {
    forall u :: 0 <= u < |units| ==> IsUnit(g.format, units[u])
  }

  // Every pixel of the region has colour v and every other field, padding included, is as before.
  ghost predicate Painted(g: Geometry, before: seq<int>, after: seq<int>, region: (int, int) -> bool, v: int)
    requires g.Valid()
  {
    && |before| == |after|
    && forall u: nat, k: nat :: u < |after| && k < PerUnit(g.format) ==>
         GetField(g.format, after[u], k) ==
         if region(g.PixelX(u, k), g.PixelY(u, k)) then v else GetField(g.format, before[u], k)
  }

  lemma PaintedNone(g: Geometry, units: seq<int>, region: (int, int) -> bool, v: int)
    requires g.Valid() && forall x, y :: !region(x, y)
    ensures Painted(g, units, units, region, v)
  {
  }

  lemma PaintedThen(g: Geometry, s0: seq<int>, s1: seq<int>, s2: seq<int>, r1: (int, int) -> bool,
                    r2: (int, int) -> bool, r: (int, int) -> bool, v: int)
    requires g.Valid() && Painted(g, s0, s1, r1, v) && Painted(g, s1, s2, r2, v)
    requires forall x, y :: r(x, y) <==> r1(x, y) || r2(x, y)
    ensures Painted(g, s0, s2, r, v)
  {
  }

  lemma PaintedSame(g: Geometry, s0: seq<int>, s1: seq<int>, r1: (int, int) -> bool, r: (int, int) -> bool, v: int)
    requires g.Valid() && Painted(g, s0, s1, r1, v)
    requires forall x, y :: r(x, y) <==> r1(x, y)
    ensures Painted(g, s0, s1, r, v)
  {
  }

  function SetAt(g: Geometry, units: seq<int>, x: nat, y: nat, v: int): (after: seq<int>)
    requires g.UnitAt(x, y) < |units|
    ensures |after| == |units|
  {
    var u := g.UnitAt(x, y);
    units[u := SetField(g.format, units[u], g.SlotAt(x, y), v)]
  }

  ghost function Only(x: int, y: int): (int, int) -> bool {
    (a, b) => a == x && b == y
  }

  // Writing one pixel paints that pixel and nothing else.
  lemma PixelPainted(g: Geometry, units: seq<int>, x: nat, y: nat, v: int)
    requires g.Valid() && IsBuffer(g, units) && x < g.stride && g.UnitAt(x, y) < |units|
    requires 0 <= v < Colours(g.format)
    ensures IsBuffer(g, SetAt(g, units, x, y, v))
    ensures Painted(g, units, SetAt(g, units, x, y, v), Only(x, y), v)
  {
    hide SetField, GetField;
    var after := SetAt(g, units, x, y, v);
    var u0, k0 := g.UnitAt(x, y), g.SlotAt(x, y);
    FieldWritten(g.format, units[u0], k0, v, k0);
    AddressOfPixel(g, x, y);
    forall u: nat, k: nat | u < |units| && k < PerUnit(g.format)
      ensures GetField(g.format, after[u], k) ==
              if g.PixelX(u, k) == x && g.PixelY(u, k) == y then v else GetField(g.format, units[u], k)
    {
      PixelOfAddress(g, u, k);
      if u == u0 {
        FieldWritten(g.format, units[u0], k0, v, k);
      }
    }
  }

  // The colour of a pixel.
  function Look(g: Geometry, units: seq<int>, x: nat, y: nat): int
    requires g.UnitAt(x, y) < |units|
  {
    GetField(g.format, units[g.UnitAt(x, y)], g.SlotAt(x, y))
  }

  lemma LookAfterPainting(g: Geometry, before: seq<int>, after: seq<int>, region: (int, int) -> bool, v: int,
                          x: nat, y: nat)
    requires g.Valid() && Painted(g, before, after, region, v)
    requires x < g.stride && g.UnitAt(x, y) < |after|
    ensures Look(g, after, x, y) == if region(x, y) then v else Look(g, before, x, y)
  {
    AddressOfPixel(g, x, y);
  }

  // A pixel set reads back as its truncated colour, and every other pixel as before.
  lemma SetThenGet(g: Geometry, units: seq<int>, x: nat, y: nat, col: nat, x': nat, y': nat)
    requires g.Valid() && IsBuffer(g, units) && g.Contains(x, y) && g.Contains(x', y')
    requires g.UnitAt(x, y) < |units| && g.UnitAt(x', y') < |units|
    ensures Look(g, SetAt(g, units, x, y, Trunc(g.format, col)), x', y')
         == if x == x' && y == y' then Trunc(g.format, col) else Look(g, units, x', y')
  {
    hide SetAt, Painted, Look, Colours;
    var v := Trunc(g.format, col);
    PixelPainted(g, units, x, y, v);
    LookAfterPainting(g, units, SetAt(g, units, x, y, v), Only(x, y), v, x', y');
  }

  // ---- what a unit of the memory is, in terms of the picture

  lemma EightBits(u: int)
    requires 0 <= u < 256
    ensures u == u % 2 + 2 * (u / 2 % 2) + 4 * (u / 4 % 2) + 8 * (u / 8 % 2) + 16 * (u / 16 % 2) + 32 * (u / 32 % 2)
                 + 64 * (u / 64 % 2) + 128 * (u / 128 % 2)
  {
    var a := u / 2;
    var b := a / 2;
    var c := b / 2;
    assert u / 4 == b && u / 8 == c && u / 16 == c / 2 && u / 32 == c / 2 / 2;
    assert u / 64 == c / 2 / 2 / 2 && u / 128 == c / 2 / 2 / 2 / 2;
    FourBits(c / 2);
  }

  lemma FourBits(u: int)
    requires 0 <= u < 16
    ensures u == u % 2 + 2 * (u / 2 % 2) + 4 * (u / 2 / 2 % 2) + 8 * (u / 2 / 2 / 2 % 2)
  {
  }

  lemma FourPairs(u: int)
    requires 0 <= u < 256
    ensures u == u % 4 + 4 * (u / 4 % 4) + 16 * (u / 16 % 4) + 64 * (u / 64 % 4)
  {
  }

  // The bit of a field of one bit.
  lemma OneBitField(f: Format, u: int, k: nat)
    requires f in {MHLSB, MHMSB, MVLSB} && k < 8
    ensures GetField(f, u, k) == u / BitWeight(if f.MHLSB? then 7 - k else k) % 2
  {
    hide BitWeight;
  }

  lemma BitWeights()
    ensures BitWeight(0) == 1 && BitWeight(1) == 2 && BitWeight(2) == 4 && BitWeight(3) == 8
    ensures BitWeight(4) == 16 && BitWeight(5) == 32 && BitWeight(6) == 64 && BitWeight(7) == 128
  {
  }

  lemma MhlsbFields(u: int)
    requires IsUnit(MHLSB, u)
    ensures u == 128 * GetField(MHLSB, u, 0) + 64 * GetField(MHLSB, u, 1) + 32 * GetField(MHLSB, u, 2)
                 + 16 * GetField(MHLSB, u, 3) + 8 * GetField(MHLSB, u, 4) + 4 * GetField(MHLSB, u, 5)
                 + 2 * GetField(MHLSB, u, 6) + GetField(MHLSB, u, 7)
  {
    hide GetField, BitWeight;
    EightBits(u);
    BitWeights();
    forall k: nat | k < 8 ensures GetField(MHLSB, u, k) == u / BitWeight(7 - k) % 2 {
      OneBitField(MHLSB, u, k);
    }
  }

  lemma LowFirstFields(f: Format, u: int)
    requires IsUnit(f, u) && f in {MHMSB, MVLSB}
    ensures u == GetField(f, u, 0) + 2 * GetField(f, u, 1) + 4 * GetField(f, u, 2) + 8 * GetField(f, u, 3)
                 + 16 * GetField(f, u, 4) + 32 * GetField(f, u, 5) + 64 * GetField(f, u, 6) + 128 * GetField(f, u, 7)
  {
    hide GetField, BitWeight;
    EightBits(u);
    BitWeights();
    forall k: nat | k < 8 ensures GetField(f, u, k) == u / BitWeight(k) % 2 {
      OneBitField(f, u, k);
    }
  }

  lemma Gs2Fields(u: int)
    requires IsUnit(GS2_HMSB, u)
    ensures u == GetField(GS2_HMSB, u, 0) + 4 * GetField(GS2_HMSB, u, 1) + 16 * GetField(GS2_HMSB, u, 2)
                 + 64 * GetField(GS2_HMSB, u, 3)
  {
    FourPairs(u);
  }

  lemma InRow(g: Geometry, x: nat, y: nat, i: nat)
    requires g.Valid() && !g.format.MVLSB? && x % PerUnit(g.format) == 0 && i < PerUnit(g.format)
    ensures g.UnitAt(x + i, y) == x / PerUnit(g.format) + y * (g.stride / PerUnit(g.format))
    ensures g.SlotAt(x + i, y) == i
  {
    var p := PerUnit(g.format);
    RowMultiple(x + i, y, g.stride, p);
    Fundamental(x, p);
    DivMod(x / p, i, p);
  }

  lemma InColumn(g: Geometry, x: nat, y: nat, i: nat)
    requires g.format.MVLSB? && y % 8 == 0 && i < 8
    ensures g.UnitAt(x, y + i) == y / 8 * g.stride + x && g.SlotAt(x, y + i) == i
  {
  }

  // Eight pixels of a row in one byte, the leftmost in its highest bit.
  lemma ByteOfMhlsb(g: Geometry, units: seq<int>, x: nat, y: nat)
    requires g.Valid() && IsBuffer(g, units) && g.format == MHLSB && x % 8 == 0
    requires x / 8 + y * (g.stride / 8) < |units|
    ensures forall c: nat :: x <= c < x + 8 ==> g.UnitAt(c, y) < |units|
    ensures units[x / 8 + y * (g.stride / 8)] ==
            128 * Look(g, units, x, y) + 64 * Look(g, units, x + 1, y) + 32 * Look(g, units, x + 2, y)
            + 16 * Look(g, units, x + 3, y) + 8 * Look(g, units, x + 4, y) + 4 * Look(g, units, x + 5, y)
            + 2 * Look(g, units, x + 6, y) + Look(g, units, x + 7, y)
  {
    hide Geometry.UnitAt, Geometry.SlotAt, GetField;
    forall c: nat | x <= c < x + 8
      ensures g.UnitAt(c, y) == x / 8 + y * (g.stride / 8) && g.SlotAt(c, y) == c - x
    {
      InRow(g, x, y, c - x);
    }
    MhlsbFields(units[x / 8 + y * (g.stride / 8)]);
  }

  // Eight pixels of a row in one byte, the leftmost in its lowest bit.
  lemma ByteOfMhmsb(g: Geometry, units: seq<int>, x: nat, y: nat)
    requires g.Valid() && IsBuffer(g, units) && g.format == MHMSB && x % 8 == 0
    requires x / 8 + y * (g.stride / 8) < |units|
    ensures forall c: nat :: x <= c < x + 8 ==> g.UnitAt(c, y) < |units|
    ensures units[x / 8 + y * (g.stride / 8)] ==
            Look(g, units, x, y) + 2 * Look(g, units, x + 1, y) + 4 * Look(g, units, x + 2, y)
            + 8 * Look(g, units, x + 3, y) + 16 * Look(g, units, x + 4, y) + 32 * Look(g, units, x + 5, y)
            + 64 * Look(g, units, x + 6, y) + 128 * Look(g, units, x + 7, y)
  {
    hide Geometry.UnitAt, Geometry.SlotAt, GetField;
    forall c: nat | x <= c < x + 8
      ensures g.UnitAt(c, y) == x / 8 + y * (g.stride / 8) && g.SlotAt(c, y) == c - x
    {
      InRow(g, x, y, c - x);
    }
    LowFirstFields(MHMSB, units[x / 8 + y * (g.stride / 8)]);
  }

  // Eight pixels of a column in one byte, the topmost in its lowest bit.
  lemma ByteOfMvlsb(g: Geometry, units: seq<int>, x: nat, y: nat)
    requires g.Valid() && IsBuffer(g, units) && g.format == MVLSB && y % 8 == 0 && y / 8 * g.stride + x < |units|
    ensures forall r: nat :: y <= r < y + 8 ==> g.UnitAt(x, r) < |units|
    ensures units[y / 8 * g.stride + x] ==
            Look(g, units, x, y) + 2 * Look(g, units, x, y + 1) + 4 * Look(g, units, x, y + 2)
            + 8 * Look(g, units, x, y + 3) + 16 * Look(g, units, x, y + 4) + 32 * Look(g, units, x, y + 5)
            + 64 * Look(g, units, x, y + 6) + 128 * Look(g, units, x, y + 7)
  {
    hide Geometry.UnitAt, Geometry.SlotAt, GetField;
    forall r: nat | y <= r < y + 8
      ensures g.UnitAt(x, r) == y / 8 * g.stride + x && g.SlotAt(x, r) == r - y
    {
      InColumn(g, x, y, r - y);
    }
    LowFirstFields(MVLSB, units[y / 8 * g.stride + x]);
  }

  // Four pixels of a row in one byte, the leftmost in its lowest two bits.
  lemma ByteOfGs2(g: Geometry, units: seq<int>, x: nat, y: nat)
    requires g.Valid() && IsBuffer(g, units) && g.format == GS2_HMSB && x % 4 == 0
    requires x / 4 + y * (g.stride / 4) < |units|
    ensures forall c: nat :: x <= c < x + 4 ==> g.UnitAt(c, y) < |units|
    ensures units[x / 4 + y * (g.stride / 4)] ==
            Look(g, units, x, y) + 4 * Look(g, units, x + 1, y) + 16 * Look(g, units, x + 2, y)
            + 64 * Look(g, units, x + 3, y)
  {
    hide Geometry.UnitAt, Geometry.SlotAt, GetField;
    forall c: nat | x <= c < x + 4
      ensures g.UnitAt(c, y) == x / 4 + y * (g.stride / 4) && g.SlotAt(c, y) == c - x
    {
      InRow(g, x, y, c - x);
    }
    Gs2Fields(units[x / 4 + y * (g.stride / 4)]);
  }

  // Two pixels of a row in one byte, the left one in its high half.
  lemma ByteOfGs4(g: Geometry, units: seq<int>, x: nat, y: nat)
    requires g.Valid() && IsBuffer(g, units) && g.format == GS4_HMSB && x % 2 == 0
    requires x / 2 + y * (g.stride / 2) < |units|
    ensures g.UnitAt(x, y) < |units| && g.UnitAt(x + 1, y) < |units|
    ensures units[x / 2 + y * (g.stride / 2)] == 16 * Look(g, units, x, y) + Look(g, units, x + 1, y)
  {
    hide Geometry.UnitAt, Geometry.SlotAt;
    InRow(g, x, y, 0);
    InRow(g, x, y, 1);
    Fundamental(units[x / 2 + y * (g.stride / 2)], 16);
  }

  // A byte or a 16-bit word for each pixel.
  lemma UnitOfPixel(g: Geometry, units: seq<int>, x: nat, y: nat)
    requires g.Valid() && IsBuffer(g, units) && g.format in {GS8, RGB565} && x + y * g.stride < |units|
    ensures g.UnitAt(x, y) < |units|
    ensures Look(g, units, x, y) == units[x + y * g.stride]
    ensures 0 <= units[x + y * g.stride] < if g.format.RGB565? then 65536 else 256
  {
  }

  // The colours each format can hold, of the colour asked for: black or not, or its low bits.
  lemma TruncExactly(f: Format, col: nat)
    ensures f in {MVLSB, MHLSB, MHMSB} ==> Trunc(f, col) == if col == 0 then 0 else 1
    ensures f in {GS2_HMSB, GS4_HMSB, GS8, RGB565} ==>
              var m := if f.GS2_HMSB? then 4 else if f.GS4_HMSB? then 16 else if f.GS8? then 256 else 65536;
              exists q: nat :: col == q * m + Trunc(f, col) && Trunc(f, col) < m
  {
    if f in {GS2_HMSB, GS4_HMSB, GS8, RGB565} {
      var m := if f.GS2_HMSB? then 4 else if f.GS4_HMSB? then 16 else if f.GS8? then 256 else 65536;
      Fundamental(col, m);
      assert col == (col / m) * m + Trunc(f, col);
    }
  }

  // The pixel at the left of a row of eight, alone in its byte, with the rows both ways round.
  lemma LeftmostPixel(f: Format)
    requires f == MHLSB || f == MHMSB
    ensures SetAt(Geometry(f, 8, 1, 8), [0], 0, 0, 1) == [if f == MHLSB then 128 else 1]
  {
    var g := Geometry(f, 8, 1, 8);
    assert g.UnitAt(0, 0) == 0 && g.SlotAt(0, 0) == 0;
    assert GetField(f, 0, 0) == 0;
  }

  // The codes that stand for a format, by the numbers the module exports, and no others.
  lemma FormatCodes(code: int)
    ensures FormatOf(0) == Some(MVLSB) && FormatOf(1) == Some(RGB565) && FormatOf(2) == Some(GS4_HMSB)
    ensures FormatOf(3) == Some(MHLSB) && FormatOf(4) == Some(MHMSB) && FormatOf(5) == Some(GS2_HMSB)
    ensures FormatOf(6) == Some(GS8)
    ensures FormatOf(code).Some? <==> 0 <= code <= 6
  {
  }
}
