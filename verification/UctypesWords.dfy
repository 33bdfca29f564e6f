/** The sizes of uctypes layouts as a machine word computes them. */
module UctypesWords {
  import opened Arith
  import opened Uctypes
  import opened Wrappers

  // The values of a word as wide as a pointer.
  function Range(): nat {
    if SIZEOF_POINTER == 4 then 0x1_0000_0000 else 0x1_0000_0000_0000_0000
  }

  function Word(n: nat): nat {
    n % Range()
  }

  // (total + max - 1) & ~(max - 1)
  function WordRoundUp(total: nat, max: nat): nat {
    if max == 0 then 0
    else
      var n := Word(total + max - 1);
      PartBelow(n, max);
      n - n % max
  }

  lemma PartBelow(n: nat, m: nat)
    requires m > 0
    ensures 0 <= n % m <= n && n - n % m == n / m * m
  {
    Fundamental(n, m);
    QuotientNonNegative(n, m);
    NonNegative(n / m, m);
  }

  function WordSize(d: Desc, native: bool, m: nat): Option<Sized>
    decreases d, 0
  {
    match d
    case Dict(fields) =>
      (match WordFieldsSize(fields, native, Sized(0, m))
       case None => None
       case Some(s) => Some(if native then Sized(WordRoundUp(s.size, s.max), s.max) else s))
    case Tuple(head, args) => WordAggSize(head, args, native, m)
    case SmallInt(_) => None
    case Other => None
  }

  function WordAggSize(head: int, args: Args, native: bool, m: nat): Option<Sized>
    decreases args, 1
  {
    if AggType(head) == STRUCT then
      if args.One? then WordSize(args.a, native, m) else None
    else if AggType(head) == PTR then
      if args.One? then Some(Sized(SIZEOF_POINTER, Max(m, SIZEOF_POINTER))) else None
    else if AggType(head) == ARRAY && (args.One? || args.Two?) && args.a.SmallInt? then
      if args.One? then
        var s := ScalarSize(ValType(args.a.v));
        Some(Sized(Word(s * ValBits(args.a.v)), Max(m, s)))
      else
        match WordSize(args.b, native, m)
        case None => None
        case Some(s) => Some(Sized(Word(s.size * ValBits(args.a.v)), s.max))
    else None
  }

  function WordFieldsSize(f: Fields, native: bool, s: Sized): Option<Sized>
    decreases f, 0
  {
    if f.NoField? then Some(s)
    else match WordFieldSize(f.value, native, s.max)
      case None => None
      case Some(p) => WordFieldsSize(f.more, native, Sized(Max(s.size, Word(p.0 + p.1.size)), p.1.max))
  }

  function WordFieldSize(v: Desc, native: bool, m: nat): Option<(nat, Sized)>
    decreases v, 2
  {
    match v
    case SmallInt(x) =>
      var s := ScalarSize(ValType(x));
      Some((ScalarOffset(x), Sized(s, Max(m, s))))
    case Tuple(head, args) =>
      (match WordAggSize(head, args, native, m)
       case None => None
       case Some(s) => Some((AggOffset(head), s)))
    case _ => None
  }

  lemma WordBelow(n: nat)
    ensures Word(n) < Range() && (n < Range() ==> Word(n) == n)
  {
    Fundamental(n, Range());
    if n < Range() {
      DivMod(0, n, Range());
    }
  }

  // A word is right exactly when the number fits.
  ghost predicate Right(a: Option<Sized>, w: Option<Sized>) {
    && (a.None? <==> w.None?)
    && (a.Some? ==> a.value.max == w.value.max && w.value.size < Range()
                    && (a.value.size < Range() ==> w.value.size == a.value.size))
  }

  lemma RangeIsMultiple(r: nat, max: nat)
    requires IsAlignment(max) && r % max == 0 && r < Range()
    ensures r + max <= Range()
  {
    Fundamental(r, max);
    var q := r / max;
    if max == 8 {
      assert r == 8 * q;
    } else if max == 4 {
      assert r == 4 * q;
    } else if max == 2 {
      assert r == 2 * q;
    }
  }

  lemma WordRoundUpRight(total: nat, max: nat)
    requires IsMax(max)
    ensures WordRoundUp(total, max) < Range()
    ensures RoundUp(total, max) < Range() ==> WordRoundUp(total, max) == RoundUp(total, max)
  {
    WordBelow(total + max - if max > 0 then 1 else 0);
    if max > 0 {
      Fundamental(Word(total + max - 1), max);
      RoundUpLeast(total, max);
      if RoundUp(total, max) < Range() {
        RangeIsMultiple(RoundUp(total, max), max);
      }
    }
  }

  lemma {:induction false} SizeRight(d: Desc, native: bool, m: nat)
    requires IsMax(m)
    ensures Right(Size(d, native, m), WordSize(d, native, m))
    decreases d, 0
  {
    hide RoundUp, WordRoundUp, Range, Word;
    match d {
      case Dict(fields) =>
        PointerFits();
        FieldsSizeRight(fields, native, Sized(0, m));
        FieldsSizeGrows(fields, native, Sized(0, m), Sized(0, m));
        var s, w := FieldsSize(fields, native, Sized(0, m)), WordFieldsSize(fields, native, Sized(0, m));
        if s.Some? && native {
          WordRoundUpRight(w.value.size, w.value.max);
          if s.value.max > 0 {
            RoundUpLeast(s.value.size, s.value.max);
          }
          Unrounded(s.value.size, w.value.size);
        }
      case Tuple(head, args) => AggSizeRight(head, args, native, m);
      case SmallInt(_) =>
      case Other =>
    }
  }

  lemma Unrounded(t: nat, u: nat)
    ensures RoundUp(t, 0) == WordRoundUp(u, 0) == 0
  {
  }

  lemma {:induction false} AggSizeRight(head: int, args: Args, native: bool, m: nat)
    requires IsMax(m)
    ensures Right(AggSize(head, args, native, m), WordAggSize(head, args, native, m))
    decreases args, 1
  {
    hide AggType, ValBits, ValType, ScalarSize, Word;
    PointerFits();
    if AggType(head) == STRUCT && args.One? {
      SizeRight(args.a, native, m);
    }
    if AggType(head) == ARRAY && args.One? && args.a.SmallInt? {
      WordBelow(ScalarSize(ValType(args.a.v)) * ValBits(args.a.v));
    }
    if AggType(head) == ARRAY && args.Two? && args.a.SmallInt? {
      SizeRight(args.b, native, m);
      var s, w := Size(args.b, native, m), WordSize(args.b, native, m);
      if s.Some? {
        ProductRight(s.value.size, w.value.size, ValBits(args.a.v));
      }
    }
  }

  lemma PointerFits()
    ensures SIZEOF_POINTER < Range() && 8 < Range()
  {
  }

  lemma ProductRight(s: nat, w: nat, n: nat)
    requires w < Range() && (s < Range() ==> w == s)
    ensures Word(w * n) < Range() && (s * n < Range() ==> Word(w * n) == s * n)
  {
    hide Word;
    NonNegative(w, n);
    WordBelow(w * n);
    if n > 0 {
      AtLeast(n, s + 1);
      Distribute(s, 1, n);
      assert s <= s * n by {
        Monotone(1, n, s);
      }
    }
  }

  lemma {:induction false} FieldSizeRight(v: Desc, native: bool, m: nat)
    requires IsMax(m)
    ensures var a, w := FieldSize(v, native, m), WordFieldSize(v, native, m);
            && (a.None? <==> w.None?)
            && (a.Some? ==> a.value.0 == w.value.0 && Right(Some(a.value.1), Some(w.value.1)))
    decreases v, 2
  {
    hide ScalarOffset, AggOffset, ScalarSize, ValType, AggSize, WordAggSize;
    PointerFits();
    if v.Tuple? {
      AggSizeRight(v.head, v.args, native, m);
    }
  }

  lemma {:induction false} FieldsSizeRight(f: Fields, native: bool, s: Sized)
    requires IsMax(s.max) && s.size < Range()
    ensures Right(FieldsSize(f, native, s), WordFieldsSize(f, native, s))
    decreases f, 0
  {
    hide FieldSize, WordFieldSize, Word;
    if f.Field? {
      FieldSizeRight(f.value, native, s.max);
      FieldSizeGrows(f.value, native, s.max, s.max);
      var a, w := FieldSize(f.value, native, s.max), WordFieldSize(f.value, native, s.max);
      if a.Some? {
        WordBelow(w.value.0 + w.value.1.size);
        var next := Sized(Max(s.size, a.value.0 + a.value.1.size), a.value.1.max);
        var word := Sized(Max(s.size, Word(w.value.0 + w.value.1.size)), w.value.1.max);
        FieldsSizeRight(f.more, native, word);
        FieldsSizeGrows(f.more, native, next, next);
        FieldsSizeJoins(f.more, native, word, next, 0);
      }
    }
  }

  // The main result: the size computed in words is the size if and only if the size fits a word.
  lemma SizeExact(d: Desc, native: bool)
    requires Size(d, native, 0).Some?
    ensures WordSize(d, native, 0).Some?
    ensures WordSize(d, native, 0).value.size == Size(d, native, 0).value.size
            <==> Size(d, native, 0).value.size < Range()
  {
    hide Size, WordSize;
    SizeRight(d, native, 0);
  }

  // So whatever accesses touch lies within the size computed if the size fits a word.
  lemma WalkStaysInsideWord(v: View, native: bool, steps: seq<Step>)
    requires Size(v.desc, native, 0).Some?
    ensures WordSize(v.desc, native, 0).Some?
    ensures Size(v.desc, native, 0).value.size < Range() ==>
              Within(Walk(v, native, steps), v.addr, WordSize(v.desc, native, 0).value.size)
  {
    hide Size, WordSize, Walk;
    SizeExact(v.desc, native);
    WalkStaysInside(v, native, steps);
  }

  // A structure of 64 bytes, and an array of 2^26 of them.
  const BYTES: Desc := Tuple(0x4000_0000, One(SmallInt(64)))
  const ELEM: Desc := Dict(Field("b", BYTES, NoField))
  const ROOT: Desc := Tuple(0x4000_0000, Two(SmallInt(0x400_0000), ELEM))

  lemma BytesSizes()
    ensures AggSize(0x4000_0000, One(SmallInt(64)), true, 0) == Some(Sized(64, 1))
    ensures WordAggSize(0x4000_0000, One(SmallInt(64)), true, 0) == Some(Sized(64, 1))
  {
  }

  lemma ElemSizes()
    ensures Size(ELEM, true, 0) == Some(Sized(64, 1)) && WordSize(ELEM, true, 0) == Some(Sized(64, 1))
  {
    BytesSizes();
    hide AggSize, WordAggSize;
    assert FieldsSize(ELEM.fields, true, Sized(0, 0)) == Some(Sized(64, 1));
    assert WordFieldsSize(ELEM.fields, true, Sized(0, 0)) == Some(Sized(64, 1));
  }

  // For one, with words of 32 bits: the array has size 0, and the bytes of its first structure
  // are outside.
  lemma SizeWraps()
    requires SIZEOF_POINTER == 4
    ensures Size(ROOT, true, 0) == Some(Sized(0x1_0000_0000, 1))
    ensures WordSize(ROOT, true, 0) == Some(Sized(0, 1))
  {
    ElemSizes();
    hide FieldsSize, WordFieldsSize;
    assert AggSize(ROOT.head, ROOT.args, true, 0) == Some(Sized(0x1_0000_0000, 1));
    assert WordAggSize(ROOT.head, ROOT.args, true, 0) == Some(Sized(0, 1));
  }

  lemma FirstItem()
    ensures GetItem(View(ROOT, 0), true, 0) == Inner(View(ELEM, 0))
  {
    ElemSizes();
    HeadBits();
    hide Size, AggType, ValBits;
  }

  lemma HeadBits()
    ensures AggType(0x4000_0000) == ARRAY && ValBits(0x400_0000) == 0x400_0000
  {
  }

  lemma BytesField()
    ensures GetAttr(View(ELEM, 0), true, "b") == Touched(0, 64)
  {
    BytesSizes();
    hide AggSize;
    assert Find(ELEM.fields, "b") == Some(BYTES);
  }

  lemma FirstBytes()
    ensures Walk(View(ROOT, 0), true, [Index(0), Attr("b")]) == Touched(0, 64)
  {
    hide GetItem, GetAttr;
    FirstItem();
    BytesField();
    var item, attr := Index(0), Attr("b");
    assert Take(View(ROOT, 0), true, item) == Inner(View(ELEM, 0));
    assert Take(View(ELEM, 0), true, attr) == Touched(0, 64);
    hide Take;
    assert [item, attr][1..] == [attr];
    assert Walk(View(ELEM, 0), true, [attr]) == Touched(0, 64);
  }
}
