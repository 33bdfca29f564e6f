/**
  Where the fields of a uctypes structure are: each at the offset written in its descriptor, with
  the width of its type, and the elements of an array one behind the other.
 */
module UctypesPlaces {
  import opened Arith
  import opened Uctypes
  import opened Wrappers

  // ---- descriptors as words of 31 bits

  // The word of a scalar, a bit field or an array of scalars: four bits of type above 27 bits.
  predicate IsScalarWord(x: int, t: nat, low: nat) {
    t < 16 && low < 0x800_0000 && x % 0x8000_0000 == t * 0x800_0000 + low
  }

  // The word of an aggregate: two bits of type above 29 bits of offset.
  predicate IsTupleWord(x: int, t: nat, low: nat) {
    t < 4 && low < 0x2000_0000 && x % 0x8000_0000 == t * 0x2000_0000 + low
  }

  // The bytes of each scalar type, in the order of the type numbers: eight integers from UINT8 to
  // INT64, six bit fields in units of one, two or four bytes, and the two floats.
  const WIDTHS: seq<nat> := [1, 1, 2, 2, 4, 4, 8, 8, 1, 1, 2, 2, 4, 4, 4, 8]

  lemma ScalarWord(x: int, t: nat, low: nat)
    requires IsScalarWord(x, t, low)
    ensures ValType(x) == t && ValBits(x) == low
    ensures ScalarSize(t) == WIDTHS[t]
  {
    Fundamental(x, 0x8000_0000);
    var q := x / 0x8000_0000;
    DivMod(q * 16 + t, low, 0x800_0000);
    DivMod(q, t, 16);
  }

  lemma TupleWord(x: int, t: nat, low: nat)
    requires IsTupleWord(x, t, low)
    ensures AggType(x) == t && AggOffset(x) == low
  {
    Fundamental(x, 0x8000_0000);
    var q := x / 0x8000_0000;
    DivMod(q * 4 + t, low, 0x2000_0000);
    DivMod(q, t, 4);
  }

  // A field is described as being at an offset. The word of a bit field holds its first bit and
  // its number of bits above 17 bits of offset.
  ghost predicate IsAt(d: Desc, off: nat) {
    match d
    case SmallInt(x) =>
      || (exists t: nat :: !(8 <= t <= 13) && IsScalarWord(x, t, off))
      || (exists t: nat, bits: nat :: 8 <= t <= 13 && off < 0x2_0000 && IsScalarWord(x, t, BitField(off, bits)))
    case Tuple(head, _) => exists t: nat :: IsTupleWord(head, t, off)
    case _ => false
  }

  function BitField(off: nat, bits: nat): nat {
    bits * 0x2_0000 + off
  }

  // ---- one access

  // A scalar is reached at its offset, with the bytes of its type.
  lemma ScalarReached(v: View, native: bool, name: string, x: int, t: nat, off: nat)
    requires v.desc.Dict? && Find(v.desc.fields, name) == Some(SmallInt(x)) && !(8 <= t <= 13)
    requires IsScalarWord(x, t, off)
    ensures GetAttr(v, native, name) == Touched(v.addr + off, WIDTHS[t])
  {
    hide ValType, ValBits;
    ScalarWord(x, t, off);
  }

  // A bit field is reached at the 17 low bits of its offset.
  lemma BitFieldReached(v: View, native: bool, name: string, x: int, t: nat, off: nat, bits: nat)
    requires v.desc.Dict? && Find(v.desc.fields, name) == Some(SmallInt(x)) && 8 <= t <= 13
    requires off < 0x2_0000 && IsScalarWord(x, t, BitField(off, bits))
    ensures GetAttr(v, native, name) == Touched(v.addr + off, WIDTHS[t])
  {
    hide ValType, ValBits;
    ScalarWord(x, t, BitField(off, bits));
    DivMod(bits, off, 0x2_0000);
  }

  // A nested structure, an array and a pointer are reached at their offset; an array of bytes is
  // touched as a whole.
  lemma AggregateReached(v: View, native: bool, name: string, head: int, args: Args, t: nat, off: nat)
    requires v.desc.Dict? && Find(v.desc.fields, name) == Some(Tuple(head, args)) && IsTupleWord(head, t, off)
    ensures t == 0 && args.One? ==> GetAttr(v, native, name) == Inner(View(args.a, v.addr + off))
    ensures t == 1 ==> GetAttr(v, native, name) == Inner(View(Tuple(head, args), v.addr + off))
    ensures t == 2 && args.One? && args.a.SmallInt? ==>
              forall n: nat :: IsScalarWord(args.a.v, 0, n) ==> GetAttr(v, native, name) == Touched(v.addr + off, n)
    ensures t == 2 && !(args.One? && args.a.SmallInt? && ValType(args.a.v) == 0) ==>
              GetAttr(v, native, name) == Inner(View(Tuple(head, args), v.addr + off))
    ensures t == 3 || (t == 0 && !args.One?) ==> GetAttr(v, native, name) == Failed
  {
    hide ValType, ValBits, AggType, AggOffset;
    TupleWord(head, t, off);
    if args.One? && args.a.SmallInt? {
      forall n: nat | IsScalarWord(args.a.v, 0, n) ensures ValType(args.a.v) == 0 && ValBits(args.a.v) == n {
        ScalarWord(args.a.v, 0, n);
      }
    }
  }

  // The elements of an array of n scalars of a type follow one another from the address of the
  // array, and there are n.
  lemma ScalarElements(v: View, native: bool, head: int, x: int, off: nat, t: nat, n: nat, i: nat)
    requires v.desc == Tuple(head, One(SmallInt(x))) && IsTupleWord(head, 2, off) && IsScalarWord(x, t, n)
    ensures GetItem(v, native, i) == if i < n then Touched(v.addr + WIDTHS[t] * i, WIDTHS[t]) else Failed
  {
    hide ValType, ValBits, AggType, AggOffset;
    TupleWord(head, 2, off);
    ScalarWord(x, t, n);
  }

  // The elements of an array of n structures too, each as far on as one structure alone takes.
  lemma StructElements(v: View, native: bool, head: int, x: int, d: Desc, off: nat, n: nat, i: nat)
    requires v.desc == Tuple(head, Two(SmallInt(x), d)) && IsTupleWord(head, 2, off) && IsScalarWord(x, 0, n)
    ensures GetItem(v, native, i) ==
            if i < n && Size(d, native, 0).Some? then Inner(View(d, v.addr + Size(d, native, 0).value.size * i))
            else Failed
  {
    hide ValType, ValBits, AggType, AggOffset, Size;
    TupleWord(head, 2, off);
    ScalarWord(x, 0, n);
  }

  function Place(r: Reached): int
    requires !r.Failed?
  {
    if r.Inner? then r.v.addr else r.addr
  }

  // Elements i and j of any array are i - j element sizes apart, and element 0 is at its start.
  lemma ElementsApart(v: View, native: bool, i: nat, j: nat)
    requires v.desc.Tuple? && AggType(v.desc.head) == 2
    requires !GetItem(v, native, i).Failed? && !GetItem(v, native, j).Failed?
    ensures v.desc.args.One? || v.desc.args.Two?
    ensures var width: int := if v.desc.args.One? then GetItem(v, native, i).width
                              else Size(v.desc.args.b, native, 0).value.size;
            && Place(GetItem(v, native, i)) - Place(GetItem(v, native, j)) == (i - j) * width
            && (j == 0 ==> Place(GetItem(v, native, j)) == v.addr)
  {
    hide Size, ValBits, ValType, ScalarSize;
    var width: int := if v.desc.args.One? then ScalarSize(ValType(v.desc.args.a.v))
                      else Size(v.desc.args.b, native, 0).value.size;
    Distribute(i - j, j, width);
  }

  // ---- everything reached through a field

  lemma OffsetOfField(d: Desc, native: bool, off: nat)
    requires IsAt(d, off) && FieldSize(d, native, 0).Some?
    ensures FieldSize(d, native, 0).value.0 == off
  {
    hide ValType, ValBits, AggOffset, AggSize, IsScalarWord, IsTupleWord;
    if d.SmallInt? {
      if t: nat, bits: nat :| 8 <= t <= 13 && off < 0x2_0000 && IsScalarWord(d.v, t, BitField(off, bits)) {
        ScalarWord(d.v, t, BitField(off, bits));
        DivMod(bits, off, 0x2_0000);
      } else {
        var t: nat :| !(8 <= t <= 13) && IsScalarWord(d.v, t, off);
        ScalarWord(d.v, t, off);
      }
    } else {
      var t: nat :| IsTupleWord(d.head, t, off);
      TupleWord(d.head, t, off);
    }
  }

  // An object got through a field starts at the offset of the field and takes no more than it.
  lemma FieldObject(v: View, native: bool, name: string, d: Desc)
    requires v.desc.Dict? && Find(v.desc.fields, name) == Some(d) && FieldSize(d, native, 0).Some?
    ensures var r, off, s := GetAttr(v, native, name), FieldSize(d, native, 0).value.0, FieldSize(d, native, 0).value.1;
            && (r.Inner? ==> r.v.addr == v.addr + off && Size(r.v.desc, native, 0) == Some(s))
            && (r.Touched? ==> r.addr == v.addr + off && r.width == s.size)
  {
    hide AggType, AggOffset, ScalarOffset, ScalarSize, ValType;
  }

  // Whatever chain of accesses goes through a field touches memory between the field's offset and
  // the end of what the field takes.
  lemma ReachedInField(v: View, native: bool, name: string, d: Desc, off: nat, steps: seq<Step>)
    requires v.desc.Dict? && Find(v.desc.fields, name) == Some(d) && IsAt(d, off)
    requires FieldSize(d, native, 0).Some?
    ensures Within(Walk(v, native, [Attr(name)] + steps), v.addr + off, FieldSize(d, native, 0).value.1.size)
  {
    hide GetAttr, FieldSize, IsAt, Size;
    OffsetOfField(d, native, off);
    FieldObject(v, native, name, d);
    var path := [Attr(name)] + steps;
    assert path[0] == Attr(name) && path[1..] == steps;
    var r := GetAttr(v, native, name);
    assert Take(v, native, path[0]) == r;
    if r.Inner? {
      WalkStaysInside(r.v, native, steps);
    }
  }

  // The main result: through fields that are described at disjoint places, only disjoint memory is
  // touched, however deep the chains of accesses go.
  lemma DisjointFields(v: View, native: bool, a: string, b: string, d: Desc, e: Desc, off: nat, off': nat,
                       steps: seq<Step>, steps': seq<Step>)
    requires v.desc.Dict? && Find(v.desc.fields, a) == Some(d) && Find(v.desc.fields, b) == Some(e)
    requires IsAt(d, off) && IsAt(e, off') && FieldSize(d, native, 0).Some? && FieldSize(e, native, 0).Some?
    requires off + FieldSize(d, native, 0).value.1.size <= off'
    ensures var r, r' := Walk(v, native, [Attr(a)] + steps), Walk(v, native, [Attr(b)] + steps');
            r.Touched? && r'.Touched? ==> r.addr + r.width <= r'.addr
  {
    hide FieldSize, IsAt, Walk, Find;
    ReachedInField(v, native, a, d, off, steps);
    ReachedInField(v, native, b, e, off', steps');
  }

  // Two 32-bit fields, one behind the other.
  lemma SecondWord(native: bool)
    ensures var two := Dict(Field("a", SmallInt(4 * 0x800_0000), Field("b", SmallInt(4 * 0x800_0000 + 4), NoField)));
            && GetAttr(View(two, 100), native, "a") == Touched(100, 4)
            && GetAttr(View(two, 100), native, "b") == Touched(104, 4)
  {
    var two := Dict(Field("a", SmallInt(4 * 0x800_0000), Field("b", SmallInt(4 * 0x800_0000 + 4), NoField)));
    ScalarReached(View(two, 100), native, "a", 4 * 0x800_0000, 4, 0);
    ScalarReached(View(two, 100), native, "b", 4 * 0x800_0000 + 4, 4, 4);
  }

  // ---- how far a structure extends

  // The biggest scalar or pointer anywhere in a descriptor.
  ghost function Biggest(d: Desc): nat
    decreases d, 0
  {
    match d
    case Dict(fields) => BiggestField(fields)
    case Tuple(head, args) => BiggestItem(head, args)
    case _ => 0
  }

  ghost function BiggestItem(head: int, args: Args): nat
    decreases args, 1
  {
    if AggType(head) == 0 && args.One? then Biggest(args.a)
    else if AggType(head) == 1 then SIZEOF_POINTER
    else if args.One? && args.a.SmallInt? then WIDTHS[ValType(args.a.v)]
    else if args.Two? then Biggest(args.b)
    else 0
  }

  ghost function BiggestField(f: Fields): nat
    decreases f, 0
  {
    if f.NoField? then 0
    else
      var one := match f.value
        case SmallInt(x) => WIDTHS[ValType(x)]
        case Tuple(head, args) => BiggestItem(head, args)
        case _ => 0;
      Max(one, BiggestField(f.more))
  }

  lemma WidthOfType(t: nat)
    requires t < 16
    ensures ScalarSize(t) == WIDTHS[t]
  {
  }

  // The accumulator that runs through the computation of a size ends as the biggest of what it
  // was and of everything in the descriptor.
  lemma {:induction false} AccumulatesBiggest(d: Desc, native: bool, m: nat)
    ensures Size(d, native, m).Some? ==> Size(d, native, m).value.max == Max(m, Biggest(d))
    decreases d, 0
  {
    match d {
      case Dict(fields) => FieldsAccumulate(fields, native, Sized(0, m));
      case Tuple(head, args) => ItemAccumulates(head, args, native, m);
      case SmallInt(_) =>
      case Other =>
    }
  }

  lemma {:induction false} ItemAccumulates(head: int, args: Args, native: bool, m: nat)
    ensures AggSize(head, args, native, m).Some? ==>
              AggSize(head, args, native, m).value.max == Max(m, BiggestItem(head, args))
    decreases args, 1
  {
    hide AggType, ValType, ValBits, ScalarSize;
    if AggType(head) == 0 && args.One? {
      AccumulatesBiggest(args.a, native, m);
    } else if args.One? && args.a.SmallInt? {
      WidthOfType(ValType(args.a.v));
    } else if args.Two? {
      AccumulatesBiggest(args.b, native, m);
    }
  }

  lemma {:induction false} FieldsAccumulate(f: Fields, native: bool, s: Sized)
    ensures FieldsSize(f, native, s).Some? ==> FieldsSize(f, native, s).value.max == Max(s.max, BiggestField(f))
    decreases f, 0
  {
    hide ScalarOffset, AggOffset, AggSize, BiggestItem, ValType, ScalarSize;
    if f.Field? {
      match f.value
      case SmallInt(x) =>
        var z := ScalarSize(ValType(x));
        WidthOfType(ValType(x));
        FieldsAccumulate(f.more, native, Sized(Max(s.size, ScalarOffset(x) + z), Max(s.max, z)));
      case Tuple(head, args) =>
        ItemAccumulates(head, args, native, s.max);
        var a := AggSize(head, args, native, s.max);
        if a.Some? {
          FieldsAccumulate(f.more, native, Sized(Max(s.size, AggOffset(head) + a.value.size), a.value.max));
        }
      case _ =>
    }
  }

  predicate Among(last: Fields, f: Fields) {
    last == f || (f.Field? && Among(last, f.more))
  }

  // The fields of a dict end where its last byte is: no field extends further, and one extends
  // so far.
  lemma {:induction false} LastFieldEnds(f: Fields, native: bool, s: Sized) returns (last: Fields, m: nat)
    requires FieldsSize(f, native, s).Some? && FieldsSize(f, native, s).value.size > s.size
    ensures Among(last, f) && last.Field? && FieldSize(last.value, native, m).Some?
    ensures var p := FieldSize(last.value, native, m).value; p.0 + p.1.size == FieldsSize(f, native, s).value.size
    decreases f
  {
    hide FieldSize;
    var p := FieldSize(f.value, native, s.max).value;
    var next := Sized(Max(s.size, p.0 + p.1.size), p.1.max);
    if FieldsSize(f.more, native, next).value.size > next.size {
      last, m := LastFieldEnds(f.more, native, next);
    } else {
      SizeOnlyGrows(f.more, native, next);
      last, m := f, s.max;
    }
  }

  lemma {:induction false} SizeOnlyGrows(f: Fields, native: bool, s: Sized)
    requires FieldsSize(f, native, s).Some?
    ensures FieldsSize(f, native, s).value.size >= s.size
    decreases f
  {
    hide FieldSize;
    if f.Field? {
      var p := FieldSize(f.value, native, s.max).value;
      SizeOnlyGrows(f.more, native, Sized(Max(s.size, p.0 + p.1.size), p.1.max));
    }
  }

  // With the byte order of the machine the size is the least multiple of the biggest field's that
  // covers all fields; with a given one it is where the last field ends.
  lemma SizeIsLeast(fields: Fields, native: bool, m: nat)
    requires IsMax(m) && Size(Dict(fields), native, m).Some? && Max(m, BiggestField(fields)) > 0
    ensures FieldsSize(fields, native, Sized(0, m)).Some?
    ensures var end, s, unit := FieldsSize(fields, native, Sized(0, m)).value.size,
                                Size(Dict(fields), native, m).value.size, Max(m, BiggestField(fields));
            && (!native ==> s == end)
            && (native ==> end <= s && s % unit == 0 && forall r: nat :: end <= r && r % unit == 0 ==> s <= r)
  {
    hide RoundUp, FieldsSize, BiggestField;
    FieldsAccumulate(fields, native, Sized(0, m));
    FieldsSizeGrows(fields, native, Sized(0, m), Sized(0, m));
    var a := FieldsSize(fields, native, Sized(0, m)).value;
    RoundUpLeast(a.size, a.max);
  }

  // A 32-bit field and a byte behind it.
  lemma FiveOrEight()
    ensures var d := Dict(Field("a", SmallInt(4 * 0x800_0000), Field("b", SmallInt(4), NoField)));
            Size(d, false, 0) == Some(Sized(5, 4)) && Size(d, true, 0) == Some(Sized(8, 4))
  {
    var d := Dict(Field("a", SmallInt(4 * 0x800_0000), Field("b", SmallInt(4), NoField)));
    ScalarWord(4 * 0x800_0000, 4, 0);
    ScalarWord(4, 0, 4);
    assert FieldsSize(Field("b", SmallInt(4), NoField), true, Sized(4, 4)) == Some(Sized(5, 4));
    assert FieldsSize(Field("b", SmallInt(4), NoField), false, Sized(4, 4)) == Some(Sized(5, 4));
  }
}
