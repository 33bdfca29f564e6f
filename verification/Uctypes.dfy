/**
  Layouts of the uctypes module: the size computed for a descriptor, with one accumulator for the
  biggest field shared by everything nested, and the addresses that field and index access reach.
 */
module Uctypes {
  import opened Arith
  import opened Wrappers

  // ---- descriptors

  // A dict from names to descriptors, a tuple whose first item is a small int, a small int, or
  // anything else. Only the two items after the first of a tuple matter.
  datatype Desc =
    | Dict(fields: Fields)
    | Tuple(head: int, args: Args)
    | SmallInt(v: int)
    | Other

  datatype Args = NoArgs | One(a: Desc) | Two(a: Desc, b: Desc) | More

  datatype Fields = NoField | Field(name: string, value: Desc, more: Fields)

  const STRUCT := 0
  const PTR := 1
  const ARRAY := 2
  const UINT8 := 0
  const BFUINT8 := 8
  const BFINT32 := 13
  const FLOAT32 := 14

  // The size of a pointer is that of the port, here either of the usual two.
  type PointerSize = n: nat | n == 4 || n == 8 witness 4

  const SIZEOF_POINTER: PointerSize

  // The type bits of a 31-bit small int, and the bits below them.
  function ValType(v: int): (t: int)
    ensures 0 <= t < 16
  {
    v / 0x800_0000 % 16
  }

  function ValBits(v: int): nat {
    v % 0x800_0000
  }

  function AggType(v: int): (t: int)
    ensures 0 <= t < 4
  {
    v / 0x2000_0000 % 4
  }

  function AggOffset(v: int): nat {
    v % 0x2000_0000
  }

  // A bit field keeps only 17 bits of offset.
  function ScalarOffset(v: int): nat {
    if BFUINT8 <= ValType(v) <= BFINT32 then ValBits(v) % 0x2_0000 else ValBits(v)
  }

  // uctypes_struct_scalar_size
  function ScalarSize(t: int): (s: nat)
    requires 0 <= t < 16
    ensures IsAlignment(s)
  {
    if t == FLOAT32 then 4 else [1, 1, 2, 2, 4, 4, 8, 8][t % 8]
  }

  predicate IsAlignment(m: nat) {
    m == 1 || m == 2 || m == 4 || m == 8
  }

  predicate IsMax(m: nat) {
    m == 0 || IsAlignment(m)
  }

  function Max(a: nat, b: nat): nat {
    if a > b then a else b
  }

  // ---- sizes

  // A size and the biggest field so far.
  datatype Sized = Sized(size: nat, max: nat)

  // (total + max - 1) & ~(max - 1), which is 0 when no field has been seen.
  function RoundUp(total: nat, max: nat): nat {
    if max == 0 then 0 else (total + max - 1) / max * max
  }

  // uctypes_struct_size; None where it raises.
  function Size(d: Desc, native: bool, m: nat): Option<Sized>
    decreases d, 0
  {
    match d
    case Dict(fields) =>
      (match FieldsSize(fields, native, Sized(0, m))
       case None => None
       case Some(s) => Some(if native then Sized(RoundUp(s.size, s.max), s.max) else s))
    case Tuple(head, args) => AggSize(head, args, native, m)
    case SmallInt(_) => None
    case Other => None
  }

  // uctypes_struct_agg_size
  function AggSize(head: int, args: Args, native: bool, m: nat): Option<Sized>
    decreases args, 1
  {
    if AggType(head) == STRUCT then
      if args.One? then Size(args.a, native, m) else None
    else if AggType(head) == PTR then
      if args.One? then Some(Sized(SIZEOF_POINTER, Max(m, SIZEOF_POINTER))) else None
    else if AggType(head) == ARRAY && (args.One? || args.Two?) && args.a.SmallInt? then
      if args.One? then
        var s := ScalarSize(ValType(args.a.v));
        Some(Sized(s * ValBits(args.a.v), Max(m, s)))
      else
        match Size(args.b, native, m)
        case None => None
        case Some(s) => Some(Sized(s.size * ValBits(args.a.v), s.max))
    else None
  }

  function FieldsSize(f: Fields, native: bool, s: Sized): Option<Sized>
    decreases f, 0
  {
    if f.NoField? then Some(s)
    else match FieldSize(f.value, native, s.max)
      case None => None
      case Some(p) => FieldsSize(f.more, native, Sized(Max(s.size, p.0 + p.1.size), p.1.max))
  }

  // The offset of a field, its size and the accumulator after it.
  function FieldSize(v: Desc, native: bool, m: nat): Option<(nat, Sized)>
    decreases v, 2
  {
    match v
    case SmallInt(x) =>
      var s := ScalarSize(ValType(x));
      Some((ScalarOffset(x), Sized(s, Max(m, s))))
    case Tuple(head, args) =>
      (match AggSize(head, args, native, m)
       case None => None
       case Some(s) => Some((AggOffset(head), s)))
    case _ => None
  }

  // ---- the size functions as they run

  method StructSize(d: Desc, native: bool, m: nat) returns (r: Option<Sized>)
    ensures r == Size(d, native, m)
    decreases d, 0
  {
    hide ScalarOffset, ScalarSize, AggOffset, ValType, AggSize;
    match d {
      case Dict(fields) =>
        var total, max := 0, m;
        var f := fields;
        while f.Field?
          invariant f.NoField? || f == fields || f < fields
          invariant FieldsSize(f, native, Sized(total, max)) == FieldsSize(fields, native, Sized(0, m))
          decreases f
        {
          var offset, s := 0, 0;
          match f.value {
            case SmallInt(v) =>
              offset, s := ScalarOffset(v), ScalarSize(ValType(v));
              max := if s > max then s else max;
            case Tuple(head, args) =>
              offset := AggOffset(head);
              var a := TupleSize(head, args, native, max);
              if a.None? {
                return None;
              }
              s, max := a.value.size, a.value.max;
            case Dict(_) => return None;
            case Other => return None;
          }
          total := if offset + s > total then offset + s else total;
          f := f.more;
        }
        if native {
          total := RoundUp(total, max);
        }
        return Some(Sized(total, max));
      case Tuple(head, args) => r := TupleSize(head, args, native, m);
      case SmallInt(_) => return None;
      case Other => return None;
    }
  }

  method TupleSize(head: int, args: Args, native: bool, m: nat) returns (r: Option<Sized>)
    ensures r == AggSize(head, args, native, m)
    decreases args, 1
  {
    if AggType(head) == STRUCT {
      if !args.One? {
        return None;
      }
      r := StructSize(args.a, native, m);
    } else if AggType(head) == PTR {
      return if args.One? then Some(Sized(SIZEOF_POINTER, Max(m, SIZEOF_POINTER))) else None;
    } else if AggType(head) == ARRAY && (args.One? || args.Two?) && args.a.SmallInt? {
      var itemS, max := 0, m;
      if args.One? {
        itemS := ScalarSize(ValType(args.a.v));
        max := Max(m, itemS);
      } else {
        var e := StructSize(args.b, native, m);
        if e.None? {
          return None;
        }
        itemS, max := e.value.size, e.value.max;
      }
      return Some(Sized(itemS * ValBits(args.a.v), max));
    } else {
      return None;
    }
  }

  // ---- the size grows with the accumulator

  lemma RoundUpLeast(t: nat, m: nat)
    requires IsAlignment(m)
    ensures t <= RoundUp(t, m) && RoundUp(t, m) % m == 0
    ensures forall r: nat :: t <= r && r % m == 0 ==> RoundUp(t, m) <= r
  {
  }

  lemma MultipleOfSmaller(r: nat, m: nat, n: nat)
    requires IsAlignment(m) && IsAlignment(n) && m <= n && r % n == 0
    ensures r % m == 0
  {
    Quarters(r);
    Halves(r);
  }

  lemma Quarters(r: nat)
    ensures r % 8 == 0 ==> r % 4 == 0
  {
    if r % 8 == 0 {
      DivMod(2 * (r / 8), 0, 4);
    }
  }

  lemma Halves(r: nat)
    ensures r % 1 == 0
    ensures r % 4 == 0 ==> r % 2 == 0
  {
    if r % 4 == 0 {
      DivMod(2 * (r / 4), 0, 2);
    }
  }

  lemma RoundUpGrows(t: nat, u: nat, m: nat, n: nat)
    requires t <= u && m <= n && IsMax(m) && IsMax(n)
    ensures RoundUp(t, m) <= RoundUp(u, n)
  {
    hide RoundUp;
    if m == 0 {
      NoRounding(t);
    } else {
      RoundUpLeast(t, m);
      RoundUpLeast(u, n);
      MultipleOfSmaller(RoundUp(u, n), m, n);
    }
  }

  lemma NoRounding(t: nat)
    ensures RoundUp(t, 0) == 0
  {
  }

  // b is a where more has been seen before.
  ghost predicate Grown(a: Option<Sized>, b: Option<Sized>, m: nat, n: nat) {
    && (a.None? <==> b.None?)
    && (a.Some? ==> a.value.size <= b.value.size && m <= a.value.max <= b.value.max
                    && n <= b.value.max && IsMax(a.value.max) && IsMax(b.value.max))
  }

  lemma {:induction false} SizeGrows(d: Desc, native: bool, m: nat, n: nat)
    requires m <= n && IsMax(m) && IsMax(n)
    ensures Grown(Size(d, native, m), Size(d, native, n), m, n)
    decreases d, 0
  {
    match d {
      case Dict(fields) =>
        FieldsSizeGrows(fields, native, Sized(0, m), Sized(0, n));
        var a, b := FieldsSize(fields, native, Sized(0, m)), FieldsSize(fields, native, Sized(0, n));
        if a.Some? {
          RoundUpGrows(a.value.size, b.value.size, a.value.max, b.value.max);
        }
      case Tuple(head, args) => AggSizeGrows(head, args, native, m, n);
      case SmallInt(_) =>
      case Other =>
    }
  }

  lemma {:induction false} AggSizeGrows(head: int, args: Args, native: bool, m: nat, n: nat)
    requires m <= n && IsMax(m) && IsMax(n)
    ensures Grown(AggSize(head, args, native, m), AggSize(head, args, native, n), m, n)
    decreases args, 1
  {
    if AggType(head) == STRUCT && args.One? {
      SizeGrows(args.a, native, m, n);
    }
    if AggType(head) == ARRAY && args.Two? && args.a.SmallInt? {
      SizeGrows(args.b, native, m, n);
      var a, b := Size(args.b, native, m), Size(args.b, native, n);
      if a.Some? {
        Monotone(a.value.size, b.value.size, ValBits(args.a.v));
      }
    }
  }

  lemma {:induction false} FieldSizeGrows(v: Desc, native: bool, m: nat, n: nat)
    requires m <= n && IsMax(m) && IsMax(n)
    ensures var a, b := FieldSize(v, native, m), FieldSize(v, native, n);
            && (a.None? <==> b.None?)
            && (a.Some? ==> a.value.0 == b.value.0 && Grown(Some(a.value.1), Some(b.value.1), m, n))
    decreases v, 2
  {
    if v.Tuple? {
      AggSizeGrows(v.head, v.args, native, m, n);
    }
  }

  lemma {:induction false} FieldsSizeGrows(f: Fields, native: bool, s: Sized, t: Sized)
    requires s.size <= t.size && s.max <= t.max && IsMax(s.max) && IsMax(t.max)
    ensures Grown(FieldsSize(f, native, s), FieldsSize(f, native, t), s.max, t.max)
    ensures FieldsSize(f, native, s).Some? ==> FieldsSize(f, native, s).value.size >= s.size
    decreases f, 0
  {
    hide FieldSize, ScalarOffset;
    if f.Field? {
      FieldSizeGrows(f.value, native, s.max, t.max);
      var a, b := FieldSize(f.value, native, s.max), FieldSize(f.value, native, t.max);
      if a.Some? {
        FieldsSizeGrows(f.more, native, Sized(Max(s.size, a.value.0 + a.value.1.size), a.value.1.max),
                        Sized(Max(t.size, b.value.0 + b.value.1.size), b.value.1.max));
      }
    }
  }

  // ---- access

  // A structure object: a descriptor and an address.
  datatype View = View(desc: Desc, addr: int)

  datatype Step = Attr(name: string) | Index(i: nat)

  // Another object, the memory an access touches, or an error.
  datatype Reached = Inner(v: View) | Touched(addr: int, width: nat) | Failed

  function Find(f: Fields, name: string): Option<Desc> {
    if f.NoField? then None else if f.name == name then Some(f.value) else Find(f.more, name)
  }

  // uctypes_struct_attr_op: a scalar or a bit field is loaded or stored, a byte array is handed
  // out as a whole, anything else becomes an object.
  function GetAttr(v: View, native: bool, name: string): Reached {
    if !v.desc.Dict? then Failed
    else match Find(v.desc.fields, name)
      case None => Failed
      case Some(SmallInt(x)) => Touched(v.addr + ScalarOffset(x), ScalarSize(ValType(x)))
      case Some(Tuple(head, args)) =>
        var addr := v.addr + AggOffset(head);
        if AggType(head) == STRUCT then (if args.One? then Inner(View(args.a, addr)) else Failed)
        else if AggType(head) == ARRAY && args.One? && args.a.SmallInt? && ValType(args.a.v) == UINT8 then
          (match AggSize(head, args, native, 0)
           case None => Failed
           case Some(s) => Touched(addr, s.size))
        else if AggType(head) <= ARRAY then Inner(View(Tuple(head, args), addr))
        else Failed
      case Some(_) => Failed
  }

  // uctypes_struct_subscr with an index that is not negative. The size of an element is computed
  // afresh. Indexing a pointer reads the pointer and leaves the structure.
  function GetItem(v: View, native: bool, i: nat): Reached {
    if !v.desc.Tuple? then Failed
    else
      var head, args := v.desc.head, v.desc.args;
      if AggType(head) == PTR then Touched(v.addr, SIZEOF_POINTER)
      else if AggType(head) != ARRAY || !(args.One? || args.Two?) || !args.a.SmallInt? || i >= ValBits(args.a.v) then
        Failed
      else if args.One? then
        Touched(v.addr + ScalarSize(ValType(args.a.v)) * i, ScalarSize(ValType(args.a.v)))
      else match Size(args.b, native, 0)
        case None => Failed
        case Some(s) => Inner(View(args.b, v.addr + s.size * i))
  }

  function Take(v: View, native: bool, step: Step): Reached {
    match step
    case Attr(name) => GetAttr(v, native, name)
    case Index(i) => GetItem(v, native, i)
  }

  // A chain of accesses; what touches memory ends it.
  function Walk(v: View, native: bool, steps: seq<Step>): Reached
    decreases |steps|
  {
    if steps == [] then Inner(v)
    else
      var r := Take(v, native, steps[0]);
      if r.Inner? then Walk(r.v, native, steps[1..])
      else if |steps| == 1 then r else Failed
  }

  // ---- what is reached is inside

  // A touch lies in the first `size` bytes from an address.
  ghost predicate Within(r: Reached, addr: int, size: nat) {
    r.Touched? ==> addr <= r.addr && r.addr + r.width <= addr + size
  }

  // The size of a field counts towards the size of the dict, and its accumulator towards that
  // of the dict.
  lemma {:induction false} FieldFits(f: Fields, native: bool, s: Sized, name: string)
    requires FieldsSize(f, native, s).Some? && Find(f, name).Some? && IsMax(s.max)
    ensures var all, one := FieldsSize(f, native, s).value, FieldSize(Find(f, name).value, native, 0);
            && one.Some? && IsMax(all.max)
            && one.value.0 + one.value.1.size <= all.size && one.value.1.max <= all.max
    decreases f
  {
    hide FieldSize, ScalarOffset;
    FieldSizeGrows(f.value, native, 0, s.max);
    var p := FieldSize(f.value, native, s.max).value;
    FieldSizeGrows(f.value, native, s.max, s.max);
    var next := Sized(Max(s.size, p.0 + p.1.size), p.1.max);
    FieldsSizeGrows(f.more, native, next, next);
    if f.name != name {
      FieldFits(f.more, native, next, name);
    }
  }

  // One access: a touch is inside, and an object got is inside or has no field to touch.
  ghost predicate Inside(v: View, s: Sized, r: Reached, native: bool) {
    && Within(r, v.addr, s.size)
    && (s.max == 0 ==> !r.Touched?)
    && (r.Inner? ==>
          var t := Size(r.v.desc, native, 0);
          && t.Some? && t.value.max <= s.max
          && (t.value.max == 0 || (v.addr <= r.v.addr && r.v.addr + t.value.size <= v.addr + s.size)))
  }

  lemma AttrInside(v: View, native: bool, name: string)
    requires Size(v.desc, native, 0).Some? && v.desc.Dict?
    ensures Inside(v, Size(v.desc, native, 0).value, GetAttr(v, native, name), native)
  {
    hide ScalarOffset, RoundUp;
    var f := v.desc.fields;
    if Find(f, name).Some? {
      FieldFits(f, native, Sized(0, 0), name);
      var all := FieldsSize(f, native, Sized(0, 0)).value;
      if native && all.max > 0 {
        RoundUpLeast(all.size, all.max);
      }
      NoRounding(all.size);
    }
  }

  lemma ItemFits(i: nat, n: nat, item: nat)
    requires i < n
    ensures 0 <= item * i && item * i + item <= item * n
  {
    Monotone(i + 1, n, item);
    Distribute(i, 1, item);
    NonNegative(i, item);
  }

  lemma ItemInside(v: View, native: bool, i: nat)
    requires Size(v.desc, native, 0).Some? && v.desc.Tuple?
    ensures Inside(v, Size(v.desc, native, 0).value, GetItem(v, native, i), native)
  {
    hide AggType, ValBits, ValType, ScalarSize, RoundUp;
    var head, args := v.desc.head, v.desc.args;
    if AggType(head) == ARRAY && (args.One? || args.Two?) && args.a.SmallInt? && i < ValBits(args.a.v) {
      if args.One? {
        ItemFits(i, ValBits(args.a.v), ScalarSize(ValType(args.a.v)));
      } else {
        ItemFits(i, ValBits(args.a.v), Size(args.b, native, 0).value.size);
      }
    }
  }

  lemma TakeInside(v: View, native: bool, step: Step)
    requires Size(v.desc, native, 0).Some?
    ensures Inside(v, Size(v.desc, native, 0).value, Take(v, native, step), native)
  {
    hide Size, GetAttr, GetItem;
    if step.Attr? && v.desc.Dict? {
      AttrInside(v, native, step.name);
    } else if step.Index? && v.desc.Tuple? {
      ItemInside(v, native, step.i);
    } else {
      WrongKind(v, native, step);
    }
  }

  lemma WrongKind(v: View, native: bool, step: Step)
    requires step.Attr? ==> !v.desc.Dict?
    requires step.Index? ==> !v.desc.Tuple?
    ensures Take(v, native, step) == Failed
  {
  }

  // The main result: whatever a chain of accesses touches lies in the size computed for the
  // root, and a root without any sized field is never touched.
  lemma {:induction false} WalkStaysInside(v: View, native: bool, steps: seq<Step>)
    requires Size(v.desc, native, 0).Some?
    ensures var s := Size(v.desc, native, 0).value;
            Within(Walk(v, native, steps), v.addr, s.size) && (s.max == 0 ==> !Walk(v, native, steps).Touched?)
    decreases |steps|
  {
    hide Size, Take;
    if steps != [] {
      TakeInside(v, native, steps[0]);
      var r := Take(v, native, steps[0]);
      if r.Inner? {
        WalkStaysInside(r.v, native, steps[1..]);
      }
    }
  }

  // ---- when indexing and counting agree

  // The accumulator a size leaves is the bigger of what it was given and of what it leaves alone.
  ghost predicate Joined(a: Option<Sized>, b: Option<Sized>, m: nat) {
    (a.None? <==> b.None?) && (a.Some? ==> b.value.max == Max(a.value.max, m))
  }

  lemma {:induction false} SizeJoins(d: Desc, native: bool, p: nat, m: nat)
    ensures Joined(Size(d, native, p), Size(d, native, Max(p, m)), m)
    decreases d, 0
  {
    hide RoundUp, ScalarOffset, AggOffset;
    match d {
      case Dict(fields) => FieldsSizeJoins(fields, native, Sized(0, p), Sized(0, Max(p, m)), m);
      case Tuple(head, args) => AggSizeJoins(head, args, native, p, m);
      case SmallInt(_) =>
      case Other =>
    }
  }

  lemma {:induction false} AggSizeJoins(head: int, args: Args, native: bool, p: nat, m: nat)
    ensures Joined(AggSize(head, args, native, p), AggSize(head, args, native, Max(p, m)), m)
    decreases args, 1
  {
    hide AggType, ValBits, ValType, ScalarSize;
    if AggType(head) == STRUCT && args.One? {
      SizeJoins(args.a, native, p, m);
    }
    if AggType(head) == ARRAY && args.Two? && args.a.SmallInt? {
      SizeJoins(args.b, native, p, m);
    }
  }

  lemma {:induction false} FieldSizeJoins(v: Desc, native: bool, p: nat, m: nat)
    ensures var a, b := FieldSize(v, native, p), FieldSize(v, native, Max(p, m));
            && (a.None? <==> b.None?)
            && (a.Some? ==> a.value.0 == b.value.0 && Joined(Some(a.value.1), Some(b.value.1), m))
    decreases v, 2
  {
    hide ScalarOffset, AggOffset, ScalarSize, ValType, AggSize;
    if v.Tuple? {
      AggSizeJoins(v.head, v.args, native, p, m);
    }
  }

  lemma {:induction false} FieldsSizeJoins(f: Fields, native: bool, s: Sized, t: Sized, m: nat)
    requires t.max == Max(s.max, m)
    ensures Joined(FieldsSize(f, native, s), FieldsSize(f, native, t), m)
    decreases f, 0
  {
    hide FieldSize;
    if f.Field? {
      FieldSizeJoins(f.value, native, s.max, m);
      var a, b := FieldSize(f.value, native, s.max), FieldSize(f.value, native, t.max);
      if a.Some? {
        FieldsSizeJoins(f.more, native, Sized(Max(s.size, a.value.0 + a.value.1.size), a.value.1.max),
                        Sized(Max(t.size, b.value.0 + b.value.1.size), b.value.1.max), m);
      }
    }
  }

  // A structure that takes as much after a field of m bytes as alone: its own biggest field is no
  // smaller, or its size is a multiple of m, or it has no bytes at all.
  ghost predicate Settled(fields: Fields, m: nat)
    requires m > 0
  {
    var s := FieldsSize(fields, true, Sized(0, 0));
    s.Some? ==>
      m <= s.value.max || (if s.value.max > 0 then RoundUp(s.value.size, s.value.max) % m == 0 else s.value.size == 0)
  }

  // All structures within are settled.
  ghost predicate Even(d: Desc, m: nat)
    requires m > 0
    decreases d, 0
  {
    match d
    case Dict(fields) => EvenFields(fields, m) && Settled(fields, m)
    case Tuple(head, args) => EvenAgg(head, args, m)
    case _ => true
  }

  ghost predicate EvenAgg(head: int, args: Args, m: nat)
    requires m > 0
    decreases args, 1
  {
    && (AggType(head) == STRUCT && args.One? ==> Even(args.a, m))
    && (AggType(head) == ARRAY && args.Two? ==> Even(args.b, m))
  }

  ghost predicate EvenFields(f: Fields, m: nat)
    requires m > 0
    decreases f, 0
  {
    f.Field? ==> (f.value.Tuple? ==> EvenAgg(f.value.head, f.value.args, m)) && EvenFields(f.more, m)
  }

  ghost predicate SameSize(a: Option<Sized>, b: Option<Sized>) {
    (a.None? <==> b.None?) && (a.Some? ==> a.value.size == b.value.size)
  }

  lemma {:induction false} EvenAgrees(d: Desc, m: nat, p: nat)
    requires IsAlignment(m) && IsMax(p) && Even(d, m)
    ensures SameSize(Size(d, true, p), Size(d, true, Max(p, m)))
    decreases d, 3
  {
    if p < m {
      EvenAgreesAlone(d, m);
      SizeGrows(d, true, 0, p);
      SizeGrows(d, true, p, m);
    }
  }

  lemma {:induction false} EvenAgreesAlone(d: Desc, m: nat)
    requires IsAlignment(m) && Even(d, m)
    ensures SameSize(Size(d, true, 0), Size(d, true, m))
    decreases d, 0
  {
    hide RoundUp, AggSize, EvenAgg, Settled;
    match d {
      case Dict(fields) => AgreeExactly(fields, m);
      case Tuple(head, args) => EvenAggAgrees(head, args, m, 0);
      case SmallInt(_) =>
      case Other =>
    }
  }

  lemma {:induction false} EvenAggAgrees(head: int, args: Args, m: nat, p: nat)
    requires IsAlignment(m) && IsMax(p) && EvenAgg(head, args, m)
    ensures SameSize(AggSize(head, args, true, p), AggSize(head, args, true, Max(p, m)))
    decreases args, 1
  {
    hide AggType, ValBits, ValType, ScalarSize, Even, Size;
    if AggType(head) == STRUCT && args.One? {
      EvenAgrees(args.a, m, p);
    }
    if AggType(head) == ARRAY && args.Two? && args.a.SmallInt? {
      EvenAgrees(args.b, m, p);
    }
  }

  lemma {:induction false} EvenFieldsAgree(f: Fields, m: nat, total: nat, p: nat)
    requires IsAlignment(m) && IsMax(p) && EvenFields(f, m)
    ensures SameSize(FieldsSize(f, true, Sized(total, p)), FieldsSize(f, true, Sized(total, Max(p, m))))
    decreases f, 2
  {
    hide ScalarOffset, AggOffset, ScalarSize, ValType, AggSize, EvenAgg;
    if f.Field? {
      var v := f.value;
      if v.Tuple? {
        EvenAggAgrees(v.head, v.args, m, p);
      }
      FieldSizeJoins(v, true, p, m);
      FieldSizeGrows(v, true, p, p);
      var a := FieldSize(v, true, p);
      if a.Some? {
        EvenFieldsAgree(f.more, m, Max(total, a.value.0 + a.value.1.size), a.value.1.max);
      }
    }
  }

  // Rounding up to a bigger alignment too gives the same exactly when the first result is a
  // multiple of it.
  lemma RoundUpAgrees(t: nat, max: nat, m: nat)
    requires IsAlignment(m) && IsMax(max)
    ensures RoundUp(t, max) == RoundUp(t, Max(max, m)) <==>
            m <= max || (if max > 0 then RoundUp(t, max) % m == 0 else t == 0)
  {
    hide RoundUp;
    if m > max {
      RoundUpLeast(t, m);
      if max == 0 {
        NoRounding(t);
        Zero(m);
      } else {
        RoundUpLeast(t, max);
        RoundUpGrows(t, t, max, m);
      }
    }
  }

  lemma Zero(m: nat)
    requires m > 0
    ensures 0 % m == 0 && RoundUp(0, m) == 0
  {
    DivMod(0, m - 1, m);
    DivMod(0, 0, m);
  }

  // A structure in which all others are settled takes the same space after a field of m bytes as
  // alone if and only if it is settled itself.
  lemma {:induction false} AgreeExactly(fields: Fields, m: nat)
    requires IsAlignment(m) && EvenFields(fields, m)
    ensures SameSize(Size(Dict(fields), true, 0), Size(Dict(fields), true, m)) <==> Settled(fields, m)
    decreases fields, 3
  {
    hide RoundUp, EvenFields;
    EvenFieldsAgree(fields, m, 0, 0);
    FieldsSizeJoins(fields, true, Sized(0, 0), Sized(0, m), m);
    FieldsSizeGrows(fields, true, Sized(0, 0), Sized(0, 0));
    var s := FieldsSize(fields, true, Sized(0, 0));
    if s.Some? {
      RoundUpAgrees(s.value.size, s.value.max, m);
    }
  }

  // The elements of an array of structures, counted after a field of m bytes, are as far apart
  // as they are big if and only if the structure is settled.
  lemma ElementsFillArray(v: View, head: int, n: int, fields: Fields, m: nat, i: nat)
    requires v.desc == Tuple(head, Two(SmallInt(n), Dict(fields))) && AggType(head) == ARRAY
    requires IsAlignment(m) && EvenFields(fields, m) && i + 1 < ValBits(n)
    requires Size(Dict(fields), true, 0).Some?
    ensures GetItem(v, true, i).Inner? && GetItem(v, true, i + 1).Inner? && AggSize(head, v.desc.args, true, m).Some?
    ensures var apart := GetItem(v, true, i + 1).v.addr - GetItem(v, true, i).v.addr;
            AggSize(head, v.desc.args, true, m).value.size == ValBits(n) * apart <==> Settled(fields, m)
  {
    hide AggType, ValBits, EvenFields, Settled, Size;
    AgreeExactly(fields, m);
    SizeGrows(Dict(fields), true, 0, m);
    var a, b := Size(Dict(fields), true, 0).value.size, Size(Dict(fields), true, m).value.size;
    assert a * (i + 1) - a * i == a;
    SameFactor(a, b, ValBits(n));
  }

  lemma SameFactor(a: nat, b: nat, n: nat)
    requires n > 0
    ensures b * n == n * a <==> a == b
  {
    if b < a {
      Monotone(b + 1, a, n);
      Distribute(b, 1, n);
    } else if a < b {
      Monotone(a + 1, b, n);
      Distribute(a, 1, n);
    }
  }

  ghost predicate Scalars(f: Fields) {
    f.Field? ==> f.value.SmallInt? && Scalars(f.more)
  }

  lemma {:induction false} ScalarsAreEven(f: Fields, m: nat, s: Sized)
    requires m > 0 && Scalars(f)
    ensures EvenFields(f, m) && FieldsSize(f, true, s).Some? && FieldsSize(f, true, s).value.max >= s.max
    ensures f.Field? ==> FieldsSize(f, true, s).value.max > 0
    decreases f
  {
    hide ScalarOffset, ValType;
    if f.Field? {
      var z := ScalarSize(ValType(f.value.v));
      var next := Sized(Max(s.size, ScalarOffset(f.value.v) + z), Max(s.max, z));
      ScalarsAreEven(f.more, m, next);
    }
  }

  // In particular of scalar fields only.
  lemma ScalarsAgree(fields: Fields, m: nat)
    requires IsAlignment(m) && Scalars(fields) && fields.Field?
    ensures var a, b := Size(Dict(fields), true, 0), Size(Dict(fields), true, m);
            && a.Some? && b.Some?
            && (a.value.size == b.value.size <==> m <= a.value.max || a.value.size % m == 0)
  {
    hide RoundUp, EvenFields, Scalars;
    ScalarsAreEven(fields, m, Sized(0, 0));
    AgreeExactly(fields, m);
    SizeGrows(Dict(fields), true, 0, m);
  }

  // Layouts with a given byte order are not rounded, and always agree.
  lemma {:induction false} UnroundedAgrees(d: Desc, p: nat, q: nat)
    ensures SameSize(Size(d, false, p), Size(d, false, q))
    decreases d, 0
  {
    match d {
      case Dict(fields) => UnroundedFields(fields, Sized(0, p), Sized(0, q));
      case Tuple(head, args) => UnroundedAgg(head, args, p, q);
      case SmallInt(_) =>
      case Other =>
    }
  }

  lemma {:induction false} UnroundedAgg(head: int, args: Args, p: nat, q: nat)
    ensures SameSize(AggSize(head, args, false, p), AggSize(head, args, false, q))
    decreases args, 1
  {
    hide AggType, ValBits, ValType, ScalarSize;
    if AggType(head) == STRUCT && args.One? {
      UnroundedAgrees(args.a, p, q);
    }
    if AggType(head) == ARRAY && args.Two? && args.a.SmallInt? {
      UnroundedAgrees(args.b, p, q);
    }
  }

  lemma {:induction false} UnroundedFields(f: Fields, s: Sized, t: Sized)
    requires s.size == t.size
    ensures SameSize(FieldsSize(f, false, s), FieldsSize(f, false, t))
    decreases f, 0
  {
    hide ScalarOffset, AggOffset, ScalarSize, ValType, AggSize;
    if f.Field? {
      if f.value.Tuple? {
        UnroundedAgg(f.value.head, f.value.args, s.max, t.max);
      }
      var a, b := FieldSize(f.value, false, s.max), FieldSize(f.value, false, t.max);
      if a.Some? {
        UnroundedFields(f.more, Sized(Max(s.size, a.value.0 + a.value.1.size), a.value.1.max),
                        Sized(Max(t.size, b.value.0 + b.value.1.size), b.value.1.max));
      }
    }
  }

  // Why the growth matters: after a 4-byte field, an array of two structures of three bytes
  // takes four bytes for each, but is indexed three bytes apart.
  lemma SharedAccumulator()
    ensures var bytes := Tuple(0x4000_0000, One(SmallInt(3)));
            var elem := Dict(Field("b", bytes, NoField));
            && Size(elem, true, 0) == Some(Sized(3, 1))
            && Size(elem, true, 4) == Some(Sized(4, 4))
            && AggSize(0x4000_0004, Two(SmallInt(2), elem), true, 0) == Some(Sized(6, 1))
            && AggSize(0x4000_0004, Two(SmallInt(2), elem), true, 4) == Some(Sized(8, 4))
  {
    var bytes := Tuple(0x4000_0000, One(SmallInt(3)));
    var elem := Dict(Field("b", bytes, NoField));
    assert AggSize(0x4000_0000, One(SmallInt(3)), true, 0) == Some(Sized(3, 1));
    assert AggSize(0x4000_0000, One(SmallInt(3)), true, 4) == Some(Sized(3, 4));
    assert FieldsSize(elem.fields, true, Sized(0, 0)) == Some(Sized(3, 1));
    assert FieldsSize(elem.fields, true, Sized(0, 4)) == Some(Sized(3, 4));
  }
}
