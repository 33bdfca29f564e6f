/**
  Memory emulation of an I2C target: event handlers that take one bus byte at a time, against a
  plain memory with a pointer.
 */
module I2cTargets {
  import opened Arith
  import opened Bits
  import opened Wrappers

  const UINT32_RANGE := 0x1_0000_0000

  datatype State = Inactive | Idle | AddrMatchRead | AddrMatchWrite | MemAddrSelect | Reading | Writing

  // The data of a target: address bytes to come, bytes in an address, the address last
  // selected, the address, and the memory.
  datatype Target = Target(state: State, count: nat, size: nat, last: nat, addr: nat, mem: seq<Byte>)

  function Advance(addr: nat, len: nat): nat {
    if addr + 1 >= len then 0 else addr + 1
  }

  // A start or a repeated start that addresses the target. The transaction before it ends.
  function Match(t: Target, read: bool): Target {
    t.(state := if read then AddrMatchRead else AddrMatchWrite)
  }

  function Stop(t: Target): Target {
    t.(state := Idle)
  }

  // One byte written to the target; None where the code would store outside the memory.
  function PutByte(t: Target, b: Byte): Option<Target>
    requires t.mem != []
  {
    var u := if t.state.AddrMatchWrite? then t.(state := MemAddrSelect, addr := 0, count := t.size) else t;
    if u.state.MemAddrSelect? && u.count > 0 then
      var addr := (u.addr * 256 + b) % UINT32_RANGE;
      Some(if u.count == 1 then u.(count := 0, addr := addr % |u.mem|, last := addr % |u.mem|)
           else u.(count := u.count - 1, addr := addr))
    else if u.addr >= |u.mem| then None
    else Some(u.(state := if u.state.MemAddrSelect? then Writing else u.state,
                 mem := u.mem[u.addr := b], addr := Advance(u.addr, |u.mem|)))
  }

  function PutAll(t: Target, data: seq<Byte>): (r: Option<Target>)
    requires t.mem != []
    ensures r.Some? ==> |r.value.mem| == |t.mem|
    decreases |data|
  {
    if data == [] then Some(t)
    else match PutByte(t, data[0])
      case None => None
      case Some(u) => PutAll(u, data[1..])
  }

  // One byte read from the target; None where the code would load from outside the memory.
  function GetByte(t: Target): Option<(Target, Byte)>
    requires t.mem != []
  {
    var u := if t.state.MemAddrSelect? then t.(addr := t.addr % |t.mem|, last := t.addr % |t.mem|) else t;
    if u.addr >= |u.mem| then None
    else Some((u.(state := Reading, addr := Advance(u.addr, |u.mem|)), u.mem[u.addr]))
  }

  function GetAll(t: Target, n: nat): Option<(Target, seq<Byte>)>
    requires t.mem != []
    decreases n
  {
    if n == 0 then Some((t, []))
    else match GetByte(t)
      case None => None
      case Some(p) =>
        match GetAll(p.0, n - 1)
        case None => None
        case Some(q) => Some((q.0, [p.1] + q.1))
  }

  // ---- the handlers

  class I2cTarget {
    var state: State
    var memAddrCount: nat
    var memAddrSize: nat
    var memAddrLast: nat
    var memAddr: nat
    var mem: array<Byte>

    // The handlers work on a memory that is not empty.
    ghost predicate Valid()
      reads this
    {
      0 < mem.Length < UINT32_RANGE && memAddrSize <= 4
    }

    ghost function Data(): Target
      reads this, mem
    {
      Target(state, memAddrCount, memAddrSize, memAddrLast, memAddr, mem[..])
    }

    constructor (buffer: array<Byte>, bytes: nat)
      requires 0 < buffer.Length < UINT32_RANGE && bytes <= 4
      ensures Valid() && mem == buffer
      ensures Data() == Target(Idle, 0, bytes, 0, 0, buffer[..])
    {
      state := Idle;
      memAddrCount := 0;
      memAddrSize := bytes;
      memAddrLast := 0;
      memAddr := 0;
      mem := buffer;
    }

    // None where the size of an address is refused.
    static method DataInit(buffer: array<Byte>, memAddrSize: int) returns (r: Option<I2cTarget>)
      requires 0 < buffer.Length < UINT32_RANGE
      ensures r.Some? <==>
        memAddrSize == 0 || memAddrSize == 8 || memAddrSize == 16 || memAddrSize == 24 || memAddrSize == 32
      ensures r.Some? ==> fresh(r.value) && r.value.Valid() && r.value.mem == buffer
      ensures r.Some? ==> 8 * r.value.memAddrSize == memAddrSize
      ensures r.Some? ==> r.value.Data() == Target(Idle, 0, r.value.memAddrSize, 0, 0, buffer[..])
    {
      if memAddrSize < 0 || memAddrSize > 32 || memAddrSize % 8 != 0 {
        return None;
      }
      var target := new I2cTarget(buffer, memAddrSize / 8);
      return Some(target);
    }

    method ResetHelper()
      requires Valid()
      modifies this`state
      ensures Valid() && Data() == Stop(old(Data()))
    {
      state := Idle;
    }

    method AddrMatch(read: bool)
      requires Valid()
      modifies this`state
      ensures Valid() && Data() == Match(old(Data()), read)
    {
      ResetHelper();
      if read {
        state := AddrMatchRead;
      } else {
        state := AddrMatchWrite;
      }
    }

    // The byte given to the bus; None where the code loads one from outside the memory.
    method ReadRequest() returns (val: Option<Byte>)
      requires Valid()
      modifies this
      ensures Valid() && mem == old(mem)
      ensures val.Some? <==> GetByte(old(Data())).Some?
      ensures val.Some? ==> GetByte(old(Data())) == Some((Data(), val.value))
      ensures val.None? ==> Data() == old(Data()).(state := Reading, addr := 0)
    {
      if state == MemAddrSelect {
        memAddr := memAddr % mem.Length;
        memAddrLast := memAddr;
      }
      if state != Reading {
        state := Reading;
      }
      val := if memAddr < mem.Length then Some(mem[memAddr]) else None;
      memAddr := memAddr + 1;
      if memAddr >= mem.Length {
        memAddr := 0;
      }
    }

    // The bytes the bus has ready, up to four.
    method WriteRequest(buf: seq<Byte>)
      requires Valid() && |buf| <= 4 && PutAll(Data(), buf).Some?
      modifies this, mem
      ensures Valid() && mem == old(mem)
      ensures PutAll(old(Data()), buf) == Some(Data())
    {
      hide PutByte;
      assert buf[0..] == buf;
      for i := 0 to |buf|
        invariant Valid() && mem == old(mem)
        invariant PutAll(Data(), buf[i..]) == PutAll(old(Data()), buf)
      {
        assert buf[i..][0] == buf[i] && buf[i..][1..] == buf[i + 1..];
        TakeByte(buf[i]);
      }
    }

    method TakeByte(val: Byte)
      requires Valid() && PutByte(Data(), val).Some?
      modifies this, mem
      ensures Valid() && mem == old(mem)
      ensures PutByte(old(Data()), val) == Some(Data())
    {
      if state == AddrMatchWrite {
        state := MemAddrSelect;
        memAddr := 0;
        memAddrCount := memAddrSize;
      }
      if state == MemAddrSelect && memAddrCount > 0 {
        memAddr := (memAddr * 256 + val) % UINT32_RANGE;
        memAddrCount := memAddrCount - 1;
        if memAddrCount == 0 {
          memAddr := memAddr % mem.Length;
          memAddrLast := memAddr;
        }
      } else {
        if state == MemAddrSelect {
          state := Writing;
        }
        mem[memAddr] := val;
        memAddr := memAddr + 1;
        if memAddr >= mem.Length {
          memAddr := 0;
        }
      }
    }
  }

  // ---- runs

  // How the bytes are cut into requests does not matter.
  lemma {:induction false} ChunkingIsFree(t: Target, a: seq<Byte>, b: seq<Byte>)
    requires t.mem != []
    ensures PutAll(t, a + b) == if PutAll(t, a).Some? then PutAll(PutAll(t, a).value, b) else None
    decreases |a|
  {
    hide PutByte;
    if a == [] {
      assert a + b == b;
    } else {
      assert (a + b)[1..] == a[1..] + b;
      if PutByte(t, a[0]).Some? {
        PutKeepsLength(t, a[0]);
        ChunkingIsFree(PutByte(t, a[0]).value, a[1..], b);
      }
    }
  }

  lemma PutKeepsLength(t: Target, b: Byte)
    requires t.mem != []
    ensures PutByte(t, b).Some? ==> |PutByte(t, b).value.mem| == |t.mem|
  {
  }

  // What the bus asks for, each begun by an address match and ended by a stop or by the next.
  datatype Transaction = Write(data: seq<Byte>, stop: bool) | Read(n: nat, stop: bool)

  function Done(t: Target, stop: bool): Target {
    if stop then Stop(t) else t
  }

  function One(t: Target, x: Transaction): Option<(Target, seq<Byte>)>
    requires t.mem != []
  {
    match x
    case Write(data, stop) =>
      (match PutAll(Match(t, false), data)
       case None => None
       case Some(u) => Some((Done(u, stop), [])))
    case Read(n, stop) =>
      (match GetAll(Match(t, true), n)
       case None => None
       case Some(p) => Some((Done(p.0, stop), p.1)))
  }

  // The end and what each transaction read, or None once an access falls outside the memory.
  function Run(t: Target, xs: seq<Transaction>): Option<(Target, seq<seq<Byte>>)>
    requires t.mem != []
    decreases |xs|
  {
    if xs == [] then Some((t, []))
    else
      match One(t, xs[0])
      case None => None
      case Some(p) =>
        OneKeepsLength(t, xs[0]);
        match Run(p.0, xs[1..])
        case None => None
        case Some(q) => Some((q.0, [p.1] + q.1))
  }

  lemma {:induction false} GetAllKeeps(t: Target, n: nat)
    requires t.mem != []
    ensures GetAll(t, n).Some? ==> GetAll(t, n).value.0.mem == t.mem
    decreases n
  {
    if n > 0 && GetByte(t).Some? {
      GetAllKeeps(GetByte(t).value.0, n - 1);
    }
  }

  lemma OneKeepsLength(t: Target, x: Transaction)
    requires t.mem != []
    ensures One(t, x).Some? ==> |One(t, x).value.0.mem| == |t.mem|
  {
    hide PutAll, GetAll;
    if x.Read? {
      GetAllKeeps(Match(t, true), x.n);
    }
  }

  // ---- the plain memory

  datatype Plain = Plain(mem: seq<Byte>, pointer: nat)

  // Bytes stored one after the other from a place on, round the end of the memory.
  function Store(mem: seq<Byte>, at: nat, data: seq<Byte>): (r: seq<Byte>)
    requires at < |mem|
    ensures |r| == |mem|
    decreases |data|
  {
    if data == [] then mem else Store(mem[at := data[0]], (at + 1) % |mem|, data[1..])
  }

  function Load(mem: seq<Byte>, at: nat, n: nat): seq<Byte>
    requires mem != []
  {
    seq(n, k requires 0 <= k < n => mem[(at + k) % |mem|])
  }

  // A write first moves the pointer to the address, of which trailing bytes may be missing.
  function PlainOne(p: Plain, size: nat, x: Transaction): (Plain, seq<Byte>)
    requires p.mem != []
  {
    match x
    case Read(n, _) => (Plain(p.mem, (p.pointer + n) % |p.mem|), Load(p.mem, p.pointer, n))
    case Write(data, _) =>
      if data == [] then (p, [])
      else
        var k := if size < |data| then size else |data|;
        var at := Value(data[..k]) % |p.mem|;
        (Plain(Store(p.mem, at, data[k..]), (at + |data| - k) % |p.mem|), [])
  }

  function PlainRun(p: Plain, size: nat, xs: seq<Transaction>): (Plain, seq<seq<Byte>>)
    requires p.mem != []
    decreases |xs|
  {
    if xs == [] then (p, [])
    else
      var one := PlainOne(p, size, xs[0]);
      var more := PlainRun(one.0, size, xs[1..]);
      (more.0, [one.1] + more.1)
  }

  // Places past the data stay as they were.
  lemma {:induction false} StoreElsewhere(mem: seq<Byte>, at: nat, data: seq<Byte>, k: nat)
    requires at < |mem| && |data| <= k < |mem|
    ensures Store(mem, at, data)[(at + k) % |mem|] == mem[(at + k) % |mem|]
    decreases |data|
  {
    if data != [] {
      StepOn(at, k, |mem|);
      StoreElsewhere(mem[at := data[0]], (at + 1) % |mem|, data[1..], k - 1);
    }
  }

  lemma StepOn(at: nat, k: nat, d: nat)
    requires at < d && 0 < k < d
    ensures ((at + 1) % d + (k - 1)) % d == (at + k) % d < d && (at + k) % d != at
  {
    AddModulo(at + 1, k - 1, d);
    NotATurn(at, k, d);
  }

  lemma StoreFirst(mem: seq<Byte>, at: nat, data: seq<Byte>)
    requires at < |mem| && 0 < |data| <= |mem|
    ensures Store(mem, at, data)[at] == data[0]
  {
    var m := |mem|;
    var next := (at + 1) % m;
    StoreElsewhere(mem[at := data[0]], next, data[1..], m - 1);
    assert (next + (m - 1)) % m == at by {
      AddModulo(at + 1, m - 1, m);
      WholeTurn(at, m);
    }
  }

  // Byte k lands k places on, unless a later one lands there too.
  lemma {:induction false} StoreAt(mem: seq<Byte>, at: nat, data: seq<Byte>, k: nat)
    requires at < |mem| && k < |data| <= k + |mem|
    ensures Store(mem, at, data)[(at + k) % |mem|] == data[k]
    decreases |data|
  {
    var m := |mem|;
    if k > 0 {
      var next := (at + 1) % m;
      StoreAt(mem[at := data[0]], next, data[1..], k - 1);
      assert (next + (k - 1)) % m == (at + k) % m by {
        AddModulo(at + 1, k - 1, m);
      }
    } else {
      hide Store;
      StoreFirst(mem, at, data);
      assert (at + k) % m == at by {
        DivMod(0, at, m);
      }
    }
  }

  lemma AddModulo(a: nat, b: nat, d: nat)
    requires d > 0
    ensures (a % d + b) % d == (a + b) % d
  {
    Fundamental(a, d);
    Fundamental(a % d + b, d);
    Distribute(a / d, (a % d + b) / d, d);
    DivMod(a / d + (a % d + b) / d, (a % d + b) % d, d);
  }

  lemma WholeTurn(a: nat, d: nat)
    requires a < d
    ensures (a + d) % d == a
  {
    DivMod(1, a, d);
  }

  lemma NotATurn(a: nat, k: nat, d: nat)
    requires a < d && 0 < k < d
    ensures (a + k) % d != a && (a + k) % d < d
  {
    if a + k < d {
      DivMod(0, a + k, d);
    } else {
      DivMod(1, a + k - d, d);
    }
  }

  // ---- the target is the plain memory

  ghost predicate Refines(t: Target, p: Plain) {
    && t.mem == p.mem && t.addr == p.pointer < |t.mem| < UINT32_RANGE
    && t.size <= 4
  }

  // The one case the code does not handle: a write that ends within the address and leaves
  // behind an address that is not in the memory.
  ghost predicate Handled(x: Transaction, size: nat, len: nat) {
    x.Write? ==> |x.data| == 0 || |x.data| >= size || Value(x.data) < len
  }

  lemma AdvanceIsModulo(a: nat, len: nat)
    requires a < len
    ensures Advance(a, len) == (a + 1) % len < len
  {
    if a + 1 < len {
      DivMod(0, a + 1, len);
    } else {
      DivMod(1, 0, len);
    }
  }

  lemma ValueFits(s: seq<Byte>)
    requires |s| <= 4
    ensures Value(s) < UINT32_RANGE
  {
    ValueBelow(s);
    assert Pow256(1) == 0x100 && Pow256(2) == 0x1_0000 && Pow256(3) == 0x100_0000 && Pow256(4) == 0x1_0000_0000;
  }

  lemma ValueSnoc(s: seq<Byte>, b: Byte)
    ensures Value(s + [b]) == 256 * Value(s) + b
  {
    assert (s + [b])[..|s|] == s;
  }

  // Address bytes: complete, they are reduced to the memory; short, they are left as they are.
  lemma {:induction false} PutAddress(t: Target, before: seq<Byte>, data: seq<Byte>)
    requires t.mem != [] && t.state.MemAddrSelect? && t.size <= 4
    requires t.addr == Value(before) && |before| + t.count == t.size && 0 < |data| <= t.count
    ensures PutAll(t, data) ==
            var v := Value(before + data);
            Some(if |data| == t.count then t.(count := 0, addr := v % |t.mem|, last := v % |t.mem|)
                 else t.(count := t.count - |data|, addr := v))
    decreases |data|
  {
    hide Value;
    ValueSnoc(before, data[0]);
    ValueFits(before + [data[0]]);
    var u := PutByte(t, data[0]).value;
    assert before + data == (before + [data[0]]) + data[1..];
    if |data| > 1 {
      PutAddress(u, before + [data[0]], data[1..]);
    } else {
      assert data[1..] == [];
      assert before + data == before + [data[0]];
    }
  }

  lemma {:induction false} PutData(t: Target, data: seq<Byte>)
    requires t.addr < |t.mem| && (t.state.Writing? || (t.state.MemAddrSelect? && t.count == 0))
    ensures PutAll(t, data) ==
            Some(t.(state := if data == [] then t.state else Writing,
                    mem := Store(t.mem, t.addr, data), addr := (t.addr + |data|) % |t.mem|))
    decreases |data|
  {
    if data == [] {
      DivMod(0, t.addr, |t.mem|);
    } else {
      AdvanceIsModulo(t.addr, |t.mem|);
      PutData(PutByte(t, data[0]).value, data[1..]);
      AddModulo(t.addr + 1, |data| - 1, |t.mem|);
    }
  }

  lemma {:induction false} GetData(t: Target, n: nat)
    requires t.addr < |t.mem| && (t.state.AddrMatchRead? || t.state.Reading?)
    ensures GetAll(t, n) ==
            Some((t.(state := if n == 0 then t.state else Reading, addr := (t.addr + n) % |t.mem|),
                  Load(t.mem, t.addr, n)))
    decreases n
  {
    if n == 0 {
      DivMod(0, t.addr, |t.mem|);
    } else {
      AdvanceIsModulo(t.addr, |t.mem|);
      GetData(GetByte(t).value.0, n - 1);
      AddModulo(t.addr + 1, n - 1, |t.mem|);
      LoadNext(t.mem, t.addr, n);
    }
  }

  lemma LoadNext(mem: seq<Byte>, at: nat, n: nat)
    requires at < |mem| && n > 0
    ensures Load(mem, at, n) == [mem[at]] + Load(mem, (at + 1) % |mem|, n - 1)
  {
    DivMod(0, at, |mem|);
    forall k | 1 <= k < n
      ensures Load(mem, at, n)[k] == Load(mem, (at + 1) % |mem|, n - 1)[k - 1]
    {
      AddModulo(at + 1, k - 1, |mem|);
    }
  }

  lemma FirstByteSelects(t: Target, data: seq<Byte>)
    requires t.mem != [] && data != []
    ensures PutAll(Match(t, false), data) == PutAll(t.(state := MemAddrSelect, addr := 0, count := t.size), data)
  {
  }

  // One write, whatever its length: it never leaves the memory, and it does what the plain
  // memory does exactly when it is handled.
  lemma WriteRefines(t: Target, p: Plain, data: seq<Byte>, stop: bool)
    requires Refines(t, p)
    ensures One(t, Write(data, stop)).Some?
    ensures Refines(One(t, Write(data, stop)).value.0, PlainOne(p, t.size, Write(data, stop)).0)
            <==> Handled(Write(data, stop), t.size, |t.mem|)
    ensures One(t, Write(data, stop)).value.0.addr < |t.mem| <==> Handled(Write(data, stop), t.size, |t.mem|)
    ensures One(t, Write(data, stop)).value.1 == [] && One(t, Write(data, stop)).value.0.size == t.size
  {
    hide PutAll, Store, Value;
    if data == [] {
      PutNothing(Match(t, false));
    } else {
      FirstByteSelects(t, data);
      var u := t.(state := MemAddrSelect, addr := 0, count := t.size);
      var k := if t.size < |data| then t.size else |data|;
      var address, rest := data[..k], data[k..];
      assert address + rest == data;
      ChunkingIsFree(u, address, rest);
      NoValue();
      assert [] + address == address;
      if k > 0 {
        PutAddress(u, [], address);
      } else {
        PutNothing(u);
        assert address == [];
      }
      SmallModulo(Value(address), |t.mem|);
      if k == t.size {
        var at := Value(address) % |t.mem|;
        PutData(u.(count := 0, addr := at, last := if k > 0 then at else t.last), rest);
      } else {
        PutNothing(PutAll(u, address).value);
        assert rest == [] && address == data;
        StoreNothing(t.mem, Value(address) % |t.mem|);
      }
    }
  }

  lemma PutNothing(t: Target)
    requires t.mem != []
    ensures PutAll(t, []) == Some(t)
  {
  }

  lemma NoValue()
    ensures Value([]) == 0
  {
  }

  lemma StoreNothing(mem: seq<Byte>, at: nat)
    requires at < |mem|
    ensures Store(mem, at, []) == mem
  {
  }

  lemma SmallModulo(v: nat, d: nat)
    requires d > 0
    ensures v % d < d && (v < d <==> v % d == v) && v % d % d == v % d
  {
    Fundamental(v, d);
    DivMod(0, v % d, d);
    if v < d {
      DivMod(0, v, d);
    }
  }

  lemma ReadRefines(t: Target, p: Plain, n: nat, stop: bool)
    requires Refines(t, p)
    ensures One(t, Read(n, stop)).Some?
    ensures var r := One(t, Read(n, stop)).value;
            Refines(r.0, PlainOne(p, t.size, Read(n, stop)).0) && r.1 == Load(p.mem, p.pointer, n) && r.0.size == t.size
  {
    hide GetAll, Load;
    GetData(Match(t, true), n);
    SmallModulo(t.addr + n, |t.mem|);
  }

  // The main result: over every run of handled transactions, however they are ended, the target
  // is the plain memory: it reads the same bytes, ends the same, and never leaves the memory.
  lemma {:induction false} RunRefines(t: Target, p: Plain, xs: seq<Transaction>)
    requires Refines(t, p)
    requires forall x :: x in xs ==> Handled(x, t.size, |t.mem|)
    ensures Run(t, xs).Some?
    ensures var r, q := Run(t, xs).value, PlainRun(p, t.size, xs);
            Refines(r.0, q.0) && r.1 == q.1
    decreases |xs|
  {
    if xs != [] {
      hide One, PlainOne;
      var x := xs[0];
      assert Handled(x, t.size, |t.mem|);
      OneRefines(t, p, x);
      OneKeepsLength(t, x);
      RunRefines(One(t, x).value.0, PlainOne(p, t.size, x).0, xs[1..]);
    }
  }

  lemma OneRefines(t: Target, p: Plain, x: Transaction)
    requires Refines(t, p) && Handled(x, t.size, |t.mem|)
    ensures One(t, x).Some?
    ensures var r, q := One(t, x).value, PlainOne(p, t.size, x);
            Refines(r.0, q.0) && r.1 == q.1 && r.0.size == t.size
  {
    match x {
      case Write(data, stop) => WriteRefines(t, p, data, stop);
      case Read(n, stop) => ReadRefines(t, p, n, stop);
    }
  }

  // A read after a write stays in the memory exactly when the write is handled.
  lemma ReadAfterWrite(t: Target, p: Plain, data: seq<Byte>, n: nat, stop: bool, stop': bool)
    requires Refines(t, p) && n > 0
    ensures Run(t, [Write(data, stop), Read(n, stop')]).Some? <==> Handled(Write(data, stop), t.size, |t.mem|)
  {
    hide PutAll, GetAll, PlainOne;
    var w, r := Write(data, stop), Read(n, stop');
    WriteRefines(t, p, data, stop);
    OneKeepsLength(t, w);
    var u := One(t, w).value.0;
    if Handled(w, t.size, |t.mem|) {
      ReadRefines(u, PlainOne(p, t.size, w).0, n, stop');
    } else {
      ReadOutside(u, n);
    }
    RunOfTwo(t, w, r);
  }

  lemma ReadOutside(u: Target, n: nat)
    requires u.mem != [] && u.addr >= |u.mem| && n > 0
    ensures GetAll(Match(u, true), n).None?
  {
  }

  lemma RunOfTwo(t: Target, w: Transaction, r: Transaction)
    requires t.mem != []
    ensures One(t, w).Some? ==> One(t, w).value.0.mem != []
    ensures Run(t, [w, r]).Some? <==> One(t, w).Some? && One(One(t, w).value.0, r).Some?
  {
    hide One;
    OneKeepsLength(t, w);
    assert [w, r][1..] == [r];
    if One(t, w).Some? {
      RunOfOne(One(t, w).value.0, r);
    }
  }

  lemma RunOfOne(t: Target, x: Transaction)
    requires t.mem != []
    ensures Run(t, [x]).Some? <==> One(t, x).Some?
  {
    hide One;
    OneKeepsLength(t, x);
    if One(t, x).Some? {
      assert Run(One(t, x).value.0, []).Some?;
    }
  }

  // For one: half of a two-byte address, then a read, of a memory of sixteen bytes.
  lemma HalfAnAddress(mem: seq<Byte>)
    requires |mem| == 16
    ensures Run(Target(Idle, 0, 2, 0, 0, mem), [Write([0x20], true), Read(1, true)]).None?
  {
    var t := Target(Idle, 0, 2, 0, 0, mem);
    ReadAfterWrite(t, Plain(mem, 0), [0x20], 1, true, true);
    assert Value([0x20]) == 0x20 by {
      ValueSnoc([], 0x20);
      assert [] + [0x20] == [0x20 as Byte];
    }
  }

  // ---- written and read back

  lemma LoadStored(mem: seq<Byte>, at: nat, data: seq<Byte>)
    requires at < |mem| && |data| <= |mem|
    ensures Load(Store(mem, at, data), at, |data|) == data
  {
    hide Store;
    forall k: nat | k < |data| ensures Load(Store(mem, at, data), at, |data|)[k] == data[k] {
      StoreAt(mem, at, data, k);
    }
  }

  // Data written to an address is read back from it after the address has been written again, by
  // every target and with every way of ending the transactions.
  lemma WrittenIsReadBack(t: Target, p: Plain, address: seq<Byte>, data: seq<Byte>, a: bool, b: bool, c: bool)
    requires Refines(t, p) && |address| == t.size > 0 && |data| <= |t.mem|
    ensures var run := Run(t, [Write(address + data, a), Write(address, b), Read(|data|, c)]);
            run.Some? && run.value.1 == [[], [], data]
  {
    hide Run, Store, Load, Value;
    var w, x, r := Write(address + data, a), Write(address, b), Read(|data|, c);
    RunRefines(t, p, [w, x, r]);
    var at := Value(address) % |t.mem|;
    assert (address + data)[..t.size] == address && (address + data)[t.size..] == data;
    assert address[..t.size] == address && address[t.size..] == [];
    SmallModulo(at + |data|, |t.mem|);
    SmallModulo(Value(address), |t.mem|);
    var one := PlainOne(p, t.size, w).0;
    assert one.mem == Store(t.mem, at, data);
    var two := PlainOne(one, t.size, x).0;
    StoreNothing(one.mem, at);
    SmallModulo(at, |t.mem|);
    assert two == Plain(one.mem, at);
    LoadStored(t.mem, at, data);
    PlainRunOfThree(p, t.size, w, x, r);
  }

  lemma PlainKeepsLength(p: Plain, size: nat, x: Transaction)
    requires p.mem != []
    ensures |PlainOne(p, size, x).0.mem| == |p.mem|
  {
    hide Value, Load;
  }

  lemma PlainRunOfThree(p: Plain, size: nat, w: Transaction, x: Transaction, r: Transaction)
    requires p.mem != []
    ensures PlainOne(p, size, w).0.mem != []
    ensures PlainOne(PlainOne(p, size, w).0, size, x).0.mem != []
    ensures var one := PlainOne(p, size, w);
            var two := PlainOne(one.0, size, x);
            PlainRun(p, size, [w, x, r]).1 == [one.1, two.1, PlainOne(two.0, size, r).1]
  {
    hide PlainOne, PlainRun;
    PlainKeepsLength(p, size, w);
    var one := PlainOne(p, size, w);
    PlainKeepsLength(one.0, size, x);
    var two := PlainOne(one.0, size, x);
    PlainKeepsLength(two.0, size, r);
    var three := PlainOne(two.0, size, r);
    PlainCons(p, size, w, [x, r]);
    PlainCons(one.0, size, x, [r]);
    PlainCons(two.0, size, r, []);
    PlainNone(three.0, size);
    assert [w] + [x, r] == [w, x, r] && [x] + [r] == [x, r] && [r] + [] == [r];
  }

  lemma PlainNone(p: Plain, size: nat)
    requires p.mem != []
    ensures PlainRun(p, size, []) == (p, [])
  {
  }

  lemma PlainCons(p: Plain, size: nat, x: Transaction, xs: seq<Transaction>)
    requires p.mem != [] && PlainOne(p, size, x).0.mem != []
    ensures var one := PlainOne(p, size, x);
            PlainRun(p, size, [x] + xs) == (PlainRun(one.0, size, xs).0, [one.1] + PlainRun(one.0, size, xs).1)
  {
    hide PlainOne;
    assert ([x] + xs)[1..] == xs;
  }

  // The address last selected is that of the last write with a complete address; nothing else
  // changes it.
  lemma LastSelected(t: Target, p: Plain, x: Transaction)
    requires Refines(t, p) && One(t, x).Some?
    ensures One(t, x).value.0.last ==
            if x.Write? && |x.data| >= t.size > 0 then Value(x.data[..t.size]) % |t.mem| else t.last
  {
    hide PutAll, GetAll, Store, Value;
    match x
    case Read(n, stop) => GetData(Match(t, true), n);
    case Write(data, stop) =>
      if data == [] {
        PutNothing(Match(t, false));
      } else {
        FirstByteSelects(t, data);
        var u := t.(state := MemAddrSelect, addr := 0, count := t.size);
        var k := if t.size < |data| then t.size else |data|;
        var address, rest := data[..k], data[k..];
        assert address + rest == data;
        ChunkingIsFree(u, address, rest);
        NoValue();
        assert [] + address == address;
        if k > 0 {
          PutAddress(u, [], address);
        } else {
          PutNothing(u);
          assert address == [];
        }
        SmallModulo(Value(address), |t.mem|);
        if k == t.size {
          var at := Value(address) % |t.mem|;
          PutData(u.(count := 0, addr := at, last := if k > 0 then at else t.last), rest);
        } else {
          PutNothing(PutAll(u, address).value);
          assert rest == [];
        }
      }
  }

  // The bytes of an address count from the first, as digits in base 256.
  lemma AddressDigits(a: Byte, b: Byte)
    ensures Value([a]) == a && Value([a, b]) == 256 * a + b
  {
    ValueSnoc([], a);
    ValueSnoc([a], b);
    assert [] + [a] == [a] && [a] + [b] == [a, b];
  }
}
