/**
  What two lines say on an I2C bus (NXP UM10204 sections 3.1.3 to 3.1.6): START and STOP are
  changes of SDA while SCL is high, and a bit is a pulse of SCL during which SDA is stable. The
  lines are those the master drives; OnWire adds what the slave does to SDA.
 */
module I2cBus {

  datatype Level = Level(scl: bool, sda: bool)

  datatype Symbol = Start | Stop | Bit(b: bool)

  // An onlooker: the levels now, whether SDA has moved since SCL rose (or SCL has been high from
  // the beginning), and the symbols so far.
  datatype Watch = Watch(level: Level, moved: bool, seen: seq<Symbol>)

  const IDLE: Level := Level(true, true)

  function Observe(w: Watch, l: Level): Watch {
    if w.level.scl && l.scl then
      if w.level.sda && !l.sda then Watch(l, true, w.seen + [Start])
      else if !w.level.sda && l.sda then Watch(l, true, w.seen + [Stop])
      else w.(level := l)
    else if w.level.scl then Watch(l, w.moved, if w.moved then w.seen else w.seen + [Bit(w.level.sda)])
    else if l.scl then Watch(l, false, w.seen)
    else w.(level := l)
  }

  function Watched(first: Level, trace: seq<Level>): (w: Watch)
    ensures w.level == if trace == [] then first else trace[|trace| - 1]
  {
    if trace == [] then Watch(first, true, [])
    else Observe(Watched(first, trace[..|trace| - 1]), trace[|trace| - 1])
  }

  // ---- bytes as bits, most significant first

  function Shr(v: nat, i: nat): nat {
    if i == 0 then v else Shr(v, i - 1) / 2
  }

  // The lowest n bits of v.
  function LowBits(v: nat, n: nat): (bits: seq<bool>)
    ensures |bits| == n
  {
    if n == 0 then [] else [Shr(v, n - 1) % 2 == 1] + LowBits(v, n - 1)
  }

  function FromBits(bits: seq<bool>): nat {
    if bits == [] then 0 else 2 * FromBits(bits[..|bits| - 1]) + (if bits[|bits| - 1] then 1 else 0)
  }

  lemma {:induction false} ShrHalf(v: nat, i: nat)
    ensures Shr(v / 2, i) == Shr(v, i + 1)
  {
    if i > 0 {
      ShrHalf(v, i - 1);
    }
  }

  lemma {:induction false} LowBitsSnoc(v: nat, n: nat)
    ensures LowBits(v, n + 1) == LowBits(v / 2, n) + [v % 2 == 1]
  {
    if n > 0 {
      LowBitsSnoc(v, n - 1);
      ShrHalf(v, n - 1);
    }
  }

  // Eight bits make the byte they were taken from.
  lemma {:induction false} BitsRoundTrip(v: nat, n: nat)
    ensures Shr(v, n) == 0 ==> FromBits(LowBits(v, n)) == v
  {
    if n > 0 {
      LowBitsSnoc(v, n - 1);
      ShrHalf(v, n - 1);
      BitsRoundTrip(v / 2, n - 1);
      assert LowBits(v, n)[..n - 1] == LowBits(v / 2, n - 1);
    }
  }

  lemma ByteRoundTrip(v: nat)
    requires v < 256
    ensures FromBits(LowBits(v, 8)) == v
  {
    assert Shr(v, 8) == v / 2 / 2 / 2 / 2 / 2 / 2 / 2 / 2 == 0 by {
      assert Shr(v, 1) == v / 2 && Shr(v, 2) == Shr(v, 1) / 2 && Shr(v, 3) == Shr(v, 2) / 2;
      assert Shr(v, 4) == Shr(v, 3) / 2 && Shr(v, 5) == Shr(v, 4) / 2 && Shr(v, 6) == Shr(v, 5) / 2;
      assert Shr(v, 7) == Shr(v, 6) / 2 && Shr(v, 8) == Shr(v, 7) / 2;
    }
    BitsRoundTrip(v, 8);
  }

  function Symbols(bits: seq<bool>): seq<Symbol> {
    seq(|bits|, i requires 0 <= i < |bits| => Bit(bits[i]))
  }

  lemma SymbolsAppend(a: seq<bool>, b: seq<bool>)
    ensures Symbols(a + b) == Symbols(a) + Symbols(b)
  {
  }

  // ---- what a transfer says

  // A byte sent by the master: its bits, then SDA released for the acknowledge.
  function Sent(v: nat): seq<Symbol> {
    Symbols(LowBits(v, 8)) + [Bit(true)]
  }

  // A byte read by the master: SDA released for eight bits, then its acknowledge.
  function Asked(nack: bool): seq<Symbol> {
    Symbols([true, true, true, true, true, true, true, true]) + [Bit(nack)]
  }

  function SentAll(data: seq<nat>): seq<Symbol> {
    if data == [] then [] else SentAll(data[..|data| - 1]) + Sent(data[|data| - 1])
  }

  // n bytes read; the last is not acknowledged if `last` says so.
  function AskedAll(n: nat, last: bool): (s: seq<Symbol>)
    ensures |s| == 9 * n
  {
    if n == 0 then [] else AskedAll(n - 1, false) + Asked(last)
  }

  // The level the slave lets SDA have during each pulse of SCL, counted from the first.
  type Slave = nat -> bool

  // How many of up to n bytes sent from clock c on are acknowledged before the first that is not.
  function Acks(slave: Slave, c: nat, n: nat): (k: nat)
    ensures k <= n
    decreases n
  {
    if n == 0 || slave(c + 8) then 0 else 1 + Acks(slave, c + 9, n - 1)
  }

  ghost predicate AllAcked(slave: Slave, c: nat, k: nat) {
    forall i: nat :: i < k ==> !slave(c + 9 * i + 8)
  }

  lemma AllAckedAppend(slave: Slave, c: nat, m: nat, k: nat)
    requires AllAcked(slave, c, m) && AllAcked(slave, c + 9 * m, k)
    ensures AllAcked(slave, c, m + k)
  {
    forall i: nat | i < m + k ensures !slave(c + 9 * i + 8) {
      if i >= m {
        assert !slave(c + 9 * m + 9 * (i - m) + 8);
      }
    }
  }

  lemma {:induction false} AcksUpTo(slave: Slave, c: nat, n: nat, k: nat)
    requires AllAcked(slave, c, k) && k <= n && (k < n ==> slave(c + 9 * k + 8))
    ensures Acks(slave, c, n) == k
    decreases k
  {
    if k > 0 {
      assert !slave(c + 9 * 0 + 8);
      forall i: nat | i < k - 1 ensures !slave(c + 9 + 9 * i + 8) {
        assert !slave(c + 9 * (i + 1) + 8);
      }
      AcksUpTo(slave, c + 9, n - 1, k - 1);
    } else if n > 0 {
      assert slave(c + 9 * 0 + 8);
    }
  }

  // The n bytes a slave puts on the bus from clock c on, nine clocks apart.
  function Received(slave: Slave, c: nat, n: nat): seq<nat> {
    seq(n, i requires 0 <= i < n => FromBits(Driven(slave, c + 9 * i)))
  }

  function Driven(slave: Slave, c: nat): seq<bool> {
    seq(8, i requires 0 <= i < 8 => slave(c + i))
  }

  // A slave that drives the bits of the bytes is read as those bytes.
  lemma ReadsWhatIsDriven(slave: Slave, c: nat, data: seq<nat>)
    requires forall i :: 0 <= i < |data| ==> data[i] < 256 && Driven(slave, c + 9 * i) == LowBits(data[i], 8)
    ensures Received(slave, c, |data|) == data
  {
    forall i | 0 <= i < |data| ensures Received(slave, c, |data|)[i] == data[i] {
      ByteRoundTrip(data[i]);
    }
  }

  lemma {:induction false} SentAllAppend(a: seq<nat>, b: seq<nat>)
    ensures SentAll(a + b) == SentAll(a) + SentAll(b)
  {
    if b == [] {
      assert a + b == a;
    } else {
      assert (a + b)[..|a + b| - 1] == a + b[..|b| - 1];
      SentAllAppend(a, b[..|b| - 1]);
    }
  }

  function Total(lens: seq<nat>): nat {
    if lens == [] then 0 else Total(lens[..|lens| - 1]) + lens[|lens| - 1]
  }

  // What a whole transfer says. `data` is what is written, `n` how much is read.
  datatype Request = Write(data: seq<nat>) | Read(n: nat, lastNacked: bool)

  function AddressByte(addr: nat, q: Request): nat {
    (2 * addr + (if q.Read? then 1 else 0)) % 256
  }

  // The data bytes that go out: all, or those up to the first that is not acknowledged.
  function GoingOut(slave: Slave, c: nat, data: seq<nat>): seq<nat> {
    var k := Acks(slave, c, |data|);
    if k < |data| then data[..k + 1] else data
  }

  function Said(slave: Slave, c: nat, addr: nat, q: Request, stop: bool): seq<Symbol> {
    var head := [Start] + Sent(AddressByte(addr, q));
    if slave(c + 8) then head + [Stop]
    else
      head + (match q
              case Write(data) => SentAll(GoingOut(slave, c + 9, data))
              case Read(n, lastNacked) => AskedAll(n, lastNacked))
      + (if stop then [Stop] else [])
  }

  // ---- START, STOP and clocks in it

  function Conditions(s: seq<Symbol>): seq<Symbol> {
    if s == [] then []
    else Conditions(s[..|s| - 1]) + (if s[|s| - 1].Bit? then [] else [s[|s| - 1]])
  }

  lemma {:induction false} ConditionsAppend(a: seq<Symbol>, b: seq<Symbol>)
    ensures Conditions(a + b) == Conditions(a) + Conditions(b)
  {
    if b == [] {
      assert a + b == a;
    } else {
      assert (a + b)[..|a + b| - 1] == a + b[..|b| - 1];
      ConditionsAppend(a, b[..|b| - 1]);
    }
  }

  ghost predicate OnlyBits(s: seq<Symbol>) {
    forall i :: 0 <= i < |s| ==> s[i].Bit?
  }

  // Bits said by the master from clock c on, as they are on the wire, which is high only where
  // both sides let go of it. The slave changes SDA only while SCL is low, so its level is that of
  // a whole pulse, and it lets go where the master makes START or STOP.
  function OnWire(s: seq<Symbol>, slave: Slave, c: nat): seq<Symbol>
    requires OnlyBits(s)
  {
    seq(|s|, i requires 0 <= i < |s| => Bit(s[i].b && slave(c + i)))
  }

  // No condition comes up on the wire within the bits, and there are as many of them.
  lemma OnWireIsBits(s: seq<Symbol>, slave: Slave, c: nat)
    requires OnlyBits(s)
    ensures OnlyBits(OnWire(s, slave, c)) && |OnWire(s, slave, c)| == |s| && Conditions(OnWire(s, slave, c)) == []
  {
    NoConditions(OnWire(s, slave, c));
  }

  // A written byte is on the wire as it is if and only if the slave leaves its ones alone; the
  // ninth bit is the slave's.
  lemma WrittenOnWire(v: nat, slave: Slave, c: nat)
    ensures OnlyBits(Sent(v))
    ensures OnWire(Sent(v), slave, c)[..8] == Symbols(LowBits(v, 8)) <==>
            forall i: nat :: i < 8 && LowBits(v, 8)[i] ==> slave(c + i)
    ensures OnWire(Sent(v), slave, c)[8] == Bit(slave(c + 8))
  {
    hide LowBits;
    var bits, wire := LowBits(v, 8), OnWire(Sent(v), slave, c);
    assert forall i: nat :: i < 8 ==> Sent(v)[i] == Bit(bits[i]);
    assert forall i: nat :: i < 8 ==> wire[..8][i] == Bit(bits[i] && slave(c + i)) && Symbols(bits)[i] == Bit(bits[i]);
    if wire[..8] == Symbols(bits) {
      forall i: nat | i < 8 && bits[i]
        ensures slave(c + i)
      {
        assert wire[..8][i] == Symbols(bits)[i];
      }
    }
  }

  // A byte read is on the wire as the slave drives it, and then the master's acknowledge if the
  // slave lets go.
  lemma ReadOnWire(nack: bool, slave: Slave, c: nat)
    ensures OnlyBits(Asked(nack))
    ensures OnWire(Asked(nack), slave, c) == Symbols(Driven(slave, c)) + [Bit(nack && slave(c + 8))]
  {
    var wire := OnWire(Asked(nack), slave, c);
    forall i: nat | i < 8
      ensures wire[i] == Symbols(Driven(slave, c))[i]
    {
    }
  }

  lemma {:induction false} NoConditions(s: seq<Symbol>)
    requires OnlyBits(s)
    ensures Conditions(s) == []
  {
    if s != [] {
      NoConditions(s[..|s| - 1]);
    }
  }

  lemma {:induction false} NineClocksEach(data: seq<nat>)
    ensures |SentAll(data)| == 9 * |data| && OnlyBits(SentAll(data))
  {
    if data != [] {
      NineClocksEach(data[..|data| - 1]);
    }
  }

  lemma {:induction false} NineClocksRead(n: nat, last: bool)
    ensures |AskedAll(n, last)| == 9 * n && OnlyBits(AskedAll(n, last))
    ensures n > 0 ==> AskedAll(n, last)[9 * n - 1] == Bit(last)
    ensures forall i: nat :: i + 1 < n ==> AskedAll(n, last)[9 * i + 8] == Bit(false)
  {
    if n > 0 {
      NineClocksRead(n - 1, false);
    }
  }

  // Besides bits, a transfer says one START, first, and at most one STOP, last.
  lemma OneStartOneStop(slave: Slave, c: nat, addr: nat, q: Request, stop: bool)
    ensures Conditions(Said(slave, c, addr, q, stop)) == [Start] + if stop || slave(c + 8) then [Stop] else []
    ensures Said(slave, c, addr, q, stop)[0] == Start
  {
    hide Conditions, Sent, SentAll, AskedAll;
    var a := Sent(AddressByte(addr, q));
    OneByte(AddressByte(addr, q));
    var body := if slave(c + 8) then [] else
                  (match q
                   case Write(data) => SentAll(GoingOut(slave, c + 9, data))
                   case Read(n, lastNacked) => AskedAll(n, lastNacked));
    var tail: seq<Symbol> := if stop || slave(c + 8) then [Stop] else [];
    match q {
      case Write(data) => NineClocksEach(GoingOut(slave, c + 9, data));
      case Read(n, lastNacked) => NineClocksRead(n, lastNacked);
    }
    assert Said(slave, c, addr, q, stop) == [Start] + a + body + tail;
    NoConditions(a);
    NoConditions(body);
    ConditionsAppend([Start], a);
    ConditionsAppend([Start] + a, body);
    ConditionsAppend([Start] + a + body, tail);
    OneCondition(Start);
    OneCondition(Stop);
    NoConditions([]);
  }

  lemma OneByte(v: nat)
    ensures |Sent(v)| == 9 && OnlyBits(Sent(v))
  {
  }

  lemma OneCondition(s: Symbol)
    ensures !s.Bit? ==> Conditions([s]) == [s]
  {
    assert [s][..0] == [];
  }

  // The request to read into buffers of some sizes.
  function ReadInto(lens: seq<nat>): Request {
    Read(Total(lens), lens != [] && lens[|lens| - 1] > 0)
  }

  // What a read of n bytes says at the acknowledge of data byte k: START, the address with its
  // acknowledge and nine symbols for each byte.
  function AckPlace(k: nat): nat {
    18 + 9 * k
  }

  // On the bus every byte read but the last is acknowledged, and the last is not exactly when the
  // last buffer is not empty.
  lemma LastByteNacked(slave: Slave, c: nat, addr: nat, lens: seq<nat>, stop: bool, k: nat)
    requires !slave(c + 8) && k < Total(lens)
    ensures var said := Said(slave, c, addr, ReadInto(lens), stop);
            AckPlace(k) < |said| && said[AckPlace(k)] == Bit(k == Total(lens) - 1 && lens != [] && lens[|lens| - 1] > 0)
  {
    hide AskedAll, Sent, Total, AddressByte;
    var q := ReadInto(lens);
    OneByte(AddressByte(addr, q));
    NineClocksRead(q.n, q.lastNacked);
    var head, body := [Start] + Sent(AddressByte(addr, q)), AskedAll(q.n, q.lastNacked);
    var said := Said(slave, c, addr, q, stop);
    assert said == head + body + (if stop then [Stop] else []);
    assert said[10 + 9 * k + 8] == body[9 * k + 8];
  }

  // For one: buffers of sizes 1 and 0, whose one byte is acknowledged.
  lemma EmptyLastBuffer(slave: Slave, c: nat, addr: nat, stop: bool)
    requires !slave(c + 8)
    ensures ReadInto([1, 0]).n == 1
    ensures var said := Said(slave, c, addr, ReadInto([1, 0]), stop); 18 < |said| && said[18] == Bit(false)
  {
    hide Said;
    assert [1, 0][..1] == [1] && [1][..0] == [];
    assert Total([1, 0]) == 1;
    LastByteNacked(slave, c, addr, [1, 0], stop, 0);
  }

  // ---- the bits of a transfer one by one

  // The bits of a byte from the one worth 128 to the one worth 1.
  function Places(v: nat): (bits: seq<bool>)
    ensures |bits| == 8
  {
    [v / 128 % 2 == 1, v / 64 % 2 == 1, v / 32 % 2 == 1, v / 16 % 2 == 1,
     v / 8 % 2 == 1, v / 4 % 2 == 1, v / 2 % 2 == 1, v % 2 == 1]
  }

  lemma ShrPowers(v: nat)
    ensures Shr(v, 0) == v && Shr(v, 1) == v / 2 && Shr(v, 2) == v / 4 && Shr(v, 3) == v / 8
    ensures Shr(v, 4) == v / 16 && Shr(v, 5) == v / 32 && Shr(v, 6) == v / 64 && Shr(v, 7) == v / 128
  {
    assert Shr(v, 1) == v / 2 && Shr(v, 2) == Shr(v, 1) / 2 && Shr(v, 3) == Shr(v, 2) / 2;
    assert Shr(v, 4) == Shr(v, 3) / 2 && Shr(v, 5) == Shr(v, 4) / 2 && Shr(v, 6) == Shr(v, 5) / 2;
    assert Shr(v, 7) == Shr(v, 6) / 2;
  }

  lemma {:induction false} LowBitsAt(v: nat, n: nat, i: nat)
    requires i < n
    ensures LowBits(v, n)[i] == (Shr(v, n - 1 - i) % 2 == 1)
  {
    if i > 0 {
      LowBitsAt(v, n - 1, i - 1);
    }
  }

  lemma MostSignificantFirst(v: nat)
    ensures LowBits(v, 8) == Places(v)
  {
    hide LowBits, Shr;
    ShrPowers(v);
    forall i: nat | i < 8 ensures LowBits(v, 8)[i] == Places(v)[i] {
      LowBitsAt(v, 8, i);
    }
  }

  // A byte that is read from the slave is the one whose bits it drives, the first worth 128.
  lemma ByteDriven(slave: Slave, c: nat, v: nat)
    requires v < 256
    ensures FromBits(Driven(slave, c)) == v <==> forall i: nat :: i < 8 ==> slave(c + i) == Places(v)[i]
  {
    hide LowBits, Places;
    MostSignificantFirst(v);
    ByteRoundTrip(v);
    assert forall i: nat :: i < 8 ==> Driven(slave, c)[i] == slave(c + i);
    assert Driven(slave, c) == Places(v) <==> forall i: nat :: i < 8 ==> slave(c + i) == Places(v)[i];
    if FromBits(Driven(slave, c)) == v {
      SameBits(Driven(slave, c), LowBits(v, 8));
    }
  }

  lemma {:induction false} SameBits(a: seq<bool>, b: seq<bool>)
    requires |a| == |b| && FromBits(a) == FromBits(b)
    ensures a == b
  {
    if a != [] {
      var n := |a| - 1;
      SameBits(a[..n], b[..n]);
      assert a == a[..n] + [a[n]] && b == b[..n] + [b[n]];
    }
  }

  // The address goes first in seven bits, its own most significant first, and then a bit that is
  // high for a read.
  lemma AddressBits(addr: nat, q: Request)
    requires addr < 128
    ensures forall i: nat :: i < 7 ==> Places(AddressByte(addr, q))[i] == Places(addr)[i + 1]
    ensures Places(AddressByte(addr, q))[7] == q.Read?
  {
    hide LowBits, Places;
    var v := AddressByte(addr, q);
    assert v / 2 == addr && (v % 2 == 1) == q.Read?;
    MostSignificantFirst(v);
    MostSignificantFirst(addr);
    LowBitsSnoc(v, 7);
    forall i: nat | i < 7 ensures Places(v)[i] == Places(addr)[i + 1] {
      LowBitsAt(addr, 7, i);
      LowBitsAt(addr, 8, i + 1);
    }
  }

  lemma {:induction false} SentAt(data: seq<nat>, k: nat, i: nat)
    requires k < |data| && i < 9
    ensures |SentAll(data)| == 9 * |data|
    ensures SentAll(data)[9 * k + i] == Bit(i == 8 || Places(data[k])[i])
  {
    hide LowBits, Places;
    NineClocksEach(data);
    var n := |data| - 1;
    NineClocksEach(data[..n]);
    if k < n {
      SentAt(data[..n], k, i);
      assert data[..n][k] == data[k];
    } else {
      MostSignificantFirst(data[n]);
      assert SentAll(data)[9 * n + i] == Sent(data[n])[i];
    }
  }

  // What a write says, place by place: START, the address, the data bytes up to the first that is
  // not acknowledged, each with SDA let go for its ninth bit, and STOP.
  lemma WriteBitByBit(slave: Slave, c: nat, addr: nat, data: seq<nat>, stop: bool, k: nat, i: nat)
    requires addr < 128 && i < 9 && !slave(c + 8)
    requires forall j: nat :: j < k ==> !slave(c + 9 + 9 * j + 8)
    requires k < |data|
    ensures var said := Said(slave, c, addr, Write(data), stop);
            && 19 + 9 * k <= |said| && said[0] == Start
            && said[1 + i] == Bit(i == 8 || (i < 7 && Places(addr)[i + 1]))
            && said[10 + 9 * k + i] == Bit(i == 8 || Places(data[k])[i])
  {
    hide Places, SentAll, Sent;
    var q := Write(data);
    var out := GoingOut(slave, c + 9, data);
    SentToFirst(slave, c + 9, data, k);
    OneByte(AddressByte(addr, q));
    AddressBits(addr, q);
    SentOne(AddressByte(addr, q));
    SentAt([AddressByte(addr, q)], 0, i);
    SentAt(out, k, i);
    var said := Said(slave, c, addr, q, stop);
    assert said == [Start] + Sent(AddressByte(addr, q)) + SentAll(out) + (if stop then [Stop] else []);
    assert said[1 + i] == Sent(AddressByte(addr, q))[i];
    assert said[10 + 9 * k + i] == SentAll(out)[9 * k + i];
  }

  lemma SentOne(v: nat)
    ensures SentAll([v]) == Sent(v)
  {
    assert [v][..0] == [];
  }

  // Every byte behind acknowledged ones goes out, itself acknowledged or not.
  lemma {:induction false} SentToFirst(slave: Slave, c: nat, data: seq<nat>, k: nat)
    requires k < |data| && forall j: nat :: j < k ==> !slave(c + 9 * j + 8)
    ensures k < |GoingOut(slave, c, data)| && GoingOut(slave, c, data)[k] == data[k]
  {
    AtLeastAcked(slave, c, |data|, k);
  }

  lemma {:induction false} AtLeastAcked(slave: Slave, c: nat, n: nat, k: nat)
    requires k <= n && forall j: nat :: j < k ==> !slave(c + 9 * j + 8)
    ensures Acks(slave, c, n) >= k
    decreases k
  {
    if k > 0 {
      assert !slave(c + 9 * 0 + 8);
      forall j: nat | j < k - 1 ensures !slave(c + 9 + 9 * j + 8) {
        assert !slave(c + 9 * (j + 1) + 8);
      }
      AtLeastAcked(slave, c + 9, n - 1, k - 1);
    }
  }

  // The bytes counted as acknowledged are those whose ninth bit is low on the wire; the next, if
  // there is one, has a high one.
  lemma {:induction false} AcksAreLow(slave: Slave, c: nat, n: nat)
    ensures forall i: nat :: i < Acks(slave, c, n) ==> !slave(c + 9 * i + 8)
    ensures Acks(slave, c, n) < n ==> slave(c + 9 * Acks(slave, c, n) + 8)
    decreases n
  {
    if n > 0 {
      if !slave(c + 8) {
        AcksAreLow(slave, c + 9, n - 1);
        forall i: nat | i < Acks(slave, c, n) ensures !slave(c + 9 * i + 8) {
          if i > 0 {
            assert !slave(c + 9 + 9 * (i - 1) + 8);
          }
        }
      } else {
        assert slave(c + 9 * 0 + 8);
      }
    }
  }

  lemma LowNinthBits(slave: Slave, c: nat, data: seq<nat>)
    ensures var k, out := Acks(slave, c, |data|), GoingOut(slave, c, data);
            && OnlyBits(SentAll(out)) && |SentAll(out)| == 9 * |out|
            && (forall i: nat :: i < |out| ==> OnWire(SentAll(out), slave, c)[9 * i + 8] == Bit(i >= k))
            && |out| == if k < |data| then k + 1 else k
  {
    hide SentAll, Places, Acks;
    var k, out := Acks(slave, c, |data|), GoingOut(slave, c, data);
    NineClocksEach(out);
    AcksAreLow(slave, c, |data|);
    var said := SentAll(out);
    forall i: nat | i < |out| ensures OnWire(said, slave, c)[9 * i + 8] == Bit(i >= k) {
      SentAt(out, i, 8);
      var place := 9 * i + 8;
      assert said[place] == Bit(true) && c + place == c + 9 * i + 8;
      assert OnWire(said, slave, c)[place] == Bit(slave(c + place));
    }
  }

  // A small wave: SDA falls while SCL is high, a pulse with SDA high, a pulse that ends with SDA
  // rising.
  lemma SmallWave()
    ensures var high, low := true, false;
            Watched(IDLE, [Level(high, low), Level(low, low), Level(low, high), Level(high, high),
                           Level(low, high), Level(low, low), Level(high, low), Level(high, high)]).seen
            == [Start, Bit(true), Stop]
  {
    var t := [Level(true, false), Level(false, false), Level(false, true), Level(true, true),
              Level(false, true), Level(false, false), Level(true, false), Level(true, true)];
    assert t[..8] == t;
    assert Watched(IDLE, t[..0]) == Watch(IDLE, true, []);
    forall k: nat | k < 8 ensures Watched(IDLE, t[..k + 1]) == Observe(Watched(IDLE, t[..k]), t[k]) {
      assert t[..k + 1][..k] == t[..k];
    }
    assert Watched(IDLE, t[..1]).seen == [Start];
    assert Watched(IDLE, t[..2]) == Watch(t[1], true, [Start]);
    assert Watched(IDLE, t[..4]) == Watch(t[3], false, [Start]);
    assert Watched(IDLE, t[..5]) == Watch(t[4], false, [Start, Bit(true)]);
    assert Watched(IDLE, t[..7]) == Watch(t[6], false, [Start, Bit(true)]);
  }
}
