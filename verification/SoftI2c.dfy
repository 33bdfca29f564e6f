/** The bit-banged I2C master: pin operations, bytes, and transfers. */
module SoftI2c {
  import opened I2cBus
  import opened Sequences

  const ENODEV := 19

  class SoftI2cMaster {
    // Whether each line is released, the pulses of SCL so far, and all levels there have been.
    var scl: bool
    var sda: bool
    var clocks: nat
    const slave: Slave
    ghost var first: Level
    ghost var trace: seq<Level>

    ghost predicate Valid()
      reads this
    {
      Watched(first, trace).level == Level(scl, sda)
    }

    ghost function Seen(): seq<Symbol>
      reads this
    {
      Watched(first, trace).seen
    }

    // SCL will not end a bit when it next falls.
    ghost predicate Quiet()
      reads this
    {
      !scl || Watched(first, trace).moved
    }

    // Between bytes.
    ghost predicate BetweenBytes()
      reads this
    {
      Valid() && !scl && sda
    }

    // A bus nobody uses yet.
    constructor (slave: Slave)
      ensures Valid() && Quiet() && scl && sda && clocks == 0 && Seen() == [] && this.slave == slave
    {
      this.slave := slave;
      scl, sda, clocks, first, trace := true, true, 0, IDLE, [];
    }

    // ---- pins

    method SclLow()
      requires Valid()
      modifies this
      ensures Valid() && first == old(first) && sda == old(sda) && clocks == old(clocks) && !scl
      ensures Seen() == if old(Quiet()) then old(Seen()) else old(Seen()) + [Bit(sda)]
    {
      scl := false;
      trace := trace + [Level(scl, sda)];
      assert trace[..|trace| - 1] == old(trace);
    }

    // Without a timeout, SCL is high in the end, however long a slave stretches it.
    method SclRelease()
      requires Valid()
      modifies this
      ensures Valid() && first == old(first) && sda == old(sda) && Seen() == old(Seen()) && scl
      ensures if old(scl) then Quiet() == old(Quiet()) && clocks == old(clocks)
              else !Quiet() && clocks == old(clocks) + 1
    {
      if !scl {
        clocks := clocks + 1;
      }
      scl := true;
      trace := trace + [Level(scl, sda)];
      assert trace[..|trace| - 1] == old(trace);
    }

    method SetSda(level: bool)
      requires Valid()
      modifies this
      ensures Valid() && first == old(first) && scl == old(scl) && clocks == old(clocks) && sda == level
      ensures Seen() == old(Seen()) + if scl && old(sda) != level then [if level then Stop else Start] else []
      ensures Quiet() == (old(Quiet()) || old(sda) != level)
    {
      sda := level;
      trace := trace + [Level(scl, sda)];
      assert trace[..|trace| - 1] == old(trace);
    }

    // The wire is high only if neither side pulls it low. `clocks` counts the pulse going on.
    method SdaRead() returns (level: bool)
      requires clocks > 0
      ensures level == (sda && slave(clocks - 1))
    {
      level := sda && slave(clocks - 1);
    }

    // ---- START, STOP and bytes

    // mp_hal_i2c_start, on an idle bus or between bytes.
    method StartCondition()
      requires Valid() && sda && Quiet()
      modifies this
      ensures Valid() && Quiet() && first == old(first) && scl && !sda
      ensures Seen() == old(Seen()) + [Start]
      ensures clocks == if old(scl) then old(clocks) else old(clocks) + 1
    {
      hide Watched;
      SetSda(true);
      SclRelease();
      SetSda(false);
    }

    // mp_hal_i2c_stop, between bytes.
    method StopCondition()
      requires BetweenBytes()
      modifies this
      ensures Valid() && Quiet() && first == old(first) && scl && sda
      ensures Seen() == old(Seen()) + [Stop] && clocks == old(clocks) + 1
    {
      hide Watched;
      SetSda(false);
      SclRelease();
      SetSda(true);
    }

    // One bit of a byte: SDA is set while SCL is low, and SCL is pulsed.
    method SendBit(level: bool)
      requires Valid() && !scl
      modifies this
      ensures Valid() && !scl && first == old(first) && sda == level
      ensures Seen() == old(Seen()) + [Bit(level)] && clocks == old(clocks) + 1
    {
      hide Watched;
      SetSda(level);
      SclRelease();
      SclLow();
    }

    // mp_hal_i2c_write_byte: 0 for an acknowledge and 1 for none.
    method WriteByte(val: nat) returns (ret: int)
      requires Valid() && Quiet()
      modifies this
      ensures BetweenBytes() && first == old(first)
      ensures Seen() == old(Seen()) + Sent(val) && clocks == old(clocks) + 9
      ensures ret == if slave(old(clocks) + 8) then 1 else 0
    {
      hide Watched, Shr, LowBits, Symbols;
      SclLow();
      ghost var bits: seq<bool> := [];
      NoSymbols();
      for i := 8 downto 0
        invariant Valid() && !scl && first == old(first) && clocks == old(clocks) + (8 - i)
        invariant bits + LowBits(val, i) == LowBits(val, 8)
        invariant Seen() == old(Seen()) + Symbols(bits)
      {
        SendBit(Shr(val, i) % 2 == 1);
        NextBit(bits, val, i);
        SymbolsAppend(bits, [sda]);
        OneSymbol(sda);
        bits := bits + [sda];
      }
      NoLowBits(val);
      assert bits == LowBits(val, 8);
      SetSda(true);
      SclRelease();
      var ack := SdaRead();
      SclLow();
      ret := if ack then 1 else 0;
    }

    // mp_hal_i2c_read_byte
    method ReadByte(nack: bool) returns (val: nat)
      requires BetweenBytes()
      modifies this
      ensures BetweenBytes() && first == old(first)
      ensures Seen() == old(Seen()) + Asked(nack) && clocks == old(clocks) + 9
      ensures val == FromBits(Driven(slave, old(clocks)))
    {
      hide Watched, FromBits, Symbols;
      SclLow();
      val := 0;
      ghost var released: seq<bool> := [];
      ghost var driven := Driven(slave, clocks);
      NoSymbols();
      NoBits(driven);
      for i := 0 to 8
        invariant BetweenBytes() && first == old(first) && clocks == old(clocks) + i
        invariant released == seq(i, _ => true) && Seen() == old(Seen()) + Symbols(released)
        invariant val == FromBits(driven[..i])
      {
        SclRelease();
        var level := SdaRead();
        assert level == driven[i];
        BitsSnoc(driven, i);
        val := 2 * val + (if level then 1 else 0);
        SclLow();
        SymbolsAppend(released, [true]);
        OneSymbol(true);
        released := released + [true];
      }
      assert released == [true, true, true, true, true, true, true, true];
      assert driven[..8] == driven;
      if !nack {
        SetSda(false);
      }
      SclRelease();
      SclLow();
      SetSda(true);
    }

    // ---- transfers

    // The bytes of one buffer, until one is not acknowledged.
    method WriteBuffer(buf: seq<nat>) returns (acks: nat, stopped: bool)
      requires BetweenBytes()
      modifies this
      ensures BetweenBytes() && first == old(first) && acks <= |buf|
      ensures stopped <==> acks < |buf|
      ensures var sent := if stopped then acks + 1 else acks;
              Seen() == old(Seen()) + SentAll(buf[..sent]) && clocks == old(clocks) + 9 * sent
      ensures AllAcked(slave, old(clocks), acks)
      ensures stopped ==> slave(old(clocks) + 9 * acks + 8)
    {
      hide Watched, Sent, SentAll, AllAcked;
      acks := 0;
      NoneAcked(slave, clocks);
      NothingSent();
      assert buf[..0] == [];
      while acks < |buf|
        invariant BetweenBytes() && first == old(first) && acks <= |buf|
        invariant Seen() == old(Seen()) + SentAll(buf[..acks]) && clocks == old(clocks) + 9 * acks
        invariant AllAcked(slave, old(clocks), acks)
      {
        var ret := WriteByte(buf[acks]);
        SentSnoc(buf, acks);
        if ret != 0 {
          return acks, true;
        }
        OneAcked(slave, clocks - 9);
        AllAckedAppend(slave, old(clocks), acks, 1);
        acks := acks + 1;
      }
      return acks, false;
    }

    // All buffers, until a byte is not acknowledged.
    method WriteBuffers(bufs: seq<seq<nat>>) returns (acks: nat)
      requires BetweenBytes()
      modifies this
      ensures BetweenBytes() && first == old(first)
      ensures acks == Acks(slave, old(clocks), |Concat(bufs)|)
      ensures Seen() == old(Seen()) + SentAll(GoingOut(slave, old(clocks), Concat(bufs)))
    {
      hide Watched, SentAll, Acks, AllAcked, Concat;
      acks := 0;
      NoneAcked(slave, clocks);
      var b: nat, n: nat := 0, |bufs|;
      NothingSent();
      ghost var data := Concat(bufs);
      var stopped := false;
      while n > 0
        invariant n == (if stopped then 0 else |bufs| - b) && b <= |bufs|
        invariant BetweenBytes() && first == old(first)
        invariant !stopped ==> acks == |Concat(bufs[..b])|
        invariant !stopped ==> Seen() == old(Seen()) + SentAll(Concat(bufs[..b])) && clocks == old(clocks) + 9 * acks
        invariant AllAcked(slave, old(clocks), acks)
        invariant stopped ==> acks < |data| && slave(old(clocks) + 9 * acks + 8)
        invariant stopped ==> Seen() == old(Seen()) + SentAll(data[..acks + 1])
        decreases n
      {
        n := n - 1;
        var k, nack := WriteBuffer(bufs[b]);
        ConcatStep(bufs, b);
        SentAllAppend(Concat(bufs[..b]), bufs[b][..if nack then k + 1 else k]);
        AllAckedAppend(slave, old(clocks), acks, k);
        acks := acks + k;
        if nack {
          ConcatPrefix(bufs, b, k + 1);
          n, stopped := 0, true;
        } else {
          b := b + 1;
        }
      }
      if !stopped {
        assert bufs[..b] == bufs;
      }
      AcksUpTo(slave, old(clocks), |data|, acks);
    }

    // All buffers. The very last byte is not acknowledged, which is when neither buffers nor
    // bytes remain; an empty last buffer leaves every byte acknowledged.
    method ReadBuffers(lens: seq<nat>) returns (out: seq<seq<nat>>)
      requires BetweenBytes()
      modifies this
      ensures BetweenBytes() && first == old(first)
      ensures |out| == |lens| && forall i :: 0 <= i < |out| ==> |out[i]| == lens[i]
      ensures Concat(out) == Received(slave, old(clocks), Total(lens))
      ensures Seen() == old(Seen()) + AskedAll(Total(lens), lens != [] && lens[|lens| - 1] > 0)
    {
      hide Watched, AskedAll, FromBits, Concat;
      NothingSent();
      out := [];
      var n: nat := |lens|;
      NoneAsked();
      while n > 0
        invariant |out| <= |lens| && n == |lens| - |out| && BetweenBytes() && first == old(first)
        invariant forall i :: 0 <= i < |out| ==> |out[i]| == lens[i]
        invariant clocks == old(clocks) + 9 * Total(lens[..|out|])
        invariant Concat(out) == Received(slave, old(clocks), Total(lens[..|out|]))
        invariant Seen() == old(Seen()) + AskedAll(Total(lens[..|out|]), n == 0 && lens != [] && lens[|lens| - 1] > 0)
        decreases n
      {
        n := n - 1;
        var b := |out|;
        var buf := ReadBuffer(lens[b], n == 0, Total(lens[..b]), old(clocks), old(Seen()));
        assert lens[..b + 1][..b] == lens[..b];
        ConcatSnoc(out, buf);
        ReceivedAppend(slave, old(clocks), Total(lens[..b]), lens[b]);
        out := out + [buf];
      }
      assert lens[..|out|] == lens;
    }

    // One buffer, after `done` bytes.
    method ReadBuffer(size: nat, lastBuffer: bool, ghost done: nat, ghost c: nat, ghost seen: seq<Symbol>)
        returns (buf: seq<nat>)
      requires BetweenBytes() && clocks == c + 9 * done && Seen() == seen + AskedAll(done, false)
      modifies this
      ensures BetweenBytes() && first == old(first) && clocks == c + 9 * (done + size)
      ensures |buf| == size && buf == Received(slave, c + 9 * done, size)
      ensures Seen() == seen + AskedAll(done + size, lastBuffer && size > 0)
    {
      hide Watched, FromBits, Asked;
      buf := [];
      var len := size;
      while len > 0
        invariant len == size - |buf| && BetweenBytes() && first == old(first) && clocks == c + 9 * (done + |buf|)
        invariant buf == Received(slave, c + 9 * done, |buf|)
        invariant Seen() == seen + AskedAll(done + |buf|, lastBuffer && len == 0 && size > 0)
        decreases len
      {
        len := len - 1;
        var val := ReadByte(lastBuffer && len == 0);
        buf := buf + [val];
      }
    }

    // mp_machine_soft_i2c_transfer of a write: the number of data bytes acknowledged, or -ENODEV
    // when the address is not.
    method TransferWrite(addr: nat, bufs: seq<seq<nat>>, stop: bool) returns (ret: int)
      requires Valid() && sda && Quiet()
      modifies this
      ensures Valid() && sda && Quiet() && first == old(first)
      ensures var c := if old(scl) then old(clocks) else old(clocks) + 1;
              && Seen() == old(Seen()) + Said(slave, c, addr, Write(Concat(bufs)), stop)
              && ret == if slave(c + 8) then -ENODEV else Acks(slave, c + 9, |Concat(bufs)|)
    {
      hide Watched, SentAll, Acks, Sent, GoingOut, Said, AddressByte, Concat;
      ghost var q := Write(Concat(bufs));
      WriteAddress(addr, q);
      StartCondition();
      SaidOfWrite(slave, clocks, addr, q, stop);
      ghost var c := clocks;
      ret := WriteByte((2 * addr) % 256);
      ghost var head := [Start] + Sent(AddressByte(addr, q));
      Regroup(old(Seen()), [Start], Sent(AddressByte(addr, q)));
      if ret != 0 {
        StopCondition();
        Regroup(old(Seen()), head, [Stop]);
        return -ENODEV;
      }
      ret := WriteBuffers(bufs);
      ghost var body := SentAll(GoingOut(slave, c + 9, q.data));
      Regroup(old(Seen()), head, body);
      if stop {
        StopCondition();
        Regroup(old(Seen()), head + body, [Stop]);
      }
    }

    // mp_machine_soft_i2c_transfer of a read.
    method TransferRead(addr: nat, lens: seq<nat>, stop: bool) returns (ret: int, out: seq<seq<nat>>)
      requires Valid() && sda && Quiet()
      modifies this
      ensures Valid() && sda && Quiet() && first == old(first)
      ensures var c := if old(scl) then old(clocks) else old(clocks) + 1;
              && Seen() == old(Seen()) + Said(slave, c, addr, ReadInto(lens), stop)
              && ret == (if slave(c + 8) then -ENODEV else 0)
              && (ret == 0 ==> |out| == |lens| && (forall i :: 0 <= i < |out| ==> |out[i]| == lens[i])
                               && Concat(out) == Received(slave, c + 9, Total(lens)))
      ensures ret == 0 ==> forall k: nat :: k < Total(lens) ==>
                Acked(old(Seen()), Seen(), k) == Bit(k == Total(lens) - 1 && lens != [] && lens[|lens| - 1] > 0)
    {
      hide Watched, AskedAll, Sent, Received, Concat, Total, AddressByte, Said;
      ghost var q := ReadInto(lens);
      ghost var start := Seen();
      ReadAddress(addr, q);
      StartCondition();
      SaidOfRead(slave, clocks, addr, q, stop);
      ret := WriteByte((2 * addr + 1) % 256);
      ghost var head := [Start] + Sent(AddressByte(addr, q));
      Regroup(old(Seen()), [Start], Sent(AddressByte(addr, q)));
      if ret != 0 {
        StopCondition();
        Regroup(old(Seen()), head, [Stop]);
        return -ENODEV, [];
      }
      out := ReadBuffers(lens);
      ret := 0;
      ghost var body := AskedAll(q.n, q.lastNacked);
      Regroup(old(Seen()), head, body);
      if stop {
        StopCondition();
        Regroup(old(Seen()), head + body, [Stop]);
      }
      EveryAck(slave, if old(scl) then old(clocks) else old(clocks) + 1, addr, lens, stop, start);
    }
  }

  // What the bus saw at the acknowledge of data byte k since it had seen `before`.
  function Acked(before: seq<Symbol>, seen: seq<Symbol>, k: nat): Symbol {
    var i := |before| + AckPlace(k);
    if i < |seen| then seen[i] else Stop
  }

  lemma EveryAck(slave: Slave, c: nat, addr: nat, lens: seq<nat>, stop: bool, before: seq<Symbol>)
    requires !slave(c + 8)
    ensures forall k: nat :: k < Total(lens) ==>
      Acked(before, before + Said(slave, c, addr, ReadInto(lens), stop), k)
      == Bit(k == Total(lens) - 1 && lens != [] && lens[|lens| - 1] > 0)
  {
    hide Said, Total;
    forall k: nat | k < Total(lens)
      ensures Acked(before, before + Said(slave, c, addr, ReadInto(lens), stop), k)
              == Bit(k == Total(lens) - 1 && lens != [] && lens[|lens| - 1] > 0)
    {
      LastByteNacked(slave, c, addr, lens, stop, k);
    }
  }

  lemma NoSymbols()
    ensures Symbols([]) == []
  {
  }

  lemma OneSymbol(b: bool)
    ensures Symbols([b]) == [Bit(b)]
  {
  }

  lemma NoBits(bits: seq<bool>)
    ensures FromBits(bits[..0]) == 0
  {
  }

  lemma BitsSnoc(bits: seq<bool>, i: nat)
    requires i < |bits|
    ensures FromBits(bits[..i + 1]) == 2 * FromBits(bits[..i]) + (if bits[i] then 1 else 0)
  {
    assert bits[..i + 1][..i] == bits[..i];
  }

  lemma NoLowBits(val: nat)
    ensures LowBits(val, 0) == []
  {
  }

  lemma SaidOfRead(slave: Slave, c: nat, addr: nat, q: Request, stop: bool)
    requires q.Read?
    ensures var head := [Start] + Sent(AddressByte(addr, q));
            Said(slave, c, addr, q, stop) ==
            if slave(c + 8) then head + [Stop]
            else if stop then head + AskedAll(q.n, q.lastNacked) + [Stop]
            else head + AskedAll(q.n, q.lastNacked)
  {
    hide Sent, AskedAll, AddressByte;
    var head := [Start] + Sent(AddressByte(addr, q)) + AskedAll(q.n, q.lastNacked);
    assert head + [] == head;
  }

  lemma SaidOfWrite(slave: Slave, c: nat, addr: nat, q: Request, stop: bool)
    requires q.Write?
    ensures var head, body := [Start] + Sent(AddressByte(addr, q)), SentAll(GoingOut(slave, c + 9, q.data));
            Said(slave, c, addr, q, stop) ==
            if slave(c + 8) then head + [Stop]
            else if stop then head + body + [Stop]
            else head + body
  {
    hide Sent, SentAll, GoingOut, AddressByte;
    var head := [Start] + Sent(AddressByte(addr, q)) + SentAll(GoingOut(slave, c + 9, q.data));
    assert head + [] == head;
  }

  lemma WriteAddress(addr: nat, q: Request)
    requires q.Write?
    ensures AddressByte(addr, q) == (2 * addr) % 256
  {
  }

  lemma ReadAddress(addr: nat, q: Request)
    requires q.Read?
    ensures AddressByte(addr, q) == (2 * addr + 1) % 256
  {
  }

  lemma NoneAcked(slave: Slave, c: nat)
    ensures AllAcked(slave, c, 0)
  {
  }

  lemma OneAcked(slave: Slave, c: nat)
    requires !slave(c + 8)
    ensures AllAcked(slave, c, 1)
  {
  }

  lemma SentSnoc(buf: seq<nat>, k: nat)
    requires k < |buf|
    ensures SentAll(buf[..k + 1]) == SentAll(buf[..k]) + Sent(buf[k])
  {
    assert buf[..k + 1][..k] == buf[..k];
  }

  lemma NothingSent()
    ensures Concat<nat>([]) == [] && SentAll([]) == []
  {
  }

  lemma NoneAsked()
    ensures AskedAll(0, false) == []
  {
  }

  lemma NextBit(bits: seq<bool>, val: nat, i: nat)
    ensures bits + [Shr(val, i) % 2 == 1] + LowBits(val, i) == bits + LowBits(val, i + 1)
  {
  }

  lemma ConcatStep(bufs: seq<seq<nat>>, b: nat)
    requires b < |bufs|
    ensures Concat(bufs[..b + 1]) == Concat(bufs[..b]) + bufs[b]
    ensures bufs[b][..|bufs[b]|] == bufs[b]
  {
    ConcatSnoc(bufs[..b], bufs[b]);
    assert bufs[..b + 1] == bufs[..b] + [bufs[b]];
  }

  lemma {:induction false} ConcatPrefix(bufs: seq<seq<nat>>, b: nat, k: nat)
    requires b < |bufs| && k <= |bufs[b]|
    ensures |Concat(bufs[..b])| + k <= |Concat(bufs)|
    ensures Concat(bufs)[..|Concat(bufs[..b])| + k] == Concat(bufs[..b]) + bufs[b][..k]
    decreases |bufs|
  {
    hide Concat;
    var n := |bufs| - 1;
    ConcatStep(bufs, n);
    assert bufs[..n + 1] == bufs;
    if b < n {
      ConcatPrefix(bufs[..n], b, k);
      assert bufs[..n][..b] == bufs[..b];
    }
  }

  lemma ReceivedAppend(slave: Slave, c: nat, m: nat, n: nat)
    ensures Received(slave, c, m + n) == Received(slave, c, m) + Received(slave, c + 9 * m, n)
  {
    hide FromBits;
    var all, first, second := Received(slave, c, m + n), Received(slave, c, m), Received(slave, c + 9 * m, n);
    assert |first + second| == |all|;
    forall i | 0 <= i < m + n ensures all[i] == (first + second)[i] {
      if i >= m {
        assert c + 9 * i == c + 9 * m + 9 * (i - m);
      }
    }
  }
}
