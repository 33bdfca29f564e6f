/**
  Receiving on a connected lwIP socket: segments are appended to a chain of buffers and read off
  its head, one buffer at a time, with an offset into the first.
 */
module LwipReceive {

  // A buffer of the chain with its reference count.
  datatype Pbuf = Pbuf(data: seq<int>, refs: nat)

  function Flatten(chain: seq<Pbuf>): seq<int> {
    if chain == [] then [] else chain[0].data + Flatten(chain[1..])
  }

  lemma {:induction false} FlattenAppend(a: seq<Pbuf>, b: seq<Pbuf>)
    ensures Flatten(a + b) == Flatten(a) + Flatten(b)
  {
    if a == [] {
      assert a + b == b;
    } else {
      assert (a + b)[1..] == a[1..] + b;
      FlattenAppend(a[1..], b);
    }
  }

  // ---- reference counts

  // pbuf_ref on the head of a chain, or on NULL.
  function PbufRef(chain: seq<Pbuf>): seq<Pbuf> {
    if chain == [] then [] else [chain[0].(refs := chain[0].refs + 1)] + chain[1..]
  }

  // pbuf_free: drops a reference to the head; a buffer that loses its last one is freed and
  // drops the reference to the next.
  function PbufFree(chain: seq<Pbuf>): (left: seq<Pbuf>)
    ensures |left| <= |chain|
  {
    if chain == [] then []
    else if chain[0].refs <= 1 then PbufFree(chain[1..])
    else [chain[0].(refs := chain[0].refs - 1)] + chain[1..]
  }

  ghost predicate OneRefEach(chain: seq<Pbuf>) {
    forall i :: 0 <= i < |chain| ==> chain[i].refs == 1
  }

  // Without the extra reference the whole chain would go.
  lemma {:induction false} FreeTakesAll(chain: seq<Pbuf>)
    requires OneRefEach(chain)
    ensures PbufFree(chain) == []
  {
    if chain != [] {
      FreeTakesAll(chain[1..]);
    }
  }

  // With it, exactly the head is freed and the rest is as it was.
  lemma FreeTakesHead(chain: seq<Pbuf>)
    requires OneRefEach(chain) && chain != []
    ensures PbufFree([chain[0]] + PbufRef(chain[1..])) == chain[1..]
  {
    var rest := chain[1..];
    assert ([chain[0]] + PbufRef(rest))[1..] == PbufRef(rest);
    if rest != [] {
      assert rest[0].refs == 1;
      assert PbufRef(rest)[1..] == rest[1..];
    }
  }

  lemma RefsOfRest(chain: seq<Pbuf>)
    requires OneRefEach(chain) && chain != []
    ensures OneRefEach(chain[1..])
  {
  }

  // ---- one receive on a socket that has a buffer

  // The bytes handed out, and the chain and offset left.
  datatype Taken = Taken(bytes: seq<int>, chain: seq<Pbuf>, offset: nat)

  function Read(chain: seq<Pbuf>, offset: nat, len: nat, peek: bool): Taken
    requires chain != [] && offset <= |chain[0].data|
  {
    var remaining := |chain[0].data| - offset;
    var n := if len > remaining then remaining else len;
    var bytes := chain[0].data[offset..offset + n];
    if peek then Taken(bytes, chain, offset)
    else if remaining - n == 0 then Taken(bytes, chain[1..], 0)
    else Taken(bytes, chain, offset + n)
  }

  ghost predicate InFirst(chain: seq<Pbuf>, offset: nat) {
    if chain == [] then offset == 0
    else offset < |chain[0].data| || (offset == 0 && chain[0].data == [])
  }

  ghost function Pending(chain: seq<Pbuf>, offset: nat): seq<int>
    requires InFirst(chain, offset)
  {
    HeadInFlat(chain);
    Flatten(chain)[offset..]
  }

  lemma HeadInFlat(chain: seq<Pbuf>)
    ensures chain != [] ==> |chain[0].data| <= |Flatten(chain)| && chain[0].data <= Flatten(chain)
  {
  }

  lemma DropAppend(a: seq<int>, b: seq<int>, n: nat)
    requires n <= |a|
    ensures (a + b)[n..] == a[n..] + b
  {
  }

  lemma PendingOf(chain: seq<Pbuf>, offset: nat)
    requires InFirst(chain, offset)
    ensures Pending(chain, offset) ==
            if chain == [] then [] else chain[0].data[offset..] + Flatten(chain[1..])
  {
    if chain != [] {
      DropAppend(chain[0].data, Flatten(chain[1..]), offset);
    }
  }

  lemma PendingAppend(chain: seq<Pbuf>, p: seq<Pbuf>, offset: nat)
    requires InFirst(chain, offset)
    ensures InFirst(chain + p, offset) && Pending(chain + p, offset) == Pending(chain, offset) + Flatten(p)
  {
    hide Flatten;
    FlattenAppend(chain, p);
    HeadInFlat(chain);
    if chain == [] {
      assert chain + p == p;
    } else {
      assert (chain + p)[0] == chain[0];
    }
    DropAppend(Flatten(chain), Flatten(p), offset);
  }

  // What is handed out is a prefix of what is pending; what is left is the rest of it, or all
  // of it after a peek. Nothing is handed out only when nothing was asked for or the first
  // buffer is empty.
  lemma ReadConserves(chain: seq<Pbuf>, offset: nat, len: nat, peek: bool)
    requires chain != [] && InFirst(chain, offset)
    ensures var t := Read(chain, offset, len, peek);
            && InFirst(t.chain, t.offset) && |t.bytes| <= len
            && t.bytes <= Pending(chain, offset)
            && (if peek then Pending(t.chain, t.offset) == Pending(chain, offset)
                else t.bytes + Pending(t.chain, t.offset) == Pending(chain, offset))
            && (t.bytes == [] <==> len == 0 || chain[0].data == [])
  {
    hide Flatten, Pending;
    var t := Read(chain, offset, len, peek);
    var d, n := chain[0].data, |t.bytes|;
    var rest := Flatten(chain[1..]);
    SplitBytes(d, offset, n);
    PendingOf(chain, offset);
    Reassociate(t.bytes, d[offset + n..], rest);
    if !peek && offset + n == |d| {
      PendingFresh(chain[1..]);
      assert d[offset + n..] + rest == rest;
    } else if !peek {
      PendingOf(chain, offset + n);
    }
  }

  lemma SplitBytes(d: seq<int>, offset: nat, n: nat)
    requires offset + n <= |d|
    ensures d[offset..] == d[offset..offset + n] + d[offset + n..]
  {
  }

  lemma Reassociate(a: seq<int>, b: seq<int>, c: seq<int>)
    ensures a + b + c == a + (b + c) && a <= a + (b + c)
  {
  }

  lemma HasHead(chain: seq<Pbuf>, offset: nat)
    requires chain != [] && InFirst(chain, offset)
    ensures offset <= |chain[0].data|
  {
  }

  lemma PendingFresh(chain: seq<Pbuf>)
    ensures InFirst(chain, 0) && Pending(chain, 0) == Flatten(chain)
  {
  }

  // ---- the socket

  const STATE_LISTENING := 1
  const STATE_CONNECTED := 3
  const STATE_PEER_CLOSED := 4

  // ENOTCONN, EAGAIN, ETIMEDOUT, or what the table has for an lwIP error; a blocking call with
  // nothing to return yet goes on polling.
  datatype Received = Data(bytes: seq<int>) | NotConnected | Again | TimedOut | StackError(index: int) | Polling

  class TcpSocket {
    var state: int
    var chain: seq<Pbuf>
    var recvOffset: nat
    // The sum of what tcp_recved was told.
    var recved: nat
    ghost var arrived: seq<int>
    ghost var delivered: seq<int>

    ghost predicate Valid()
      reads this
    {
      && OneRefEach(chain) && InFirst(chain, recvOffset)
      && arrived == delivered + Pending(chain, recvOffset)
      && recved == |delivered|
    }

    // The socket made by accept.
    constructor ()
      ensures Valid() && state == STATE_CONNECTED && arrived == [] && delivered == []
    {
      state, chain, recvOffset, recved := STATE_CONNECTED, [], 0, 0;
      arrived, delivered := [], [];
    }

    // _lwip_tcp_recv: `p` is a chain of its own, and empty for NULL.
    method OnRecv(p: seq<Pbuf>)
      requires Valid() && OneRefEach(p)
      modifies this
      ensures Valid() && arrived == old(arrived) + Flatten(p) && delivered == old(delivered)
      ensures state == if p == [] then STATE_PEER_CLOSED else old(state)
      ensures chain == old(chain) + p && recvOffset == old(recvOffset)
    {
      if p == [] {
        state := STATE_PEER_CLOSED;
        return;
      }
      hide Flatten, Pending;
      PendingAppend(chain, p, recvOffset);
      if chain == [] {
        assert chain + p == p;
        chain := p;
      } else {
        chain := chain + p;
      }
      arrived := arrived + Flatten(p);
    }

    // lwip_tcp_receive, one turn of its waiting loop at a time.
    method Receive(len: nat, peek: bool, nonblocking: bool, timedOut: bool) returns (r: Received)
      requires Valid()
      modifies this
      ensures Valid() && state == old(state) && arrived == old(arrived)
      ensures r.Data? && old(chain) != [] ==>
                old(recvOffset) <= |old(chain)[0].data|
                && var t := Read(old(chain), old(recvOffset), len, peek);
                   r.bytes == t.bytes && chain == t.chain && recvOffset == t.offset
      ensures r.Data? && !peek ==> delivered == old(delivered) + r.bytes && recved == old(recved) + |r.bytes|
      ensures !r.Data? || peek ==>
                delivered == old(delivered) && chain == old(chain)
                && recvOffset == old(recvOffset) && recved == old(recved)
      ensures r.Data? <==> 0 <= state && state != STATE_LISTENING && (old(chain) != [] || state == STATE_PEER_CLOSED)
      ensures r.Data? && old(chain) == [] ==> r.bytes == [] && chain == [] && recvOffset == old(recvOffset)
      ensures r.StackError? <==> state < 0
      ensures r.StackError? ==> r.index == -state
      ensures r.NotConnected? <==>
                state == STATE_LISTENING
                || (old(chain) == [] && !nonblocking && 0 <= state && state !in {STATE_CONNECTED, STATE_PEER_CLOSED})
      ensures r.Again? <==>
                old(chain) == [] && nonblocking && 0 <= state && state !in {STATE_LISTENING, STATE_PEER_CLOSED}
      ensures r.TimedOut? <==> old(chain) == [] && !nonblocking && state == STATE_CONNECTED && timedOut
      ensures r.Polling? <==> old(chain) == [] && !nonblocking && state == STATE_CONNECTED && !timedOut
    {
      hide Flatten, Pending, OneRefEach, PbufFree, PbufRef, InFirst;
      if state < 0 {
        return StackError(-state);
      }
      if state == STATE_LISTENING {
        return NotConnected;
      }
      if chain == [] {
        if nonblocking {
          if state == STATE_PEER_CLOSED {
            return Data([]);
          }
          return Again;
        }
        if state == STATE_CONNECTED {
          return if timedOut then TimedOut else Polling;
        }
        if state == STATE_PEER_CLOSED {
          return Data([]);
        }
        return NotConnected;
      }
      HasHead(chain, recvOffset);
      ReadConserves(chain, recvOffset, len, peek);
      ghost var t := Read(chain, recvOffset, len, peek);
      var p := chain[0];
      var remaining := |p.data| - recvOffset;
      var n := if len > remaining then remaining else len;
      var bytes := p.data[recvOffset..recvOffset + n];
      if !peek {
        remaining := remaining - n;
        if remaining == 0 {
          FreeTakesHead(chain);
          RefsOfRest(chain);
          var rest := PbufRef(chain[1..]);
          chain := PbufFree([p] + rest);
          recvOffset := 0;
        } else {
          recvOffset := recvOffset + n;
        }
        assert chain == t.chain && recvOffset == t.offset;
        recved := recved + n;
        delivered := delivered + bytes;
      }
      return Data(bytes);
    }
  }

  // ---- runs

  datatype Event = Segment(p: seq<Pbuf>) | Recv(len: nat, peek: bool)

  datatype Stream = Stream(chain: seq<Pbuf>, offset: nat, arrived: seq<int>, delivered: seq<int>)

  ghost predicate Conserved(s: Stream) {
    && InFirst(s.chain, s.offset) && OneRefEach(s.chain)
    && s.arrived == s.delivered + Pending(s.chain, s.offset)
  }

  ghost predicate LegalEvents(events: seq<Event>) {
    forall i :: 0 <= i < |events| && events[i].Segment? ==> OneRefEach(events[i].p)
  }

  function Next(s: Stream, e: Event): Stream
    requires s.chain != [] ==> s.offset <= |s.chain[0].data|
  {
    match e
    case Segment(p) => s.(chain := s.chain + p, arrived := s.arrived + Flatten(p))
    case Recv(len, peek) =>
      if s.chain == [] then s
      else
        var t := Read(s.chain, s.offset, len, peek);
        s.(chain := t.chain, offset := t.offset, delivered := if peek then s.delivered else s.delivered + t.bytes)
  }

  lemma StepConserves(s: Stream, e: Event)
    requires Conserved(s) && (e.Segment? ==> OneRefEach(e.p))
    ensures Conserved(Next(s, e))
  {
    hide Flatten, Pending;
    match e {
      case Segment(p) =>
        PendingAppend(s.chain, p, s.offset);
      case Recv(len, peek) =>
        if s.chain != [] {
          ReadConserves(s.chain, s.offset, len, peek);
        }
    }
  }

  ghost function After(events: seq<Event>): (s: Stream)
    requires LegalEvents(events)
    ensures Conserved(s)
  {
    if events == [] then Stream([], 0, [], [])
    else
      var s := After(events[..|events| - 1]);
      StepConserves(s, events[|events| - 1]);
      Next(s, events[|events| - 1])
  }

  ghost function AllArrived(events: seq<Event>): seq<int> {
    if events == [] then []
    else
      var e := events[|events| - 1];
      AllArrived(events[..|events| - 1]) + (if e.Segment? then Flatten(e.p) else [])
  }

  // Over every interleaving of arrivals and receives, what was delivered followed by what is
  // still in the chain is everything that arrived, so what is delivered is always a prefix.
  lemma {:induction false} StreamConserved(events: seq<Event>)
    requires LegalEvents(events)
    ensures var s := After(events);
            s.delivered + Pending(s.chain, s.offset) == AllArrived(events) && s.delivered <= AllArrived(events)
  {
    if events != [] {
      StreamConserved(events[..|events| - 1]);
      assert AllArrived(events) == After(events).arrived;
    }
  }

  // The callbacks and receives of a run, on the socket itself; what the receives that did not
  // peek returned, in order.
  method Drive(s: TcpSocket, events: seq<Event>) returns (got: seq<int>)
    requires s.Valid() && s.state == STATE_CONNECTED && s.chain == [] && s.delivered == [] && LegalEvents(events)
    modifies s
    ensures s.Valid() && got == After(events).delivered == s.delivered
    ensures s.chain == After(events).chain && s.recvOffset == After(events).offset
    ensures got + Pending(s.chain, s.recvOffset) == AllArrived(events)
  {
    hide Pending, Flatten, Read, OneRefEach, InFirst;
    EmptySocket(s);
    got := [];
    for i := 0 to |events|
      invariant s.Valid() && (s.state == STATE_CONNECTED || s.state == STATE_PEER_CLOSED)
      invariant LegalEvents(events[..i]) && got == s.delivered == After(events[..i]).delivered
      invariant s.chain == After(events[..i]).chain && s.recvOffset == After(events[..i]).offset
    {
      assert events[..i + 1][..i] == events[..i];
      match events[i] {
        case Segment(p) =>
          assert s.chain + [] == s.chain;
          s.OnRecv(p);
        case Recv(len, peek) =>
          var r := s.Receive(len, peek, true, false);
          if r.Data? && !peek {
            got := got + r.bytes;
          }
      }
    }
    assert events[..|events|] == events;
    StreamConserved(events);
  }

  lemma EmptySocket(s: TcpSocket)
    requires s.Valid() && s.chain == []
    ensures s.recvOffset == 0
  {
  }
}
