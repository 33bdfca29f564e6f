/**
  Reads of a WebSocket as a function of the reader's state and of what the transport underneath
  will do, and what runs of reads return of the frames on the wire.
 */
module WsReading {
  import opened Bits
  import opened Sequences
  import opened WsFrames

  // ---- the stream underneath

  // What the transport does on one read: gives up to a number of bytes, has none for now, or
  // reports the end.
  datatype Turn = Give(most: nat) | Block | End

  // All bytes still to come, and how the coming reads will go.
  datatype Stream = Stream(wire: seq<nat>, turns: seq<Turn>)

  datatype Got = Bytes(data: seq<nat>) | Eof | WouldBlock

  function Min(a: nat, b: nat): nat {
    if a < b then a else b
  }

  // The next read of the transport, of at most n bytes; a read of none returns 0 at once, like the
  // end.
  function Next(t: Stream, n: nat): (r: (Got, Stream))
    ensures r.0.Bytes? ==> 1 <= |r.0.data| <= n && r.0.data <= t.wire && r.1.wire == t.wire[|r.0.data|..]
    ensures !r.0.Bytes? ==> r.1.wire == t.wire
  {
    if n == 0 then (Eof, t)
    else if t.turns == [] then (WouldBlock, t)
    else
      var rest := t.(turns := t.turns[1..]);
      match t.turns[0]
      case End => (Eof, rest)
      case Block => (WouldBlock, rest)
      case Give(most) =>
        var k := Min(Min(most, n), |t.wire|);
        if k == 0 then (WouldBlock, rest) else (Bytes(t.wire[..k]), rest.(wire := t.wire[k..]))
  }

  // ---- one read

  datatype Errno = EAGAIN | EIO | ENOBUFS | Transported

  // Bytes for the caller, the 0 of an end of stream, or an error.
  datatype Reply = Data(bytes: seq<nat>) | Zero | Failed(errno: Errno)

  // The state after one turn of the loop, what it sent, and whether the call is over.
  datatype Turned = Turned(r: Reader, t: Stream, sent: seq<nat>, done: bool, reply: Reply)

  // A close frame is answered.
  function Answer(closing: bool): seq<nat> {
    if closing then [0x88, 0] else []
  }

  // A header whose length is 127, now or before.
  function Stuck(r: Reader, b: seq<nat>): Reader
    requires |b| == 2
  {
    r.(toRecv := 0, buf := b, mask := [0, 0, 0, 0], lastFlags := b[0])
  }

  function HeaderTurn(r: Reader, t: Stream): Turned
    requires Sound(r) && r.toRecv > 0
  {
    var (got, t') := Next(t, r.toRecv);
    match got
    case Eof => Turned(r, t', [], true, Zero)
    case WouldBlock => Turned(r, t', [], true, Failed(Transported))
    case Bytes(data) =>
      var b := r.buf + data;
      if |data| < r.toRecv then Turned(Filled(r, data), t', [], true, Failed(EAGAIN))
      else if r.phase.FrameOpt? then Turned(AfterOptions(r, b), t', [], false, Zero)
      else if b[1] % 128 == 127 then Turned(Stuck(r, b), t', [], true, Failed(EIO))
      else Turned(AfterHeader(r, b[0], b[1]), t', [], false, Zero)
  }

  function BodyTurn(r: Reader, t: Stream, size: nat): Turned
    requires Sound(r) && r.msgSz > 0
  {
    var (got, t') := Next(t, Min(size, r.msgSz));
    match got
    case Eof => Turned(r, t', [], true, Zero)
    case WouldBlock => Turned(r, t', [], true, Failed(Transported))
    case Bytes(data) =>
      var out := Masked(data, r.mask, r.maskPos);
      if |data| < r.msgSz then Turned(IntoBody(r, |data|), t', [], true, Data(out))
      else if r.phase.Control? then Turned(NextFrame(r), t', Answer(Closing(r)), Closing(r), Zero)
      else Turned(NextFrame(r), t', [], true, Data(out))
  }

  function TurnOf(r: Reader, t: Stream, size: nat): Turned
    requires Sound(r)
  {
    if r.toRecv > 0 then HeaderTurn(r, t)
    else if r.phase.FrameHeader? then Turned(Stuck(r, r.buf), t, [], true, Failed(EIO))
    else if r.msgSz == 0 then Turned(NextFrame(r), t, Answer(Closing(r)), Closing(r), Zero)
    else BodyTurn(r, t, size)
  }

  // Bytes of a control frame are handed out.
  predicate Leak(u: Turned) {
    u.done && u.reply.Data? && u.r.phase.Control?
  }

  // That is so exactly in a control frame of which the transport gives some bytes but not all.
  lemma LeakExactly(r: Reader, t: Stream, size: nat)
    requires Sound(r)
    ensures Leak(TurnOf(r, t, size)) <==>
            r.phase.Control? && r.msgSz > 0
            && var got := Next(t, Min(size, r.msgSz)).0; got.Bytes? && |got.data| < r.msgSz
  {
    hide Next, Masked;
  }

  // What each way for a call to end means. EIO: the header just completed, or one before it, has
  // the length 127. EAGAIN: part of a header came. The transport's own error: it had nothing. The 0
  // of an end: so said the transport, or nothing was asked of it, or a close frame ended.
  lemma ReplyExactly(r: Reader, t: Stream, size: nat)
    requires Sound(r) && TurnOf(r, t, size).done
    ensures var u := TurnOf(r, t, size);
            var wanted := if r.toRecv > 0 then r.toRecv else Min(size, r.msgSz);
            var got := Next(t, wanted).0;
            && (u.reply == Failed(EIO) <==>
                  r.phase.FrameHeader?
                  && (r.toRecv == 0 || (got.Bytes? && |got.data| == r.toRecv && (r.buf + got.data)[1] % 128 == 127)))
            && (u.reply == Failed(EAGAIN) <==> r.toRecv > 0 && got.Bytes? && |got.data| < r.toRecv)
            && (u.reply == Failed(Transported) <==> (r.toRecv > 0 || r.msgSz > 0) && got.WouldBlock?
                                                    && !(r.toRecv == 0 && r.phase.FrameHeader?))
            && u.reply != Failed(ENOBUFS)
            && (u.reply == Zero <==>
                  || ((r.toRecv > 0 || r.msgSz > 0) && got.Eof? && !(r.toRecv == 0 && r.phase.FrameHeader?))
                  || u.sent == [0x88, 0x00])
  {
    hide Masked, Next, AfterHeader, AfterOptions;
  }

  // Transports that give as many bytes as there are, up to m, or none.
  ghost predicate Steady(t: Stream, m: nat) {
    forall i :: 0 <= i < |t.turns| && t.turns[i].Give? ==> t.turns[i].most == m
  }

  // The answers to n close frames: each is a close frame with nothing in it.
  function Answers(n: nat): seq<nat> {
    if n == 0 then [] else [0x88, 0x00] + Answers(n - 1)
  }

  // What was sent answers the close frames that are no longer to come.
  ghost predicate Answered(o: Outlook, u: Turned)
    requires Sound(u.r)
  {
    var o' := Decode(u.r, u.t.wire);
    o'.closes <= o.closes && u.sent == Answers(o.closes - o'.closes) && (!u.done ==> u.sent == [])
  }

  // What a turn does to what is still to be delivered.
  ghost predicate Keeps(o: Outlook, u: Turned, size: nat)
    requires Sound(u.r)
  {
    var o' := Decode(u.r, u.t.wire);
    && o.bytes == (if u.done && u.reply.Data? && !Leak(u) then u.reply.bytes else []) + o'.bytes
    && o.complete == o'.complete && o'.control <= o.control
    && Answered(o, u)
    && (u.done && u.reply.Data? ==> 1 <= |u.reply.bytes| <= size)
    && (Leak(u) ==> o.control > 1)
  }

  ghost predicate LongLast(o: Outlook, u: Turned, m: nat)
    requires Sound(u.r)
  {
    && (Leak(u) ==> o.control > m)
    && (!Leak(u) && o.control > m ==> Decode(u.r, u.t.wire).control > m)
  }

  // A turn that hands out nothing and changes nothing of what is to be delivered.
  lemma QuietKeeps(o: Outlook, u: Turned, size: nat, m: nat)
    requires Sound(u.r) && !u.reply.Data? && u.sent == [] && Decode(u.r, u.t.wire) == o
    ensures Keeps(o, u, size) && LongLast(o, u, m)
  {
    hide Decode, Sound;
    assert [] + o.bytes == o.bytes;
  }

  lemma HeaderTurnKeeps(r: Reader, t: Stream, size: nat, m: nat)
    requires Sound(r) && r.toRecv > 0
    ensures var u, o := HeaderTurn(r, t), Decode(r, t.wire);
            Sound(u.r) && Keeps(o, u, size) && LongLast(o, u, m)
  {
    hide Decode, Next, Keeps, LongLast;
    HeaderTurnQuiet(r, t);
    QuietKeeps(Decode(r, t.wire), HeaderTurn(r, t), size, m);
  }

  lemma HeaderTurnQuiet(r: Reader, t: Stream)
    requires Sound(r) && r.toRecv > 0
    ensures var u := HeaderTurn(r, t);
            Sound(u.r) && !u.reply.Data? && u.sent == [] && Decode(u.r, u.t.wire) == Decode(r, t.wire)
  {
    hide Decode, Next, Sound, AfterHeader, AfterOptions, Stuck, Filled;
    var got := Next(t, r.toRecv).0;
    if got.Bytes? {
      var k := |got.data|;
      PartLengths(r);
      assert got.data == t.wire[..k];
      if k < r.toRecv {
        PartOfHeader(r, t.wire, k);
      } else {
        DecodeHeader(r, t.wire);
        HeaderComplete(r, r.buf + got.data, t.wire[k..]);
      }
    }
  }

  lemma PartLengths(r: Reader)
    requires Sound(r) && r.toRecv > 0
    ensures |r.mask| == 4 && r.maskPos < 256
    ensures if r.phase.FrameHeader? then |r.buf| + r.toRecv == 2
            else r.phase.FrameOpt? && OptionSize(|r.buf| + r.toRecv)
  {
  }

  lemma HeaderComplete(r: Reader, b: seq<nat>, rest: seq<nat>)
    requires Sound(r) && ((r.phase.FrameHeader? && |b| == 2) || (r.phase.FrameOpt? && OptionSize(|b|)))
    ensures var r' := if r.phase.FrameOpt? then AfterOptions(r, b)
                      else if b[1] % 128 == 127 then Stuck(r, b) else AfterHeader(r, b[0], b[1]);
            Sound(r') && Decode(r', rest) == Complete(r, b, rest)
  {
    if r.phase.FrameOpt? {
      AfterOptionsSound(r, b);
    } else if b[1] % 128 == 127 {
      StuckDecodes(r, b, rest);
    } else {
      AfterHeaderSound(r, b[0], b[1]);
    }
  }

  lemma StuckDecodes(r: Reader, b: seq<nat>, wire: seq<nat>)
    requires r.maskPos < 256 && r.phase.FrameHeader? && |b| == 2 && b[1] % 128 == 127
    ensures Sound(Stuck(r, b)) && Decode(Stuck(r, b), wire) == Outlook([], 0, 0, false)
  {
  }

  lemma AfterOptionsSound(r: Reader, b: seq<nat>)
    requires Sound(r) && r.phase.FrameOpt? && OptionSize(|b|)
    ensures Sound(AfterOptions(r, b))
  {
  }

  lemma BodyTurnKeeps(r: Reader, t: Stream, size: nat, m: nat)
    requires Sound(r) && r.toRecv == 0 && (r.phase.Payload? || r.phase.Control?) && r.msgSz > 0
    ensures var u, o := BodyTurn(r, t, size), Decode(r, t.wire);
            && Sound(u.r) && Keeps(o, u, size)
            && (Steady(t, m) && o.complete ==> LongLast(o, u, Min(m, size)))
  {
    hide Decode, Masked;
    var got := Next(t, Min(size, r.msgSz)).0;
    if got.Bytes? {
      if |got.data| < r.msgSz {
        BodyInPart(r, t, size, m);
      } else {
        BodyWhole(r, t, size, m);
      }
    } else {
      QuietKeeps(Decode(r, t.wire), BodyTurn(r, t, size), size, Min(m, size));
    }
  }

  lemma BodyInPart(r: Reader, t: Stream, size: nat, m: nat)
    requires Sound(r) && r.toRecv == 0 && (r.phase.Payload? || r.phase.Control?) && r.msgSz > 0
    requires var got := Next(t, Min(size, r.msgSz)).0; got.Bytes? && |got.data| < r.msgSz
    ensures var u, o := BodyTurn(r, t, size), Decode(r, t.wire);
            && Sound(u.r) && Keeps(o, u, size)
            && (Steady(t, m) && o.complete ==> LongLast(o, u, Min(m, size)))
  {
    hide Decode, Masked;
    var k := |Next(t, Min(size, r.msgSz)).0.data|;
    if r.phase.Payload? {
      PartOfPayload(r, t.wire, k);
    } else {
      PartOfControl(r, t.wire, k);
    }
  }

  lemma BodyWhole(r: Reader, t: Stream, size: nat, m: nat)
    requires Sound(r) && r.toRecv == 0 && (r.phase.Payload? || r.phase.Control?) && r.msgSz > 0
    requires var got := Next(t, Min(size, r.msgSz)).0; got.Bytes? && |got.data| >= r.msgSz
    ensures var u, o := BodyTurn(r, t, size), Decode(r, t.wire);
            && Sound(u.r) && Keeps(o, u, size)
            && (Steady(t, m) && o.complete ==> LongLast(o, u, Min(m, size)))
  {
    hide Decode, Masked;
    var k := r.msgSz;
    assert t.wire == t.wire[..k] + t.wire[k..];
    if r.phase.Payload? {
      WholePayload(r, t.wire[..k], t.wire[k..]);
    } else {
      WholeControl(r, t.wire[..k], t.wire[k..]);
    }
  }

  // The end of an empty frame.
  lemma EmptyTurnKeeps(r: Reader, t: Stream, size: nat, m: nat)
    requires Sound(r) && r.toRecv == 0 && (r.phase.Payload? || r.phase.Control?) && r.msgSz == 0
    ensures var u, o := TurnOf(r, t, size), Decode(r, t.wire);
            Sound(u.r) && Keeps(o, u, size) && LongLast(o, u, m)
  {
    hide Decode;
    EmptyBody(r, t.wire);
    var o := Decode(r, t.wire);
    assert [] + o.bytes == o.bytes;
    OneAnswer();
  }

  lemma OneAnswer()
    ensures Answers(0) == [] && Answers(1) == [0x88, 0]
  {
    assert Answers(1) == [0x88, 0] + Answers(0);
  }

  lemma {:induction false} MoreAnswers(a: nat, b: nat)
    ensures Answers(a) + Answers(b) == Answers(a + b)
  {
    if a > 0 {
      MoreAnswers(a - 1, b);
      Regroup([0x88, 0x00], Answers(a - 1), Answers(b));
    }
  }

  lemma TurnKeeps(r: Reader, t: Stream, size: nat, m: nat)
    requires Sound(r)
    ensures var u, o := TurnOf(r, t, size), Decode(r, t.wire);
            && Sound(u.r) && Keeps(o, u, size)
            && (Steady(t, m) && o.complete ==> LongLast(o, u, Min(m, size)))
  {
    hide Decode, Keeps, LongLast, HeaderTurn, BodyTurn;
    var u, o := TurnOf(r, t, size), Decode(r, t.wire);
    if r.toRecv > 0 {
      HeaderTurnKeeps(r, t, size, Min(m, size));
    } else if r.phase.FrameHeader? {
      StuckDecodes(r, r.buf, t.wire);
      StuckAgain(r, t.wire);
      QuietKeeps(o, u, size, Min(m, size));
    } else if r.msgSz == 0 {
      EmptyTurnKeeps(r, t, size, Min(m, size));
    } else {
      BodyTurnKeeps(r, t, size, m);
    }
  }

  lemma StuckAgain(r: Reader, wire: seq<nat>)
    requires Sound(r) && r.phase.FrameHeader? && r.toRecv == 0
    ensures Decode(r, wire) == Outlook([], 0, 0, false)
  {
  }

  lemma TurnSound(r: Reader, t: Stream, size: nat)
    requires Sound(r)
    ensures var u := TurnOf(r, t, size);
            && Sound(u.r)
            && (!u.done ==> |u.t.wire| < |t.wire| || (u.t.wire == t.wire && r.toRecv == 0 && u.r.toRecv > 0))
  {
    hide Decode, Masked, Keeps, LongLast, AfterHeader, AfterOptions;
    TurnKeeps(r, t, size, 1);
  }

  // A call of websocket_read: turns until one ends it.
  function ReadOf(r: Reader, t: Stream, size: nat): Turned
    requires Sound(r)
    decreases |t.wire|, if r.toRecv == 0 then 1 else 0
  {
    var u := TurnOf(r, t, size);
    TurnSound(r, t, size);
    if u.done then u
    else
      var v := ReadOf(u.r, u.t, size);
      v.(sent := u.sent + v.sent)
  }

  // The turns of a transport only get fewer.
  lemma TurnsLeft(r: Reader, t: Stream, size: nat, m: nat)
    requires Sound(r) && Steady(t, m)
    ensures Steady(TurnOf(r, t, size).t, m)
  {
    hide Decode, Masked, Sound;
  }

  lemma {:induction false} ReadKeeps(r: Reader, t: Stream, size: nat, m: nat)
    requires Sound(r)
    ensures var u, o := ReadOf(r, t, size), Decode(r, t.wire);
            && u.done && Sound(u.r) && Keeps(o, u, size)
            && (Steady(t, m) && o.complete ==> Steady(u.t, m) && LongLast(o, u, Min(m, size)))
    decreases |t.wire|, if r.toRecv == 0 then 1 else 0
  {
    hide Decode, TurnOf;
    var u := TurnOf(r, t, size);
    TurnSound(r, t, size);
    TurnKeeps(r, t, size, m);
    if Steady(t, m) {
      TurnsLeft(r, t, size, m);
    }
    if !u.done {
      ReadKeeps(u.r, u.t, size, m);
    }
  }

  // ---- runs of reads

  // The state after some reads, what each returned, whether one handed out control bytes, and
  // what was sent.
  datatype Reads = Reads(r: Reader, t: Stream, outs: seq<seq<nat>>, leaked: bool, sent: seq<nat>)
  {
    // All frames have been read.
    predicate Finished() {
      t.wire == [] && r.phase.FrameHeader? && r.toRecv == 2
    }
  }

  function Given(u: Turned): seq<nat> {
    if u.reply.Data? then u.reply.bytes else []
  }

  function RunOf(r: Reader, t: Stream, sizes: seq<nat>): Reads
    requires Sound(r)
    decreases |sizes|
  {
    if sizes == [] then Reads(r, t, [], false, [])
    else
      var u := ReadOf(r, t, sizes[0]);
      ReadKeeps(r, t, sizes[0], 0);
      var more := RunOf(u.r, u.t, sizes[1..]);
      Reads(more.r, more.t, [Given(u)] + more.outs, Leak(u) || more.leaked, u.sent + more.sent)
  }

  // Without a leak, what was returned and what is left are what there was; a leak is too much.
  lemma {:induction false} RunConserves(r: Reader, t: Stream, sizes: seq<nat>)
    requires Sound(r)
    ensures var run := RunOf(r, t, sizes);
            && Sound(run.r)
            && var o, o' := Decode(r, t.wire), Decode(run.r, run.t.wire);
               && (!run.leaked ==> o.bytes == Concat(run.outs) + o'.bytes)
               && |Concat(run.outs)| + |o'.bytes| >= |o.bytes| + (if run.leaked then 1 else 0)
               && (run.leaked ==> o.control > 1)
    decreases |sizes|
  {
    hide Decode, ReadOf, Sound;
    if sizes != [] {
      var u := ReadOf(r, t, sizes[0]);
      ReadKeeps(r, t, sizes[0], 0);
      RunConserves(u.r, u.t, sizes[1..]);
      var more := RunOf(u.r, u.t, sizes[1..]);
      assert ([Given(u)] + more.outs)[1..] == more.outs;
      Regroup(Given(u), Concat(more.outs), Decode(more.r, more.t.wire).bytes);
    }
  }

  // What was sent answers the close frames that were read.
  lemma {:induction false} RunAnswers(r: Reader, t: Stream, sizes: seq<nat>)
    requires Sound(r)
    ensures var run := RunOf(r, t, sizes);
            && Sound(run.r)
            && var left := Decode(run.r, run.t.wire).closes;
               left <= Decode(r, t.wire).closes && run.sent == Answers(Decode(r, t.wire).closes - left)
    decreases |sizes|
  {
    hide Decode, ReadOf, Sound;
    if sizes != [] {
      var u := ReadOf(r, t, sizes[0]);
      ReadKeeps(r, t, sizes[0], 0);
      RunAnswers(u.r, u.t, sizes[1..]);
      var more := RunOf(u.r, u.t, sizes[1..]);
      var middle, left := Decode(u.r, u.t.wire).closes, Decode(more.r, more.t.wire).closes;
      MoreAnswers(Decode(r, t.wire).closes - middle, middle - left);
    }
  }

  lemma {:induction false} FewerAnswers(a: nat, b: nat)
    requires a <= b
    ensures Answers(a) <= Answers(b)
  {
    MoreAnswers(a, b - a);
  }

  // Every close frame is answered once, when it has been read to its end: the reads have sent the
  // answers to some of them, and to all once all frames are read.
  lemma ClosesAnswered(frames: seq<Frame>, turns: seq<Turn>, sizes: seq<nat>)
    requires LegalFrames(frames)
    ensures var run := RunOf(START, Stream(Wire(frames), turns), sizes);
            && run.sent <= Answers(CloseFrames(frames))
            && (run.Finished() ==> run.sent == Answers(CloseFrames(frames)))
  {
    hide Decode, Wire, Payloads, RunOf;
    DecodeInvertsFraming(START, frames);
    RunAnswers(START, Stream(Wire(frames), turns), sizes);
    var run := RunOf(START, Stream(Wire(frames), turns), sizes);
    FewerAnswers(CloseFrames(frames) - Decode(run.r, run.t.wire).closes, CloseFrames(frames));
    NothingToDecode(run.r);
  }

  // A steady transport read with one size: a control frame longer than what a read can get is
  // still there or has leaked, and no other leaks.
  lemma {:induction false} RunLeaks(r: Reader, t: Stream, sizes: seq<nat>, size: nat, m: nat)
    requires Sound(r) && forall i :: 0 <= i < |sizes| ==> sizes[i] == size
    requires Steady(t, m) && Decode(r, t.wire).complete
    ensures var run := RunOf(r, t, sizes);
            && Sound(run.r)
            && var o, o' := Decode(r, t.wire), Decode(run.r, run.t.wire);
               && (run.leaked ==> o.control > Min(m, size))
               && (!run.leaked && o.control > Min(m, size) ==> o'.control > Min(m, size))
    decreases |sizes|
  {
    hide Decode, ReadOf, Sound, Steady;
    if sizes != [] {
      var u := ReadOf(r, t, size);
      ReadKeeps(r, t, size, m);
      ReadKeeps(r, t, size, 0);
      RunLeaks(u.r, u.t, sizes[1..], size, m);
    }
  }

  // The main result. However the bytes of the frames come in, however often a read is
  // interrupted and whatever control frames are among them: without a leak the reads return a
  // prefix of the payloads, and once all frames are read they have returned exactly the payloads
  // if and only if there was no leak. Control payloads of at most a byte never leak.
  lemma ReadingUndoesFraming(frames: seq<Frame>, turns: seq<Turn>, sizes: seq<nat>)
    requires LegalFrames(frames)
    ensures var run := RunOf(START, Stream(Wire(frames), turns), sizes);
            && (!run.leaked ==> Concat(run.outs) <= Payloads(frames))
            && (run.Finished() ==> (Concat(run.outs) == Payloads(frames) <==> !run.leaked))
            && (LongestControl(frames) <= 1 ==> !run.leaked)
  {
    hide Decode, Wire, Payloads, RunOf;
    DecodeInvertsFraming(START, frames);
    RunConserves(START, Stream(Wire(frames), turns), sizes);
    var run := RunOf(START, Stream(Wire(frames), turns), sizes);
    NothingToDecode(run.r);
  }

  // On a transport that gives up to m bytes at a time, all frames read with one size give their
  // payloads if and only if no control payload is longer than a single read can get.
  lemma SteadyReadingUndoesFraming(frames: seq<Frame>, turns: seq<Turn>, sizes: seq<nat>, size: nat, m: nat)
    requires LegalFrames(frames) && forall i :: 0 <= i < |sizes| ==> sizes[i] == size
    requires Steady(Stream(Wire(frames), turns), m)
    ensures var run := RunOf(START, Stream(Wire(frames), turns), sizes);
            run.Finished() ==>
              (Concat(run.outs) == Payloads(frames) <==>
               forall f :: f in frames && IsControl(f.flags) ==> |f.payload| <= Min(m, size))
  {
    hide Decode, Wire, Payloads, RunOf, LongestControl;
    var t := Stream(Wire(frames), turns);
    DecodeInvertsFraming(START, frames);
    LongestBounds(frames, Min(m, size));
    RunLeaks(START, t, sizes, size, m);
    ReadingUndoesFraming(frames, turns, sizes);
    var run := RunOf(START, t, sizes);
    if run.Finished() {
      NothingToDecode(run.r);
    }
  }

  // ---- progress

  // How many of the coming reads give something.
  function Gives(turns: seq<Turn>): nat {
    if turns == [] then 0 else (if turns[0].Give? && turns[0].most > 0 then 1 else 0) + Gives(turns[1..])
  }

  // There are enough of them for all the bytes.
  predicate Plenty(t: Stream) {
    Gives(t.turns) >= |t.wire|
  }

  // A reader that a call leaves: something is missing of a header or of a payload.
  predicate Resting(r: Reader) {
    r.toRecv > 0 || r.phase.FrameHeader? || r.msgSz > 0
  }

  lemma NextGoesOn(t: Stream, n: nat)
    requires n > 0
    ensures var t' := Next(t, n).1;
            && (Plenty(t) ==> Plenty(t'))
            && |t'.turns| == if t.turns == [] then 0 else |t.turns| - 1
  {
  }

  lemma TurnGoesOn(r: Reader, t: Stream, size: nat)
    requires Sound(r)
    ensures var u := TurnOf(r, t, size);
            && (Plenty(t) ==> Plenty(u.t)) && |u.t.turns| <= |t.turns|
            && (size > 0 && Resting(r) && !(r.phase.FrameHeader? && r.toRecv == 0) && t.turns != [] ==>
                  |u.t.turns| < |t.turns|)
            && (u.done ==> Resting(u.r))
  {
    hide Next, Plenty, Masked, AfterHeader, AfterOptions;
    if r.toRecv > 0 {
      NextGoesOn(t, r.toRecv);
    } else if !r.phase.FrameHeader? && r.msgSz > 0 {
      if size > 0 {
        NextGoesOn(t, Min(size, r.msgSz));
      } else {
        assert Next(t, 0) == (Eof, t) by {
          NextOfNone(t);
        }
      }
    }
  }

  lemma NextOfNone(t: Stream)
    ensures Next(t, 0) == (Eof, t)
  {
  }

  lemma {:induction false} ReadGoesOn(r: Reader, t: Stream, size: nat)
    requires Sound(r)
    ensures var u := ReadOf(r, t, size);
            && (Plenty(t) ==> Plenty(u.t)) && |u.t.turns| <= |t.turns|
            && (size > 0 && Resting(r) && !(r.phase.FrameHeader? && r.toRecv == 0) && t.turns != [] ==>
                  |u.t.turns| < |t.turns|)
            && Resting(u.r)
    decreases |t.wire|, if r.toRecv == 0 then 1 else 0
  {
    hide TurnOf, Plenty, Resting, Sound;
    TurnSound(r, t, size);
    TurnGoesOn(r, t, size);
    var u := TurnOf(r, t, size);
    if !u.done {
      ReadGoesOn(u.r, u.t, size);
    }
  }

  // Where what is left is a whole number of frames, the reader is not stuck, and with nothing
  // left it is at the start of one.
  lemma WholeFrames(r: Reader, wire: seq<nat>)
    requires Sound(r) && Decode(r, wire).complete
    ensures !(r.phase.FrameHeader? && r.toRecv == 0)
    ensures wire == [] && Resting(r) ==> r.phase.FrameHeader? && r.toRecv == 2
  {
  }

  lemma {:induction false} RunGoesOn(r: Reader, t: Stream, sizes: seq<nat>)
    requires Sound(r) && 0 !in sizes && Resting(r) && Plenty(t) && Decode(r, t.wire).complete
    requires |t.turns| <= |sizes|
    ensures RunOf(r, t, sizes).Finished()
    decreases |sizes|
  {
    hide Decode, ReadOf, Sound, Resting;
    WholeFrames(r, t.wire);
    if sizes != [] {
      var u := ReadOf(r, t, sizes[0]);
      ReadKeeps(r, t, sizes[0], 0);
      ReadGoesOn(r, t, sizes[0]);
      RunGoesOn(u.r, u.t, sizes[1..]);
    }
  }

  // Every run of reads finishes in which the transport gives something at least once for each
  // byte, however often it blocks or ends in between, if there are as many reads, of at least one
  // byte, as turns of the transport.
  lemma RunFinishes(frames: seq<Frame>, turns: seq<Turn>, sizes: seq<nat>)
    requires LegalFrames(frames) && 0 !in sizes
    requires Gives(turns) >= |Wire(frames)| && |sizes| >= |turns|
    ensures RunOf(START, Stream(Wire(frames), turns), sizes).Finished()
  {
    hide Decode, Wire, RunOf;
    DecodeInvertsFraming(START, frames);
    RunGoesOn(START, Stream(Wire(frames), turns), sizes);
  }

  // For one: a PING with two payload bytes that come one at a time. The first is returned as
  // data, although there is no data frame.
  lemma PingInPieces()
    ensures var ping := Frame(0x89, NoKey, false, [7, 9]);
            var run := RunOf(START, Stream(Wire([ping]), [Give(2), Give(1), Give(1)]), [10, 10]);
            && LegalFrames([ping]) && Payloads([ping]) == []
            && run.Finished() && run.outs == [[7], []] && run.leaked
  {
    var ping := Frame(0x89, NoKey, false, [7, 9]);
    assert Wire([ping]) == [0x89, 2, 7, 9] by {
      assert [ping][1..] == [];
      assert Wire([]) == [];
    }
    assert Payloads([ping]) == [] by {
      assert [ping][1..] == [];
    }
    PingFirstRead();
    PingSecondRead();
    var t := Stream(Wire([ping]), [Give(2), Give(1), Give(1)]);
    hide ReadOf, TurnOf, Wire, Payloads;
    assert [10, 10][1..] == [10] && [10][1..] == [];
    assert RunOf(NextFrame(InPing(1)), Stream([], []), []).outs == [];
  }

  // The reader within the payload of the PING, with n bytes to come.
  function InPing(n: nat): Reader
    requires n <= 2
  {
    Reader(Control, 0, [], [0, 0, 0, 0], 2 - n, n, 0x89)
  }

  lemma PingFirstRead()
    ensures Sound(InPing(1))
    ensures ReadOf(START, Stream([0x89, 2, 7, 9], [Give(2), Give(1), Give(1)]), 10)
            == Turned(InPing(1), Stream([9], [Give(1)]), [], true, Data([7]))
  {
    var t := Stream([0x89, 2, 7, 9], [Give(2), Give(1), Give(1)]);
    var t' := Stream([7, 9], [Give(1), Give(1)]);
    assert Next(t, 2) == (Bytes([0x89, 2]), t') by {
      assert t.turns[1..] == t'.turns;
      assert t.wire[..2] == [0x89, 2] && t.wire[2..] == [7, 9];
    }
    assert [] + [0x89, 2] == [0x89, 2];
    assert TurnOf(START, t, 10) == Turned(InPing(2), t', [], false, Zero);
    assert Next(t', 2) == (Bytes([7]), Stream([9], [Give(1)])) by {
      assert t'.turns[1..] == [Give(1)];
      assert t'.wire[..1] == [7] && t'.wire[1..] == [9];
    }
    MaskedZero([7]);
    assert TurnOf(InPing(2), t', 10) == Turned(InPing(1), Stream([9], [Give(1)]), [], true, Data([7]));
  }

  lemma PingSecondRead()
    ensures ReadOf(InPing(1), Stream([9], [Give(1)]), 10)
            == Turned(NextFrame(InPing(1)), Stream([], []), [], true, Failed(Transported))
  {
    var t := Stream([9], [Give(1)]);
    assert Next(t, 1) == (Bytes([9]), Stream([], [])) by {
      assert t.turns[1..] == [];
      assert t.wire[..1] == [9] && t.wire[1..] == [];
    }
    assert TurnOf(InPing(1), t, 10) == Turned(NextFrame(InPing(1)), Stream([], []), [], false, Zero);
    assert TurnOf(NextFrame(InPing(1)), Stream([], []), 10)
        == Turned(NextFrame(InPing(1)), Stream([], []), [], true, Failed(Transported));
  }
}
