/**
  The WebSocket stream: a reader that can be interrupted anywhere in a frame, and the writer.
 */
module WebSockets {
  import opened Bits
  import opened Sequences
  import opened WsFrames
  import opened WsReading

  // ---- the stream underneath

  class Transport {
    // All bytes still to come, how the coming reads will go, and all bytes sent.
    var wire: seq<nat>
    var turns: seq<Turn>
    var sent: seq<nat>

    function Ahead(): Stream
      reads this
    {
      Stream(wire, turns)
    }

    constructor (wire: seq<nat>, turns: seq<Turn>)
      ensures Ahead() == Stream(wire, turns) && sent == []
    {
      this.wire, this.turns, sent := wire, turns, [];
    }

    method Read(n: nat) returns (got: Got)
      modifies this
      ensures sent == old(sent) && (got, Ahead()) == Next(old(Ahead()), n)
    {
      if n == 0 {
        return Eof;
      }
      if turns == [] {
        return WouldBlock;
      }
      var t := turns[0];
      turns := turns[1..];
      if t.End? {
        return Eof;
      }
      var k := if t.Block? then 0 else Min(Min(t.most, n), |wire|);
      if k == 0 {
        return WouldBlock;
      }
      got := Bytes(wire[..k]);
      wire := wire[k..];
    }
  }

  // ---- the WebSocket

  // The number of bytes put into the buffer, the 0 of an end of stream, or an error.
  datatype Result = Put(n: nat) | Ended | Error(errno: Errno)

  // A result and the buffer say what the reply is.
  ghost predicate Says(r: Result, out: array<nat>, reply: Reply)
    reads out
  {
    match r
    case Put(n) => reply.Data? && n == |reply.bytes| <= out.Length && out[..n] == reply.bytes
    case Ended => reply == Zero
    case Error(errno) => reply == Failed(errno)
  }

  class WebSocket {
    const sock: Transport
    var phase: Phase
    var toRecv: nat
    var bufPos: nat
    var buf: seq<nat>
    var mask: seq<nat>
    var maskPos: nat
    var msgSz: nat
    var opts: nat
    var wsFlags: nat
    var lastFlags: nat

    ghost predicate Valid()
      reads this
    {
      |buf| == 6 && bufPos + toRecv <= 6 && Sound(State())
    }

    ghost function State(): Reader
      reads this
      requires bufPos <= |buf|
    {
      Reader(phase, toRecv, buf[..bufPos], mask, maskPos, msgSz, lastFlags)
    }

    // websocket_make_new
    constructor (sock: Transport)
      ensures Valid() && this.sock == sock && State() == START && opts == FRAME_TXT
    {
      this.sock := sock;
      phase, toRecv, maskPos, bufPos, opts := FrameHeader, 2, 0, 0, FRAME_TXT;
      buf, mask, msgSz, wsFlags, lastFlags := [0, 0, 0, 0, 0, 0], [0, 0, 0, 0], 0, 0, 0;
    }

    // One read of what is missing of a header; true when it is complete.
    method FillHeader() returns (full: bool, r: Result)
      requires Valid() && toRecv > 0
      modifies this, sock
      ensures phase == old(phase) && opts == old(opts) && lastFlags == old(lastFlags) && sock.sent == old(sock.sent)
      ensures |buf| == 6 && mask == old(mask) && maskPos == old(maskPos) && msgSz == old(msgSz)
      ensures var got, t := Next(old(sock.Ahead()), old(toRecv)).0, Next(old(sock.Ahead()), old(toRecv)).1;
              && sock.Ahead() == t && (full <==> got.Bytes? && |got.data| == old(toRecv))
              && (got.Bytes? ==>
                    && toRecv == old(toRecv) - |got.data| && bufPos == old(bufPos) + |got.data|
                    && bufPos + toRecv <= 6 && buf[..bufPos] == old(State().buf) + got.data)
              && (!got.Bytes? ==> Valid() && State() == old(State()))
              && (!full ==> r == if got.Eof? then Ended else Error(if got.Bytes? then EAGAIN else Transported))
    {
      hide Next, Sound;
      ghost var before := State();
      var got := sock.Read(toRecv);
      match got {
        case Eof => return false, Ended;
        case WouldBlock => return false, Error(Transported);
        case Bytes(data) =>
          buf := buf[..bufPos] + data + buf[bufPos + |data|..];
          bufPos := bufPos + |data|;
          toRecv := toRecv - |data|;
          assert buf[..bufPos] == before.buf + data;
          return toRecv == 0, Error(EAGAIN);
      }
    }

    // case FRAME_HEADER; false for a length of 127. The flags of every frame are kept, of control
    // frames too; only a continuation keeps the opcode before it.
    method OnHeader() returns (ok: bool)
      requires |buf| == 6 && bufPos == 2 && phase.FrameHeader? && toRecv == 0
      modifies this
      ensures opts == old(opts) && maskPos == old(maskPos)
      ensures ok <==> old(buf)[1] % 128 != 127
      ensures wsFlags % 16 == (if old(buf)[0] % 16 == FRAME_CONT then old(wsFlags) else old(buf)[0]) % 16
      ensures wsFlags / 16 == old(buf)[0] / 16
      ensures ok ==> |buf| == 6 && bufPos + toRecv <= 6
      ensures ok ==> State() == AfterHeader(old(State()), old(buf)[0], old(buf)[1])
      ensures !ok ==> |buf| == 6 && bufPos == 2 && State() == Stuck(old(State()), old(buf[..2]))
    {
      var frameType := buf[0] % 16;
      lastFlags := buf[0];
      if frameType == FRAME_CONT {
        wsFlags := wsFlags % 16 + buf[0] / 16 * 16;
      } else {
        wsFlags := buf[0];
      }
      mask := [0, 0, 0, 0];
      var extra := 0;
      var sz := buf[1] % 128;
      if sz == 126 {
        extra := extra + 2;
      } else if sz == 127 {
        return false;
      }
      if buf[1] / 128 % 2 == 1 {
        extra := extra + 4;
      }
      bufPos := 0;
      toRecv := extra;
      msgSz := sz;
      if extra != 0 {
        phase := FrameOpt;
      } else if frameType >= FRAME_CLOSE {
        phase := Control;
      } else {
        phase := Payload;
      }
      return true;
    }

    // case FRAME_OPT
    method OnOptions()
      requires |buf| == 6 && OptionSize(bufPos) && phase.FrameOpt? && toRecv == 0 && |mask| == 4
      modifies this
      ensures opts == old(opts) && |buf| == 6 && bufPos == 0 && toRecv == 0
      ensures State() == AfterOptions(old(State()), old(buf[..bufPos]))
    {
      if bufPos / 2 % 2 == 1 {
        msgSz := buf[0] * 256 + buf[1];
      }
      if bufPos / 4 % 2 == 1 {
        mask := buf[bufPos - 4..bufPos];
      }
      bufPos := 0;
      if lastFlags % 16 >= FRAME_CLOSE {
        phase := Control;
      } else {
        phase := Payload;
      }
    }

    // Unmasks what has been read, in place.
    method Unmask(out: array<nat>, n: nat)
      requires |mask| == 4 && n <= out.Length && maskPos < 256
      modifies out, this`maskPos
      ensures out[..n] == Masked(old(out[..n]), mask, old(maskPos)) && maskPos == (old(maskPos) + n) % 256
    {
      hide Xor;
      ghost var pos := maskPos;
      for p := 0 to n
        invariant maskPos == (pos + p) % 256
        invariant forall i :: 0 <= i < p ==> out[i] == Xor(old(out[i]), mask[(pos + i) % 4])
        invariant forall i :: p <= i < n ==> out[i] == old(out[i])
      {
        StillByte(pos, p);
        out[p] := Xor(out[p], mask[maskPos % 4]);
        maskPos := (maskPos + 1) % 256;
      }
    }

    // After a whole payload: true when there is nothing more to do in this call, which is
    // after a close frame.
    method FinishFrame() returns (closed: bool)
      requires Valid() && (phase.Payload? || phase.Control?) && msgSz == 0
      modifies this, sock`sent
      ensures Valid() && opts == old(opts) && State() == NextFrame(old(State()))
      ensures closed == Closing(old(State())) && sock.sent == old(sock.sent) + Answer(closed)
    {
      var lastPhase := phase;
      phase, toRecv, maskPos, bufPos := FrameHeader, 2, 0, 0;
      closed := lastPhase.Control? && lastFlags % 16 == FRAME_CLOSE;
      if closed {
        sock.sent := sock.sent + [0x88, 0];
      }
    }

    // case PAYLOAD and CONTROL with something to read: one read of the transport. Control bytes
    // are returned as data exactly when the next read of the transport, for what both the caller
    // and the frame have room for, gives some bytes but not the whole payload.
    method ReadBody(out: array<nat>, size: nat) returns (r: Result, done: bool)
      requires Valid() && (phase.Payload? || phase.Control?) && msgSz > 0 && size <= out.Length
      modifies this, sock, out
      ensures Valid() && opts == old(opts)
      ensures var u := BodyTurn(old(State()), old(sock.Ahead()), size);
              && State() == u.r && sock.Ahead() == u.t && sock.sent == old(sock.sent) + u.sent
              && done == u.done && (done ==> Says(r, out, u.reply))
      ensures done && r.Put? && phase.Control? <==>
              old(phase).Control?
              && var got := Next(old(sock.Ahead()), Min(size, old(msgSz))).0; got.Bytes? && |got.data| < old(msgSz)
    {
      hide Masked, Next;
      ghost var before, ahead := State(), sock.Ahead();
      var sz := if size < msgSz then size else msgSz;
      var got := sock.Read(sz);
      match got {
        case Eof => return Ended, true;
        case WouldBlock => return Error(Transported), true;
        case Bytes(data) =>
          var n := |data|;
          forall i | 0 <= i < n {
            out[i] := data[i];
          }
          assert out[..n] == data;
          Unmask(out, n);
          msgSz := msgSz - n;
          if msgSz != 0 {
            return Put(n), true;
          }
          var control := phase.Control?;
          var closed := FinishFrame();
          if control {
            return Ended, closed;
          }
          return Put(n), true;
      }
    }

    // One turn of the loop.
    method Turn(out: array<nat>, size: nat) returns (done: bool, r: Result)
      requires Valid() && size <= out.Length
      modifies this, sock, out
      ensures Valid() && opts == old(opts)
      ensures var u := TurnOf(old(State()), old(sock.Ahead()), size);
              && State() == u.r && sock.Ahead() == u.t && sock.sent == old(sock.sent) + u.sent
              && done == u.done && (done ==> Says(r, out, u.reply))
    {
      hide Next, BodyTurn;
      if toRecv != 0 {
        done, r := HeaderPart();
        return;
      }
      if phase.FrameHeader? {
        assert buf[..2] == State().buf;
        var ok := OnHeader();
        return true, Error(EIO);
      }
      if msgSz == 0 {
        var closed := FinishFrame();
        return closed, Ended;
      }
      r, done := ReadBody(out, size);
    }

    // The turn in which something of a header is missing.
    method HeaderPart() returns (done: bool, r: Result)
      requires Valid() && toRecv > 0
      modifies this, sock
      ensures Valid() && opts == old(opts) && !r.Put?
      ensures var u := HeaderTurn(old(State()), old(sock.Ahead()));
              && State() == u.r && sock.Ahead() == u.t && sock.sent == old(sock.sent) && u.sent == []
              && done == u.done && (done ==> u.reply == if r.Ended? then Zero else Failed(r.errno))
    {
      hide Next;
      var full;
      full, r := FillHeader();
      if !full {
        return true, r;
      }
      if phase.FrameHeader? {
        var ok := OnHeader();
        return !ok, Error(EIO);
      }
      OnOptions();
      return false, Error(EAGAIN);
    }

    // websocket_read
    method Read(out: array<nat>, size: nat) returns (r: Result)
      requires Valid() && size <= out.Length
      modifies this, sock, out
      ensures Valid() && opts == old(opts)
      ensures var u := ReadOf(old(State()), old(sock.Ahead()), size);
              State() == u.r && sock.Ahead() == u.t && sock.sent == old(sock.sent) + u.sent && Says(r, out, u.reply)
    {
      hide TurnOf, Sound;
      ghost var sent: seq<nat> := [];
      while true
        invariant Valid() && opts == old(opts) && sock.sent == old(sock.sent) + sent
        invariant var u := ReadOf(old(State()), old(sock.Ahead()), size);
                  var v := ReadOf(State(), sock.Ahead(), size);
                  u == v.(sent := sent + v.sent)
        decreases |sock.wire|, if toRecv == 0 then 1 else 0
      {
        ghost var u := TurnOf(State(), sock.Ahead(), size);
        TurnSound(State(), sock.Ahead(), size);
        var done;
        done, r := Turn(out, size);
        ghost var v := ReadOf(old(State()), old(sock.Ahead()), size);
        Regroup(sent, u.sent, if done then [] else ReadOf(State(), sock.Ahead(), size).sent);
        sent := sent + u.sent;
        if done {
          return;
        }
      }
    }

    // websocket_write on a transport that takes `room` more bytes before it fails: what is sent is
    // the frame, or its front when the write fails.
    method Write(data: seq<nat>, room: nat) returns (r: Result)
      modifies sock`sent
      ensures |data| >= 0x10000 ==> r == Error(ENOBUFS) && sock.sent == old(sock.sent)
      ensures |data| < 0x10000 ==>
                var f := Frame(0x80 + opts % 16, NoKey, |data| >= 126, data);
                && LegalFrame(f)
                && r == (if room >= |Wire([f])| then Put(|data|) else Error(Transported))
                && sock.sent == old(sock.sent) + Wire([f])[..Min(room, |Wire([f])|)]
    {
      hide Wire, Header, Options, Body;
      var size := |data|;
      if size >= 0x10000 {
        return Error(ENOBUFS);
      }
      var header := [0x80 + opts % 16];
      if size < 126 {
        header := header + [size];
      } else {
        header := header + [126, size / 256, size % 256];
      }
      ghost var f := Frame(0x80 + opts % 16, NoKey, size >= 126, data);
      WireOfOne(f);
      UnmaskedHeader(f);
      FrontOf(header, data, room);
      ghost var start := sock.sent;
      var taken := Min(room, |header|);
      sock.sent := sock.sent + header[..taken];
      if taken < |header| {
        return Error(Transported);
      }
      var more := Min(room - taken, size);
      sock.sent := sock.sent + data[..more];
      Regroup(start, header[..taken], data[..more]);
      return if more < size then Error(Transported) else Put(size);
    }
  }

  lemma UnmaskedHeader(f: Frame)
    requires LegalFrame(f) && f.mask.NoKey?
    ensures var n := |f.payload|;
            Header(f) + Options(f) == [f.flags] + if f.long then [126, n / 256, n % 256] else [n]
    ensures Body(f) == f.payload
  {
  }

  lemma FrontOf(header: seq<nat>, data: seq<nat>, room: nat)
    ensures var taken, all := Min(room, |header|), |header| + |data|;
            (header + data)[..Min(room, all)]
            == if taken < |header| then header[..taken] else header[..taken] + data[..Min(room - taken, |data|)]
  {
  }

  lemma WireOfOne(f: Frame)
    requires LegalFrame(f)
    ensures Wire([f]) == Header(f) + Options(f) + Body(f)
  {
    assert [f][1..] == [];
  }

  function Written(datas: seq<seq<nat>>, opts: nat): seq<Frame> {
    seq(|datas|, i requires 0 <= i < |datas| => Frame(0x80 + opts % 16, NoKey, |datas[i]| >= 126, datas[i]))
  }

  lemma {:induction false} WrittenPayloads(datas: seq<seq<nat>>, opts: nat)
    requires opts % 16 < FRAME_CLOSE
    ensures Payloads(Written(datas, opts)) == Concat(datas) && LongestControl(Written(datas, opts)) == 0
  {
    if datas != [] {
      assert Written(datas, opts)[1..] == Written(datas[1..], opts);
      WrittenPayloads(datas[1..], opts);
    }
  }

  predicate Sendable(datas: seq<seq<nat>>) {
    forall i :: 0 <= i < |datas| ==> |datas[i]| < 0x10000
  }

  // What was written with a data opcode is what reads return of it: without a leak, in order,
  // and in full once all of it has been read.
  lemma ReadUndoesWrite(datas: seq<seq<nat>>, opts: nat, turns: seq<Turn>, sizes: seq<nat>)
    requires opts % 16 < FRAME_CLOSE && Sendable(datas)
    ensures LegalFrames(Written(datas, opts))
    ensures var run := RunOf(START, Stream(Wire(Written(datas, opts)), turns), sizes);
            && !run.leaked && Concat(run.outs) <= Concat(datas)
            && (run.Finished() ==> Concat(run.outs) == Concat(datas))
  {
    hide RunOf, Wire, Payloads, LongestControl;
    WrittenPayloads(datas, opts);
    ReadingUndoesFraming(Written(datas, opts), turns, sizes);
  }

  lemma {:induction false} WireSnoc(frames: seq<Frame>, f: Frame)
    requires LegalFrames(frames) && LegalFrame(f)
    ensures LegalFrames(frames + [f]) && Wire(frames + [f]) == Wire(frames) + Wire([f])
  {
    hide Header, Options, Body, LegalFrame;
    if frames == [] {
      assert [] + [f] == [f];
    } else {
      assert (frames + [f])[1..] == frames[1..] + [f];
      WireSnoc(frames[1..], f);
      var g := frames[0];
      Regroup(Body(g), Wire(frames[1..]), Wire([f]));
      Regroup(Options(g), Body(g) + Wire(frames[1..]), Wire([f]));
      Regroup(Header(g), Options(g) + (Body(g) + Wire(frames[1..])), Wire([f]));
    }
  }

  // A program that writes several times.
  method WriteAll(ws: WebSocket, datas: seq<seq<nat>>)
    requires Sendable(datas)
    modifies ws.sock`sent
    ensures LegalFrames(Written(datas, ws.opts))
    ensures ws.sock.sent == old(ws.sock.sent) + Wire(Written(datas, ws.opts))
  {
    hide Wire;
    ghost var start := ws.sock.sent;
    NoFrames(ws.opts);
    for i := 0 to |datas|
      invariant LegalFrames(Written(datas[..i], ws.opts))
      invariant ws.sock.sent == start + Wire(Written(datas[..i], ws.opts))
    {
      var f := Frame(0x80 + ws.opts % 16, NoKey, |datas[i]| >= 126, datas[i]);
      assert Wire([f])[..|Wire([f])|] == Wire([f]);
      var r := ws.Write(datas[i], |Wire([f])|);
      assert Written(datas[..i + 1], ws.opts) == Written(datas[..i], ws.opts) + [f];
      WireSnoc(Written(datas[..i], ws.opts), f);
      Regroup(start, Wire(Written(datas[..i], ws.opts)), Wire([f]));
    }
    assert datas[..|datas|] == datas;
  }

  lemma NoFrames(opts: nat)
    ensures Written([], opts) == [] && Wire([]) == []
  {
  }

  // A program that reads several times.
  method ReadAll(ws: WebSocket, out: array<nat>, sizes: seq<nat>) returns (outs: seq<seq<nat>>)
    requires ws.Valid() && forall i :: 0 <= i < |sizes| ==> sizes[i] <= out.Length
    modifies ws, ws.sock, out
    ensures ws.Valid()
    ensures var run := RunOf(old(ws.State()), old(ws.sock.Ahead()), sizes);
            && outs == run.outs && ws.State() == run.r && ws.sock.Ahead() == run.t
            && ws.sock.sent == old(ws.sock.sent) + run.sent
  {
    hide ReadOf, Sound;
    outs := [];
    ghost var sent: seq<nat> := [];
    for i := 0 to |sizes|
      invariant ws.Valid() && ws.sock.sent == old(ws.sock.sent) + sent
      invariant var run := RunOf(old(ws.State()), old(ws.sock.Ahead()), sizes);
                var rest := RunOf(ws.State(), ws.sock.Ahead(), sizes[i..]);
                run.outs == outs + rest.outs && run.r == rest.r && run.t == rest.t && run.sent == sent + rest.sent
    {
      ghost var rest := RunOf(ws.State(), ws.sock.Ahead(), sizes[i..]);
      assert sizes[i..][0] == sizes[i] && sizes[i..][1..] == sizes[i + 1..];
      label before:
      var r := ws.Read(out, sizes[i]);
      var given := if r.Put? then out[..r.n] else [];
      ghost var more := RunOf(ws.State(), ws.sock.Ahead(), sizes[i + 1..]);
      ghost var answer := ReadOf(old@before(ws.State()), old@before(ws.sock.Ahead()), sizes[i]).sent;
      Regroup(outs, [given], more.outs);
      Regroup(sent, answer, more.sent);
      Regroup(old(ws.sock.sent), sent, answer);
      outs := outs + [given];
      sent := sent + answer;
    }
  }

  // One side writes and the other reads what was sent, over any transport and with any sizes.
  method Exchange(datas: seq<seq<nat>>, turns: seq<Turn>, sizes: seq<nat>, out: array<nat>)
    returns (outs: seq<seq<nat>>, all: bool)
    requires Sendable(datas) && forall i :: 0 <= i < |sizes| ==> sizes[i] <= out.Length
    modifies out
    ensures Concat(outs) <= Concat(datas)
    ensures all ==> Concat(outs) == Concat(datas)
    ensures LegalFrames(Written(datas, FRAME_TXT))
    ensures 0 !in sizes && |sizes| >= |turns| && Gives(turns) >= |Wire(Written(datas, FRAME_TXT))| ==> all
  {
    hide RunOf, Wire, Gives;
    var near := new Transport([], []);
    var writer := new WebSocket(near);
    WriteAll(writer, datas);
    assert [] + Wire(Written(datas, FRAME_TXT)) == Wire(Written(datas, FRAME_TXT));
    var far := new Transport(near.sent, turns);
    var reader := new WebSocket(far);
    outs := ReadAll(reader, out, sizes);
    all := far.wire == [] && reader.phase.FrameHeader? && reader.toRecv == 2;
    ReadUndoesWrite(datas, FRAME_TXT, turns, sizes);
    if 0 !in sizes && |sizes| >= |turns| && Gives(turns) >= |Wire(Written(datas, FRAME_TXT))| {
      RunFinishes(Written(datas, FRAME_TXT), turns, sizes);
    }
  }
}
