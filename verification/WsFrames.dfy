/**
  WebSocket frames (sections 5.2 and 5.3 of RFC 6455): their bytes on the wire, and what a reader
  in any of its states has still to deliver of a wire.
 */
module WsFrames {
  import opened Bits
  import opened Sequences

  const FRAME_CONT := 0
  const FRAME_TXT := 1
  const FRAME_CLOSE := 8

  // ---- masking

  function Masked(data: seq<nat>, mask: seq<nat>, pos: nat): (m: seq<nat>)
    requires |mask| == 4
    ensures |m| == |data|
  {
    seq(|data|, i requires 0 <= i < |data| => Xor(data[i], mask[(pos + i) % 4]))
  }

  lemma MaskedTwice(data: seq<nat>, mask: seq<nat>)
    requires |mask| == 4
    ensures Masked(Masked(data, mask, 0), mask, 0) == data
  {
    forall i | 0 <= i < |data| ensures Masked(Masked(data, mask, 0), mask, 0)[i] == data[i] {
      XorTwice(data[i], mask[i % 4]);
    }
  }

  lemma MaskedZero(data: seq<nat>)
    ensures Masked(data, [0, 0, 0, 0], 0) == data
  {
    forall i | 0 <= i < |data| ensures Masked(data, [0, 0, 0, 0], 0)[i] == data[i] {
      XorZero(data[i]);
    }
  }

  lemma MaskedSplit(data: seq<nat>, mask: seq<nat>, pos: nat, k: nat)
    requires |mask| == 4 && k <= |data|
    ensures Masked(data, mask, pos) == Masked(data[..k], mask, pos) + Masked(data[k..], mask, (pos + k) % 256)
  {
  }

  // ---- frames

  // The first header byte, the masking key if the frame is masked, whether the length is sent
  // in two more bytes, and the payload.
  datatype Frame = Frame(flags: nat, mask: Key, long: bool, payload: seq<nat>)

  datatype Key = NoKey | Key(bytes: seq<nat>)

  predicate LegalFrame(f: Frame) {
    && f.flags < 256 && (f.mask.Key? ==> |f.mask.bytes| == 4)
    && (if f.long then |f.payload| < 0x10000 else |f.payload| < 126)
  }

  predicate IsControl(flags: nat) {
    flags % 16 >= FRAME_CLOSE
  }

  function Header(f: Frame): (b: seq<nat>)
    requires LegalFrame(f)
    ensures |b| == 2
  {
    var n := |f.payload|;
    [f.flags, (if f.mask.Key? then 128 else 0) + (if f.long then 126 else n)]
  }

  function Options(f: Frame): seq<nat>
    requires LegalFrame(f)
  {
    (if f.long then [|f.payload| / 256, |f.payload| % 256] else [])
    + (if f.mask.Key? then f.mask.bytes else [])
  }

  function Body(f: Frame): seq<nat>
    requires LegalFrame(f)
  {
    if f.mask.Key? then Masked(f.payload, f.mask.bytes, 0) else f.payload
  }

  function Wire(frames: seq<Frame>): seq<nat>
    requires forall i :: 0 <= i < |frames| ==> LegalFrame(frames[i])
  {
    if frames == [] then []
    else Header(frames[0]) + (Options(frames[0]) + (Body(frames[0]) + Wire(frames[1..])))
  }

  // What the frames say: the payloads of the data frames.
  function Payloads(frames: seq<Frame>): seq<nat> {
    if frames == [] then []
    else (if IsControl(frames[0].flags) then [] else frames[0].payload) + Payloads(frames[1..])
  }

  // ---- the reader's state

  datatype Phase = FrameHeader | FrameOpt | Payload | Control

  datatype Reader = Reader(phase: Phase, toRecv: nat, buf: seq<nat>, mask: seq<nat>, maskPos: nat, msgSz: nat,
                           lastFlags: nat)

  predicate OptionSize(n: int) {
    n == 2 || n == 4 || n == 6
  }

  // `buf` is the filled part of the header buffer. A complete header is left only when its
  // length is 127.
  predicate Sound(r: Reader) {
    && |r.mask| == 4 && r.maskPos < 256
    && match r.phase
       case FrameHeader => |r.buf| + r.toRecv == 2 && (r.toRecv == 0 ==> r.buf[1] % 128 == 127)
       case FrameOpt => OptionSize(|r.buf| + r.toRecv) && r.toRecv > 0
       case Payload => r.toRecv == 0 && r.buf == []
       case Control => r.toRecv == 0 && r.buf == []
  }

  const START: Reader := Reader(FrameHeader, 2, [], [0, 0, 0, 0], 0, 0, 0)

  function BodyPhase(flags: nat): Phase {
    if IsControl(flags) then Control else Payload
  }

  // A complete two-byte header whose length is not 127.
  function AfterHeader(r: Reader, b0: nat, b1: nat): Reader {
    var sz := b1 % 128;
    var extra := (if sz == 126 then 2 else 0) + (if b1 / 128 % 2 == 1 then 4 else 0);
    Reader(if extra != 0 then FrameOpt else BodyPhase(b0), extra, [], [0, 0, 0, 0], r.maskPos, sz, b0)
  }

  // The complete optional part.
  function AfterOptions(r: Reader, b: seq<nat>): Reader
    requires OptionSize(|b|)
  {
    Reader(BodyPhase(r.lastFlags), 0, [],
           if |b| == 2 then r.mask else b[|b| - 4..], r.maskPos,
           if |b| == 4 then r.msgSz else 256 * b[0] + b[1], r.lastFlags)
  }

  function NextFrame(r: Reader): Reader {
    Reader(FrameHeader, 2, [], r.mask, 0, 0, r.lastFlags)
  }

  function IntoBody(r: Reader, k: nat): Reader
    requires k <= r.msgSz
  {
    r.(msgSz := r.msgSz - k, maskPos := (r.maskPos + k) % 256)
  }

  // ---- what is still to be delivered

  // What a wire read from a state with no interruption holds: the data bytes, the longest
  // payload of a control frame, or what is left of it, the number of close frames, and whether it
  // ends where a frame does. An incomplete frame delivers what there is of it; a length of 127 ends
  // everything.
  datatype Outlook = Outlook(bytes: seq<nat>, control: nat, closes: nat, complete: bool)

  function Max(a: nat, b: nat): nat {
    if a > b then a else b
  }

  function Before(data: seq<nat>, o: Outlook): Outlook {
    o.(bytes := data + o.bytes)
  }

  function Past(control: nat, o: Outlook): Outlook {
    o.(control := Max(control, o.control))
  }

  // The reader is in a close frame.
  predicate Closing(r: Reader) {
    r.phase.Control? && r.lastFlags % 16 == FRAME_CLOSE
  }

  function Ended(r: Reader, o: Outlook): Outlook {
    if Closing(r) then o.(closes := o.closes + 1) else o
  }

  function Rank(r: Reader): nat {
    if r.phase.FrameHeader? || r.phase.FrameOpt? then 0 else 1
  }

  function Cut(r: Reader, wire: seq<nat>): Outlook {
    Outlook([], 0, 0, r.phase.FrameHeader? && r.toRecv == 2 && wire == [])
  }

  function Decode(r: Reader, wire: seq<nat>): Outlook
    requires Sound(r)
    decreases |wire|, Rank(r)
  {
    if r.phase.FrameHeader? then
      if |wire| < r.toRecv || r.toRecv == 0 then Cut(r, wire)
      else
        var b := r.buf + wire[..r.toRecv];
        if b[1] % 128 == 127 then Outlook([], 0, 0, false)
        else Decode(AfterHeader(r, b[0], b[1]), wire[r.toRecv..])
    else if r.phase.FrameOpt? then
      if |wire| < r.toRecv then Cut(r, wire)
      else Decode(AfterOptions(r, r.buf + wire[..r.toRecv]), wire[r.toRecv..])
    else if r.msgSz == 0 then Ended(r, Decode(NextFrame(r), wire))
    else if r.phase.Control? then
      if |wire| < r.msgSz then Outlook([], r.msgSz, 0, false)
      else Past(r.msgSz, Ended(r, Decode(NextFrame(r), wire[r.msgSz..])))
    else if |wire| < r.msgSz then Outlook(Masked(wire, r.mask, r.maskPos), 0, 0, false)
    else Before(Masked(wire[..r.msgSz], r.mask, r.maskPos), Decode(NextFrame(r), wire[r.msgSz..]))
  }

  // Part of a header has come.
  function Filled(r: Reader, chunk: seq<nat>): Reader
    requires |chunk| <= r.toRecv
  {
    r.(buf := r.buf + chunk, toRecv := r.toRecv - |chunk|)
  }

  // The header, or its optional part, is complete.
  ghost function Complete(r: Reader, b: seq<nat>, rest: seq<nat>): Outlook
    requires |r.mask| == 4 && r.maskPos < 256
    requires (r.phase.FrameHeader? && |b| == 2) || (r.phase.FrameOpt? && OptionSize(|b|))
  {
    if r.phase.FrameOpt? then Decode(AfterOptions(r, b), rest)
    else if b[1] % 128 == 127 then Outlook([], 0, 0, false)
    else Decode(AfterHeader(r, b[0], b[1]), rest)
  }

  lemma DecodeHeader(r: Reader, wire: seq<nat>)
    requires Sound(r) && r.toRecv > 0
    ensures |wire| < r.toRecv ==> Decode(r, wire) == Cut(r, wire)
    ensures |wire| >= r.toRecv ==> Decode(r, wire) == Complete(r, r.buf + wire[..r.toRecv], wire[r.toRecv..])
  {
  }

  lemma CompleteAlike(r: Reader, r': Reader, b: seq<nat>, rest: seq<nat>)
    requires |r.mask| == 4 && r.maskPos < 256 && r' == r.(buf := r'.buf, toRecv := r'.toRecv)
    requires (r.phase.FrameHeader? && |b| == 2) || (r.phase.FrameOpt? && OptionSize(|b|))
    ensures Complete(r', b, rest) == Complete(r, b, rest)
  {
    hide Decode;
  }

  lemma SplitRead(buf: seq<nat>, wire: seq<nat>, n: nat, k: nat)
    requires k <= n <= |wire|
    ensures (buf + wire[..k]) + wire[k..][..n - k] == buf + wire[..n]
    ensures wire[k..][n - k..] == wire[n..]
  {
  }

  lemma FilledSound(r: Reader, chunk: seq<nat>)
    requires Sound(r) && |chunk| < r.toRecv
    ensures var r' := Filled(r, chunk);
            Sound(r') && r'.toRecv == r.toRecv - |chunk| && r'.buf == r.buf + chunk
  {
  }

  lemma PartOfHeader(r: Reader, wire: seq<nat>, k: nat)
    requires Sound(r) && r.toRecv > 0 && k < r.toRecv && k <= |wire|
    ensures Sound(Filled(r, wire[..k]))
    ensures Decode(Filled(r, wire[..k]), wire[k..]) == Decode(r, wire)
  {
    hide Decode, Complete;
    FilledSound(r, wire[..k]);
    DecodeHeader(r, wire);
    if |wire| >= r.toRecv {
      RestOfHeader(r, wire, k);
    } else {
      DecodeHeader(Filled(r, wire[..k]), wire[k..]);
    }
  }

  lemma RestOfHeader(r: Reader, wire: seq<nat>, k: nat)
    requires Sound(r) && r.toRecv > 0 && k < r.toRecv <= |wire| && Sound(Filled(r, wire[..k]))
    ensures Decode(Filled(r, wire[..k]), wire[k..]) == Complete(r, r.buf + wire[..r.toRecv], wire[r.toRecv..])
  {
    hide Decode, Complete;
    var r' := Filled(r, wire[..k]);
    SplitRead(r.buf, wire, r.toRecv, k);
    DecodeHeader(r', wire[k..]);
    CompleteAlike(r, r', r.buf + wire[..r.toRecv], wire[r.toRecv..]);
  }

  lemma DecodePayload(r: Reader, wire: seq<nat>)
    requires Sound(r) && r.phase.Payload? && r.msgSz > 0
    ensures |wire| < r.msgSz ==> Decode(r, wire) == Outlook(Masked(wire, r.mask, r.maskPos), 0, 0, false)
    ensures |wire| >= r.msgSz ==>
      Decode(r, wire) == Before(Masked(wire[..r.msgSz], r.mask, r.maskPos), Decode(NextFrame(r), wire[r.msgSz..]))
  {
    hide Masked;
  }

  // Part of a data payload has come.
  lemma PartOfPayload(r: Reader, wire: seq<nat>, k: nat)
    requires Sound(r) && r.phase.Payload? && k < r.msgSz && k <= |wire|
    ensures Sound(IntoBody(r, k))
    ensures Decode(r, wire) == Before(Masked(wire[..k], r.mask, r.maskPos), Decode(IntoBody(r, k), wire[k..]))
  {
    hide Masked, Decode;
    var r' := IntoBody(r, k);
    DecodePayload(r, wire);
    DecodePayload(r', wire[k..]);
    if |wire| < r.msgSz {
      MaskedSplit(wire, r.mask, r.maskPos, k);
    } else {
      WholeInParts(r, wire, k);
      var tail := Decode(NextFrame(r), wire[r.msgSz..]);
      Regroup(Masked(wire[..k], r.mask, r.maskPos), Masked(wire[k..][..r'.msgSz], r.mask, r'.maskPos), tail.bytes);
    }
  }

  lemma WholeInParts(r: Reader, wire: seq<nat>, k: nat)
    requires |r.mask| == 4 && k < r.msgSz <= |wire|
    ensures var r' := IntoBody(r, k);
            && Masked(wire[..r.msgSz], r.mask, r.maskPos)
               == Masked(wire[..k], r.mask, r.maskPos) + Masked(wire[k..][..r'.msgSz], r.mask, r'.maskPos)
            && wire[k..][r'.msgSz..] == wire[r.msgSz..]
  {
    hide Masked;
    MaskedSplit(wire[..r.msgSz], r.mask, r.maskPos, k);
    assert wire[..r.msgSz][..k] == wire[..k];
    assert wire[..r.msgSz][k..] == wire[k..][..r.msgSz - k];
  }

  // Part of a control payload has come: nothing of it is to be delivered.
  lemma PartOfControl(r: Reader, wire: seq<nat>, k: nat)
    requires Sound(r) && r.phase.Control? && k < r.msgSz && k <= |wire|
    ensures Sound(IntoBody(r, k))
    ensures var o, o' := Decode(r, wire), Decode(IntoBody(r, k), wire[k..]);
            && o.bytes == o'.bytes && o.closes == o'.closes && o.complete == o'.complete
            && r.msgSz <= o.control && o'.control <= o.control
            && (o.complete ==> r.msgSz <= |wire|)
  {
    var r' := IntoBody(r, k);
    if |wire| >= r.msgSz {
      assert wire[k..][r'.msgSz..] == wire[r.msgSz..];
    }
  }

  // ---- decoding undoes framing

  lemma HeaderBits(f: Frame)
    requires LegalFrame(f)
    ensures Header(f)[1] % 128 != 127
  {
  }

  lemma AfterHeaderSound(r: Reader, b0: nat, b1: nat)
    requires r.maskPos < 256
    ensures Sound(AfterHeader(r, b0, b1))
  {
  }

  lemma HeaderRead(r: Reader, f: Frame, tail: seq<nat>)
    requires LegalFrame(f) && Sound(r) && r.phase.FrameHeader? && r.toRecv == 2
    ensures Sound(AfterHeader(r, Header(f)[0], Header(f)[1]))
    ensures Decode(r, Header(f) + tail) == Decode(AfterHeader(r, Header(f)[0], Header(f)[1]), tail)
  {
    hide Decode, Header, AfterHeader, LegalFrame;
    var header := Header(f);
    var wire := header + tail;
    AfterHeaderSound(r, header[0], header[1]);
    HeaderBits(f);
    DecodeHeader(r, wire);
    assert r.buf + wire[..2] == header;
    assert wire[2..] == tail;
  }

  ghost function AtBody(r: Reader, f: Frame): Reader
    requires LegalFrame(f)
  {
    Reader(BodyPhase(f.flags), 0, [], if f.mask.Key? then f.mask.bytes else [0, 0, 0, 0], r.maskPos,
           |f.payload|, f.flags)
  }

  // The header announces the options, and the options lead to the body.
  lemma OptionsGive(r: Reader, f: Frame)
    requires LegalFrame(f) && r.maskPos < 256
    ensures var h := AfterHeader(r, Header(f)[0], Header(f)[1]);
            && Sound(h)
            && (if f.long || f.mask.Key? then
                  h.phase.FrameOpt? && h.toRecv == |Options(f)| && h.buf == [] && OptionSize(|Options(f)|)
                  && AfterOptions(h, Options(f)) == AtBody(r, f)
                else Options(f) == [] && h == AtBody(r, f))
  {
  }

  lemma OptionsRead(r: Reader, f: Frame, tail: seq<nat>)
    requires LegalFrame(f) && r.maskPos < 256 && Sound(AfterHeader(r, Header(f)[0], Header(f)[1]))
    ensures Decode(AfterHeader(r, Header(f)[0], Header(f)[1]), Options(f) + tail) == Decode(AtBody(r, f), tail)
  {
    hide Decode, Header, Options, AfterHeader, AfterOptions, AtBody, LegalFrame;
    OptionsGive(r, f);
    var h := AfterHeader(r, Header(f)[0], Header(f)[1]);
    var wire := Options(f) + tail;
    if f.long || f.mask.Key? {
      DecodeHeader(h, wire);
      assert h.buf + wire[..h.toRecv] == Options(f);
      assert wire[h.toRecv..] == tail;
    } else {
      assert wire == tail;
    }
  }

  // What a body adds to what follows it.
  ghost function WithBody(f: Frame, o: Outlook): Outlook {
    if !IsControl(f.flags) then Before(f.payload, o)
    else Past(|f.payload|, if f.flags % 16 == FRAME_CLOSE then o.(closes := o.closes + 1) else o)
  }

  lemma BodyRead(r: Reader, f: Frame, tail: seq<nat>)
    requires LegalFrame(f) && r.maskPos == 0
    ensures Decode(AtBody(r, f), Body(f) + tail) == WithBody(f, Decode(NextFrame(AtBody(r, f)), tail))
  {
    hide Decode, Masked;
    var b := AtBody(r, f);
    var wire := Body(f) + tail;
    SameLength(f);
    if f.payload == [] {
      assert wire == tail;
      EmptyBody(b, wire);
      var o := Decode(NextFrame(b), tail);
      assert [] + o.bytes == o.bytes;
    } else if IsControl(f.flags) {
      WholeControl(b, Body(f), tail);
    } else {
      WholePayload(b, Body(f), tail);
      assert Masked(Body(f), b.mask, 0) == f.payload by {
        if f.mask.Key? {
          MaskedTwice(f.payload, f.mask.bytes);
        } else {
          MaskedZero(f.payload);
        }
      }
    }
  }

  lemma SameLength(f: Frame)
    requires LegalFrame(f)
    ensures |Body(f)| == |f.payload|
  {
  }

  lemma EmptyBody(r: Reader, wire: seq<nat>)
    requires Sound(r) && (r.phase.Payload? || r.phase.Control?) && r.msgSz == 0
    ensures Decode(r, wire) == Ended(r, Decode(NextFrame(r), wire))
  {
  }

  lemma WholePayload(r: Reader, body: seq<nat>, tail: seq<nat>)
    requires Sound(r) && r.phase.Payload? && r.msgSz == |body| > 0
    ensures Decode(r, body + tail) == Before(Masked(body, r.mask, r.maskPos), Decode(NextFrame(r), tail))
  {
    assert (body + tail)[..r.msgSz] == body;
    assert (body + tail)[r.msgSz..] == tail;
  }

  lemma WholeControl(r: Reader, body: seq<nat>, tail: seq<nat>)
    requires Sound(r) && r.phase.Control? && r.msgSz == |body| > 0
    ensures Decode(r, body + tail) == Past(|body|, Ended(r, Decode(NextFrame(r), tail)))
  {
    assert (body + tail)[r.msgSz..] == tail;
  }

  ghost predicate LegalFrames(frames: seq<Frame>) {
    forall i :: 0 <= i < |frames| ==> LegalFrame(frames[i])
  }

  // The longest payload of a control frame.
  function LongestControl(frames: seq<Frame>): nat {
    if frames == [] then 0
    else Max(if IsControl(frames[0].flags) then |frames[0].payload| else 0, LongestControl(frames[1..]))
  }

  // How many of the frames are close frames, of opcode 8.
  function CloseFrames(frames: seq<Frame>): nat {
    if frames == [] then 0 else (if frames[0].flags % 16 == 8 then 1 else 0) + CloseFrames(frames[1..])
  }

  lemma {:induction false} LongestBounds(frames: seq<Frame>, n: nat)
    ensures LongestControl(frames) <= n <==> forall f :: f in frames && IsControl(f.flags) ==> |f.payload| <= n
  {
    if frames != [] {
      LongestBounds(frames[1..], n);
      assert frames == [frames[0]] + frames[1..];
    }
  }

  // What a reader at the start of a frame has to deliver of framed data is that data, whatever
  // control frames are among it.
  lemma {:induction false} DecodeInvertsFraming(r: Reader, frames: seq<Frame>)
    requires LegalFrames(frames)
    requires Sound(r) && r.phase.FrameHeader? && r.toRecv == 2 && r.maskPos == 0
    ensures Decode(r, Wire(frames)) == Outlook(Payloads(frames), LongestControl(frames), CloseFrames(frames), true)
    decreases |frames|
  {
    hide Decode, Header, Options, Body, Sound, AfterHeader, Masked;
    if frames == [] {
      NothingToDecode(r);
    } else {
      var f := frames[0];
      var tail := Wire(frames[1..]);
      HeaderRead(r, f, Options(f) + (Body(f) + tail));
      OptionsRead(r, f, Body(f) + tail);
      BodyRead(r, f, tail);
      NextIsSound(r, f);
      DecodeInvertsFraming(NextFrame(AtBody(r, f)), frames[1..]);
    }
  }

  lemma NothingToDecode(r: Reader)
    requires Sound(r)
    ensures Decode(r, []).bytes == []
    ensures r.phase.FrameHeader? && r.toRecv == 2 ==> Decode(r, []) == Outlook([], 0, 0, true)
  {
  }

  lemma StillByte(pos: nat, p: nat)
    ensures (pos + p) % 256 % 4 == (pos + p) % 4 && ((pos + p) % 256 + 1) % 256 == (pos + p + 1) % 256
  {
  }

  lemma NextIsSound(r: Reader, f: Frame)
    requires LegalFrame(f)
    ensures Sound(NextFrame(AtBody(r, f)))
  {
  }

  // ---- a frame as section 5.2 of RFC 6455 draws it

  // The first n bytes of a key repeated in the order in which it is sent.
  function KeyStream(key: seq<nat>, n: nat): (s: seq<nat>)
    requires |key| == 4
    ensures |s| == n
  {
    if n <= 4 then key[..n] else key + KeyStream(key, n - 4)
  }

  lemma {:induction false} KeyStreamAt(key: seq<nat>, n: nat, i: nat)
    requires |key| == 4 && i < n
    ensures KeyStream(key, n)[i] == key[i % 4]
  {
    if n > 4 && i >= 4 {
      KeyStreamAt(key, n - 4, i - 4);
    }
  }

  lemma MaskedByStream(data: seq<nat>, key: seq<nat>)
    requires |key| == 4
    ensures forall i :: 0 <= i < |data| ==> Masked(data, key, 0)[i] == Xor(data[i], KeyStream(key, |data|)[i])
  {
    forall i | 0 <= i < |data| ensures Masked(data, key, 0)[i] == Xor(data[i], KeyStream(key, |data|)[i]) {
      KeyStreamAt(key, |data|, i);
    }
  }

  // Masking zeros shows the key stream.
  lemma MaskedZeros(key: seq<nat>, n: nat)
    requires |key| == 4
    ensures Masked(seq(n, _ => 0), key, 0) == KeyStream(key, n)
  {
    var zeros := seq(n, _ => 0);
    forall i | 0 <= i < n ensures Masked(zeros, key, 0)[i] == KeyStream(key, n)[i] {
      KeyStreamAt(key, n, i);
      XorZero(key[i % 4]);
      XorSwap(0, key[i % 4]);
    }
  }

  lemma {:induction false} XorSwap(a: nat, b: nat)
    ensures Xor(a, b) == Xor(b, a)
  {
    if a != 0 || b != 0 {
      XorSwap(a / 2, b / 2);
    }
  }

  function LengthBytes(f: Frame): nat {
    if f.long then 2 else 0
  }

  function KeyBytes(f: Frame): nat {
    if f.mask.Key? then 4 else 0
  }

  // These bytes are the frame: the flags; the mask bit, above a length of 7 bits or the 126 that
  // announces one of 16 bits, its high byte first; the key; the payload, each byte exclusively or-ed
  // with the next of the repeated key.
  predicate OnWire(b: seq<nat>, f: Frame)
    requires f.mask.Key? ==> |f.mask.bytes| == 4
  {
    var n, key := |f.payload|, 2 + LengthBytes(f);
    var body := key + KeyBytes(f);
    && |b| == body + n
    && b[0] == f.flags
    && b[1] == (if f.mask.Key? then 0x80 else 0) + (if f.long then 126 else n)
    && (f.long ==> b[2] * 256 + b[3] == n && b[3] < 256)
    && (f.mask.Key? ==> b[key..body] == f.mask.bytes)
    && forall i: nat :: i < n ==>
         b[body + i] == BodyByte(f, i)
  }

  function BodyByte(f: Frame, i: nat): nat
    requires (f.mask.Key? ==> |f.mask.bytes| == 4) && i < |f.payload|
  {
    if f.mask.Key? then Xor(f.payload[i], KeyStream(f.mask.bytes, |f.payload|)[i]) else f.payload[i]
  }

  // The bytes of a frame are those, and no others are.
  lemma FrameOnWire(f: Frame, b: seq<nat>)
    requires LegalFrame(f)
    ensures OnWire(b, f) <==> b == Header(f) + (Options(f) + Body(f))
  {
    hide Masked, Xor, KeyStream;
    SameLength(f);
    if f.mask.Key? {
      MaskedByStream(f.payload, f.mask.bytes);
    }
    var w := Header(f) + (Options(f) + Body(f));
    var key := 2 + LengthBytes(f);
    var body := key + KeyBytes(f);
    assert |w| == body + |f.payload|;
    assert forall i :: 0 <= i < |f.payload| ==> w[body + i] == Body(f)[i];
    assert f.mask.Key? ==> w[key..body] == f.mask.bytes;
    if OnWire(b, f) {
      SameBytes(f, b, w);
    }
  }

  lemma SameBytes(f: Frame, b: seq<nat>, w: seq<nat>)
    requires LegalFrame(f) && OnWire(b, f) && OnWire(w, f)
    ensures b == w
  {
    hide KeyStream, Xor;
    var key := 2 + LengthBytes(f);
    var body := key + KeyBytes(f);
    forall i | 0 <= i < |b| ensures b[i] == w[i] {
      if body <= i {
        assert b[body + (i - body)] == BodyByte(f, i - body) == w[body + (i - body)];
      } else if key <= i {
        assert b[key..body][i - key] == w[key..body][i - key];
      }
    }
  }

  // Reading undoes the drawing: whatever bytes are those of the frames, the reader has to deliver
  // their payloads.
  lemma {:induction false} DecodeReadsDrawing(r: Reader, frames: seq<Frame>, drawn: seq<seq<nat>>)
    requires LegalFrames(frames) && |drawn| == |frames| && forall i :: 0 <= i < |frames| ==> OnWire(drawn[i], frames[i])
    requires Sound(r) && r.phase.FrameHeader? && r.toRecv == 2 && r.maskPos == 0
    ensures Decode(r, Concat(drawn)) == Outlook(Payloads(frames), LongestControl(frames), CloseFrames(frames), true)
  {
    hide Decode, Payloads, Sound, OnWire;
    WireIsDrawn(frames, drawn);
    DecodeInvertsFraming(r, frames);
  }

  lemma {:induction false} WireIsDrawn(frames: seq<Frame>, drawn: seq<seq<nat>>)
    requires LegalFrames(frames) && |drawn| == |frames| && forall i :: 0 <= i < |frames| ==> OnWire(drawn[i], frames[i])
    ensures Concat(drawn) == Wire(frames)
    decreases |frames|
  {
    hide Header, Options, Body, LegalFrame, OnWire;
    if frames != [] {
      var f := frames[0];
      FrameOnWire(f, drawn[0]);
      WireIsDrawn(frames[1..], drawn[1..]);
      Regroup(Options(f), Body(f), Wire(frames[1..]));
      Regroup(Header(f), Options(f) + Body(f), Wire(frames[1..]));
    }
  }

  // The opcodes of control frames are those whose highest bit is set.
  lemma ControlOpcodes(flags: nat)
    ensures IsControl(flags) <==> Bit(flags, 3)
  {
    var a := flags / 2;
    var b := a / 2;
    assert Bit(flags, 3) == Bit(a, 2) && Bit(a, 2) == Bit(b, 1) && Bit(b, 1) == Bit(b / 2, 0);
    assert b / 2 == flags / 8;
  }

  // One word from a client.
  lemma HiFromClient()
    ensures Decode(START, [0x81, 0x82, 1, 2, 3, 4, 0x49, 0x6b]) == Outlook([0x48, 0x69], 0, 0, true)
  {
    hide Decode;
    var f := Frame(0x81, Key([1, 2, 3, 4]), false, [0x48, 0x69]);
    var b := [0x81, 0x82, 1, 2, 3, 4, 0x49, 0x6b];
    assert KeyStream([1, 2, 3, 4], 2) == [1, 2];
    assert OnWire(b, f) by {
      assert b[2..6] == [1, 2, 3, 4];
      SmallXors();
    }
    DecodeReadsDrawing(START, [f], [b]);
    assert Concat([b]) == b by { assert [b][1..] == []; }
    assert Payloads([f]) == f.payload && LongestControl([f]) == 0 && CloseFrames([f]) == 0 by {
      assert [f][1..] == [];
    }
  }

  lemma SmallXors()
    ensures Xor(0x48, 1) == 0x49 && Xor(0x69, 2) == 0x6b
  {
    XorZero(0x24);
    XorZero(0x1a);
    assert Xor(0x48, 1) == 2 * Xor(0x24, 0) + 1;
    assert Xor(0x69, 2) == 2 * Xor(0x34, 1) + 1 && Xor(0x34, 1) == 2 * Xor(0x1a, 0) + 1;
  }
}
