/**
  Every JSON text of RFC 4627, as a tree of its grammar with all its whitespace and escapes,
  and the theorem that the reader inverts the printing of it.
 */
module JsonRoundTrip {
  import opened JsonValue
  import opened JsonReader
  import opened Wrappers

  // ---- the grammar of section 2 of RFC 4627

  // One item between the quotes of a string: an unescaped character, a two-character escape,
  // a \u escape, or the pair of \u escapes that stands for a character above U+FFFF.
  datatype Item = Raw(cp: nat) | Short(letter: char) | Hex(digits: string) | Pair(high: string, low: string)

  // A text: numbers keep their sign and magnitude, or their characters if they have a
  // fraction or an exponent; whitespace is kept everywhere it may stand.
  datatype Doc =
    | NullDoc
    | BoolDoc(b: bool)
    | IntDoc(negative: bool, magnitude: nat)
    | FloatDoc(text: string)
    | StrDoc(items: seq<Item>)
    | ArrayDoc(ws: string, elems: Elems)
    | ObjectDoc(ws: string, members: Members)

  datatype Elems = NoElem | Elem(pre: string, doc: Doc, post: string, more: Elems)

  datatype Members =
    | NoMember
    | Member(pre: string, key: seq<Item>, beforeColon: string, afterColon: string, doc: Doc, post: string,
             more: Members)

  predicate IsHex(c: char) {
    IsDigit(c) || 'a' <= c <= 'f' || 'A' <= c <= 'F'
  }

  function HexValue(c: char): (v: nat)
    requires IsHex(c)
    ensures v < 16
  {
    if IsDigit(c) then c as int - '0' as int
    else if 'a' <= c then c as int - 'a' as int + 10
    else c as int - 'A' as int + 10
  }

  predicate IsFourHex(h: string) {
    |h| == 4 && IsHex(h[0]) && IsHex(h[1]) && IsHex(h[2]) && IsHex(h[3])
  }

  function FourHex(h: string): (v: nat)
    requires IsFourHex(h)
    ensures v < 0x10000
  {
    4096 * HexValue(h[0]) + 256 * HexValue(h[1]) + 16 * HexValue(h[2]) + HexValue(h[3])
  }

  predicate LegalItem(it: Item) {
    match it
    case Raw(cp) => 0x20 <= cp < 0x110000 && cp != 0x22 && cp != 0x5c && !(0xD800 <= cp < 0xE000)
    case Short(e) => e in "\"\\/bfnrt"
    case Hex(h) => IsFourHex(h) && !(0xD800 <= FourHex(h) < 0xE000)
    case Pair(h, l) =>
      IsFourHex(h) && IsFourHex(l) && 0xD800 <= FourHex(h) < 0xDC00 && 0xDC00 <= FourHex(l) < 0xE000
  }

  predicate LegalItems(items: seq<Item>) {
    forall i :: 0 <= i < |items| ==> LegalItem(items[i])
  }

  predicate IsWs(ws: string) {
    forall i :: 0 <= i < |ws| ==> ws[i] in " \t\n\r"
  }

  predicate LegalFloat(text: string, pf: string -> Option<real>) {
    && text != "" && (text[0] == '-' || IsDigit(text[0]))
    && (forall i :: 0 <= i < |text| ==> IsNumberChar(text[i]))
    && HasFloatChar(text[1..])
    && pf(text).Some?
  }

  predicate Legal(d: Doc, pf: string -> Option<real>) {
    match d
    case NullDoc => true
    case BoolDoc(_) => true
    case IntDoc(_, _) => true
    case FloatDoc(text) => LegalFloat(text, pf)
    case StrDoc(items) => LegalItems(items)
    case ArrayDoc(ws, elems) => IsWs(ws) && LegalElems(elems, pf)
    case ObjectDoc(ws, members) => IsWs(ws) && LegalMembers(members, pf)
  }

  predicate LegalElems(e: Elems, pf: string -> Option<real>) {
    e.Elem? ==> IsWs(e.pre) && Legal(e.doc, pf) && IsWs(e.post) && LegalElems(e.more, pf)
  }

  predicate LegalMembers(m: Members, pf: string -> Option<real>) {
    m.Member? ==>
      && IsWs(m.pre) && LegalItems(m.key) && IsWs(m.beforeColon) && IsWs(m.afterColon)
      && Legal(m.doc, pf) && IsWs(m.post) && LegalMembers(m.more, pf)
  }

  // ---- printing: each function gives the text of its argument followed by `tail`

  function ItemText(it: Item, tail: string): string
    requires LegalItem(it)
  {
    match it
    case Raw(cp) => Utf8(cp) + tail
    case Short(e) => ['\\', e] + tail
    case Hex(h) => "\\u" + (h + tail)
    case Pair(h, l) => "\\u" + (h + ("\\u" + (l + tail)))
  }

  function ItemsText(items: seq<Item>, tail: string): string
    requires LegalItems(items)
  {
    if items == [] then tail else ItemText(items[0], ItemsText(items[1..], tail))
  }

  function StringText(items: seq<Item>, tail: string): string
    requires LegalItems(items)
  {
    "\"" + ItemsText(items, "\"" + tail)
  }

  function Text(d: Doc, tail: string, pf: string -> Option<real>): string
    requires Legal(d, pf)
  {
    match d
    case NullDoc => "null" + tail
    case BoolDoc(b) => (if b then "true" else "false") + tail
    case IntDoc(neg, mag) => ((if neg then "-" else "") + PrintNat(mag)) + tail
    case FloatDoc(text) => text + tail
    case StrDoc(items) => StringText(items, tail)
    case ArrayDoc(ws, elems) => "[" + (ws + ElemsText(elems, "", "]" + tail, pf))
    case ObjectDoc(ws, members) => "{" + (ws + MembersText(members, "", "}" + tail, pf))
  }

  function ElemsText(e: Elems, sep: string, tail: string, pf: string -> Option<real>): string
    requires LegalElems(e, pf)
  {
    if e.NoElem? then tail
    else sep + (e.pre + Text(e.doc, e.post + ElemsText(e.more, ",", tail, pf), pf))
  }

  function MembersText(m: Members, sep: string, tail: string, pf: string -> Option<real>): string
    requires LegalMembers(m, pf)
  {
    if m.NoMember? then tail
    else
      var value := Text(m.doc, m.post + MembersText(m.more, ",", tail, pf), pf);
      sep + (m.pre + StringText(m.key, m.beforeColon + (":" + (m.afterColon + value))))
  }

  // ---- meaning

  function ShortMeaning(e: char): nat {
    match e
    case 'b' => 8
    case 'f' => 12
    case 'n' => 10
    case 'r' => 13
    case 't' => 9
    case _ => e as int
  }

  // The bytes of the character an item stands for in the RFC.
  function ItemBytes(it: Item): string
    requires LegalItem(it)
  {
    match it
    case Raw(cp) => Utf8(cp)
    case Short(e) => Utf8(ShortMeaning(e))
    case Hex(h) => Utf8(FourHex(h))
    case Pair(h, l) => Utf8(0x10000 + 0x400 * (FourHex(h) - 0xD800) + (FourHex(l) - 0xDC00))
  }

  function StringBytes(items: seq<Item>): string
    requires LegalItems(items)
  {
    if items == [] then "" else ItemBytes(items[0]) + StringBytes(items[1..])
  }

  // The bytes the reader stores: each half of a surrogate pair is encoded on its own.
  function ReadItemBytes(it: Item): string
    requires LegalItem(it)
  {
    if it.Pair? then Utf8(FourHex(it.high)) + Utf8(FourHex(it.low)) else ItemBytes(it)
  }

  function ReadStringBytes(items: seq<Item>): string
    requires LegalItems(items)
  {
    if items == [] then "" else ReadItemBytes(items[0]) + ReadStringBytes(items[1..])
  }

  // The tree a text denotes.
  function Denotes(d: Doc, pf: string -> Option<real>): Value
    requires Legal(d, pf)
  {
    match d
    case NullDoc => Null
    case BoolDoc(b) => Bool(b)
    case IntDoc(neg, mag) => Int(if neg then -(mag as int) else mag)
    case FloatDoc(text) => Float(pf(text).value)
    case StrDoc(items) => Str(StringBytes(items))
    case ArrayDoc(_, elems) => List(ElemsDenote(elems, pf))
    case ObjectDoc(_, members) => Dict(MembersDenote(members, pf))
  }

  function ElemsDenote(e: Elems, pf: string -> Option<real>): seq<Value>
    requires LegalElems(e, pf)
  {
    if e.NoElem? then [] else [Denotes(e.doc, pf)] + ElemsDenote(e.more, pf)
  }

  function MembersDenote(m: Members, pf: string -> Option<real>): seq<Entry>
    requires LegalMembers(m, pf)
  {
    if m.NoMember? then []
    else [Entry(Str(StringBytes(m.key)), Denotes(m.doc, pf))] + MembersDenote(m.more, pf)
  }

  // The tree the reader builds: string bytes as it stores them, and each member assigned
  // into the dict in turn.
  function ReadsAs(d: Doc, pf: string -> Option<real>): Value
    requires Legal(d, pf)
  {
    match d
    case StrDoc(items) => Str(ReadStringBytes(items))
    case ArrayDoc(_, elems) => List(ElemsReadAs(elems, pf))
    case ObjectDoc(_, members) => Dict(MembersReadAs(members, [], pf))
    case _ => Denotes(d, pf)
  }

  function ElemsReadAs(e: Elems, pf: string -> Option<real>): seq<Value>
    requires LegalElems(e, pf)
  {
    if e.NoElem? then [] else [ReadsAs(e.doc, pf)] + ElemsReadAs(e.more, pf)
  }

  function MembersReadAs(m: Members, entries: seq<Entry>, pf: string -> Option<real>): seq<Entry>
    requires LegalMembers(m, pf)
  {
    if m.NoMember? then entries
    else MembersReadAs(m.more, DictStore(entries, Str(ReadStringBytes(m.key)), ReadsAs(m.doc, pf)), pf)
  }

  // ---- the reader on strings

  lemma {:induction false} PlainBytes(u: string, tail: string, acc: string)
    requires forall i :: 0 <= i < |u| ==> u[i] != '"' && u[i] != '\\' && u[i] != '\0'
    ensures StringBody(u + tail, acc) == StringBody(tail, acc + u)
  {
    if u == "" {
      assert u + tail == tail && acc + u == acc;
    } else {
      assert (u + tail)[1..] == u[1..] + tail;
      assert acc + [u[0]] + u[1..] == acc + u;
      PlainBytes(u[1..], tail, acc + [u[0]]);
    }
  }

  lemma {:induction false} BitOrAdds(n: nat, d: nat, m: nat)
    requires m in {1, 2, 4, 8, 16} && d < m
    ensures BitOr(m * n, d) == m * n + d
    decreases m
  {
    if m > 1 {
      assert (m * n) / 2 == (m / 2) * n && (m * n) % 2 == 0;
      BitOrAdds(n, d / 2, m / 2);
    }
  }

  lemma HexDigitReads(c: char)
    requires IsHex(c)
    ensures HexDigit(c) == HexValue(c)
  {
  }

  lemma HexDigitAdds(num: nat, c: char)
    requires IsHex(c)
    ensures AddHexDigit(num, c) == 16 * num + HexValue(c)
  {
    hide BitOr, HexDigit, HexValue;
    HexDigitReads(c);
    BitOrAdds(num, HexValue(c), 16);
  }

  lemma HexEscapeValue(h: string, tail: string)
    requires IsFourHex(h)
    ensures HexEscape("u" + (h + tail)) == FourHex(h)
  {
    hide AddHexDigit, HexValue;
    var r := "u" + (h + tail);
    var r1 := Adv(r);
    assert r1 == h + tail;
    assert Cur(r1) == h[0];
    assert Cur(Adv(r1)) == h[1];
    assert Cur(Adv(Adv(r1))) == h[2];
    assert Cur(Adv(Adv(Adv(r1)))) == h[3];
    HexDigitAdds(0, h[0]);
    HexDigitAdds(HexValue(h[0]), h[1]);
    HexDigitAdds(16 * HexValue(h[0]) + HexValue(h[1]), h[2]);
    HexDigitAdds(256 * HexValue(h[0]) + 16 * HexValue(h[1]) + HexValue(h[2]), h[3]);
  }

  lemma OneHex(h: string, tail: string, acc: string)
    requires IsFourHex(h)
    ensures StringBody("\\u" + (h + tail), acc) == StringBody(tail, acc + Utf8(FourHex(h)))
  {
    var rest := "\\u" + (h + tail);
    var r := "u" + (h + tail);
    assert rest[0] == '\\' && Adv(rest) == r;
    HexEscapeValue(h, tail);
    assert Adv(r) == h + tail;
    assert (h + tail)[1..][1..][1..][1..] == tail;
    assert StringStep(rest) == (Utf8(FourHex(h)), tail);
  }

  lemma OneShort(e: char, tail: string, acc: string)
    requires LegalItem(Short(e))
    ensures StringBody(ItemText(Short(e), tail), acc) == StringBody(tail, acc + ReadItemBytes(Short(e)))
  {
    var rest := ['\\', e] + tail;
    assert Adv(rest) == [e] + tail && Adv(Adv(rest)) == tail;
    assert StringStep(rest) == ([UnescapeShort(e)], tail);
    assert [UnescapeShort(e)] == Utf8(ShortMeaning(e));
  }

  lemma OneItem(it: Item, tail: string, acc: string)
    requires LegalItem(it)
    ensures StringBody(ItemText(it, tail), acc) == StringBody(tail, acc + ReadItemBytes(it))
  {
    hide StringBody;
    match it {
      case Raw(cp) => PlainBytes(Utf8(cp), tail, acc);
      case Short(e) => OneShort(e, tail, acc);
      case Hex(h) => OneHex(h, tail, acc);
      case Pair(h, l) =>
        OneHex(h, "\\u" + (l + tail), acc);
        OneHex(l, tail, acc + Utf8(FourHex(h)));
        assert acc + Utf8(FourHex(h)) + Utf8(FourHex(l)) == acc + (Utf8(FourHex(h)) + Utf8(FourHex(l)));
    }
  }

  lemma {:induction false} AllItems(items: seq<Item>, tail: string, acc: string)
    requires LegalItems(items)
    ensures StringBody(ItemsText(items, tail), acc) == StringBody(tail, acc + ReadStringBytes(items))
  {
    hide StringBody, ReadItemBytes, ItemText;
    if items == [] {
      assert acc + ReadStringBytes(items) == acc;
    } else {
      OneItem(items[0], ItemsText(items[1..], tail), acc);
      AllItems(items[1..], tail, acc + ReadItemBytes(items[0]));
      assert acc + ReadItemBytes(items[0]) + ReadStringBytes(items[1..]) == acc + ReadStringBytes(items);
    }
  }

  lemma {:induction false} ReadBytesAreUtf8(items: seq<Item>)
    requires LegalItems(items)
    ensures Utf8Check(ReadStringBytes(items), 0)
  {
    hide Utf8, FourHex;
    if items != [] {
      var it, tail := items[0], ReadStringBytes(items[1..]);
      ReadBytesAreUtf8(items[1..]);
      if it.Pair? {
        Utf8Accepted(FourHex(it.low), tail);
        Utf8Accepted(FourHex(it.high), Utf8(FourHex(it.low)) + tail);
        assert ReadStringBytes(items) == Utf8(FourHex(it.high)) + (Utf8(FourHex(it.low)) + tail);
      } else {
        var cp := match it case Raw(cp) => cp case Short(e) => ShortMeaning(e) case Hex(h) => FourHex(h);
        Utf8Accepted(cp, tail);
      }
    }
  }

  // ---- the reader on one value that is not a container

  predicate EndsNumber(tail: string) {
    !IsNumberChar(Cur(tail))
  }

  lemma {:induction false} NumberTextStops(s: string, tail: string)
    requires EndsNumber(tail) && forall i :: 0 <= i < |s| ==> IsNumberChar(s[i])
    ensures NumberText(s + tail) == |s|
  {
    if s == "" {
      assert s + tail == tail;
    } else {
      assert (s + tail)[1..] == s[1..] + tail;
      NumberTextStops(s[1..], tail);
    }
  }

  lemma NumberTokenReads(text: string, tail: string, pf: string -> Option<real>)
    requires text != "" && EndsNumber(tail) && forall i :: 0 <= i < |text| ==> IsNumberChar(text[i])
    ensures NumberToken(text[0], text[1..] + tail, pf) ==
            if HasFloatChar(text[1..]) then
              (match pf(text) case None => Bad(NumberError) case Some(r) => Leaf(Float(r), tail))
            else
              (match ParseInteger(text) case None => Bad(NumberError) case Some(i) => Leaf(Int(i), tail))
  {
    NumberTextStops(text[1..], tail);
    assert (text[1..] + tail)[..|text| - 1] == text[1..];
    assert (text[1..] + tail)[|text| - 1..] == tail;
    assert [text[0]] + text[1..] == text;
  }

  lemma StringTokenReads(items: seq<Item>, tail: string)
    requires LegalItems(items)
    ensures StringToken(ItemsText(items, "\"" + tail)) == Leaf(Str(ReadStringBytes(items)), tail)
  {
    AllItems(items, "\"" + tail, "");
    assert "" + ReadStringBytes(items) == ReadStringBytes(items);
    ReadBytesAreUtf8(items);
  }

  lemma WordTokenReads(word: string, v: Value, tail: string)
    ensures WordToken(word, v, word + tail) == Leaf(v, tail)
  {
  }

  // A value that is not a container is one token.
  lemma LeafToken(d: Doc, tail: string, pf: string -> Option<real>)
    requires Legal(d, pf) && !d.ArrayDoc? && !d.ObjectDoc? && EndsNumber(tail)
    ensures Cur(Text(d, tail, pf)) != '\0'
    ensures NextToken(Text(d, tail, pf), pf) == Leaf(ReadsAs(d, pf), tail)
  {
    hide StringBody, NumberText, StringToken, WordToken, NumberToken, ItemsText, ReadStringBytes;
    var text := Text(d, tail, pf);
    match d {
      case NullDoc =>
        WordTokenReads("ull", Null, tail);
        assert text[1..] == "ull" + tail;
      case BoolDoc(b) =>
        if b {
          WordTokenReads("rue", Bool(true), tail);
          assert text[1..] == "rue" + tail;
        } else {
          WordTokenReads("alse", Bool(false), tail);
          assert text[1..] == "alse" + tail;
        }
      case IntDoc(neg, mag) =>
        IntTokenReads(neg, mag, tail, pf);
      case FloatDoc(t) =>
        NumberTokenReads(t, tail, pf);
        assert text[1..] == t[1..] + tail;
      case StrDoc(items) =>
        StringTokenReads(items, tail);
        assert text[1..] == ItemsText(items, "\"" + tail);
    }
  }

  lemma IntTokenReads(neg: bool, mag: nat, tail: string, pf: string -> Option<real>)
    requires EndsNumber(tail)
    ensures var text := Text(IntDoc(neg, mag), tail, pf);
            text != "" && (text[0] == '-' || IsDigit(text[0]))
            && NumberToken(text[0], text[1..], pf) == Leaf(Denotes(IntDoc(neg, mag), pf), tail)
  {
    hide NumberText, NumberToken, Digits, PrintNat;
    var digits := (if neg then "-" else "") + PrintNat(mag);
    assert (digits + tail)[1..] == digits[1..] + tail;
    NumberTokenReads(digits, tail, pf);
    DigitsInvertPrint(mag);
    if neg {
      assert digits[1..] == PrintNat(mag);
    } else {
      assert digits == PrintNat(mag);
      assert IsDigit(digits[0]);
    }
    assert ParseInteger(digits) == Some(if neg then -(mag as int) else mag);
  }

  // ---- the reader on a value inside a container

  lemma {:induction false} SkipSeparators(ws: string, tail: string, top: Option<Value>, frames: seq<Frame>,
                                          key: Option<Value>, pf: string -> Option<real>)
    requires WellFormed(top, frames)
    requires forall i :: 0 <= i < |ws| ==> ws[i] in " \t\n\r,:"
    ensures Run(ws + tail, top, frames, key, pf) == Run(tail, top, frames, key, pf)
  {
    if ws == "" {
      assert ws + tail == tail;
    } else {
      assert (ws + tail)[1..] == ws[1..] + tail;
      assert NextToken(ws + tail, pf) == Skip(ws[1..] + tail);
      SkipSeparators(ws[1..], tail, top, frames, key, pf);
    }
  }

  lemma RunBracket(isList: bool, tail: string, top: Value, frames: seq<Frame>, key: Option<Value>,
                   pf: string -> Option<real>)
    requires WellFormed(Some(top), frames) && (top.Dict? <==> key.Some?)
    ensures Run((if isList then "[" else "{") + tail, Some(top), frames, key, pf)
         == Run(tail, Some(Empty(isList)), frames + [Frame(top, key)], None, pf)
  {
    hide Run;
    var rest := (if isList then "[" else "{") + tail;
    assert rest[1..] == tail;
    RunOpen(rest, isList, tail, top, frames, key, pf);
  }

  lemma RunEnd(bracket: string, tail: string, top: Value, frames: seq<Frame>, f: Frame, pf: string -> Option<real>)
    requires WellFormed(Some(top), frames + [f]) && bracket in {"]", "}"}
    requires WellFormed(Some(f.cont), frames) && (f.cont.Dict? <==> f.key.Some?)
    ensures Run(bracket + tail, Some(top), frames + [f], None, pf)
         == Run(tail, Some(Put(f.cont, f.key, top)), frames, None, pf)
  {
    hide Run;
    var rest := bracket + tail;
    assert rest[1..] == tail;
    assert NextToken(rest, pf) == Close(tail);
    assert (frames + [f])[..|frames|] == frames;
    RunClose(rest, tail, top, frames + [f], None, pf);
  }

  // Reading the text of a value stores that value in the innermost open container and leaves
  // the stack of enclosing containers as it was.
  lemma {:induction false} ReadDoc(d: Doc, tail: string, top: Value, frames: seq<Frame>, key: Option<Value>,
                                   pf: string -> Option<real>)
    requires Legal(d, pf) && EndsNumber(tail)
    requires WellFormed(Some(top), frames) && (top.Dict? <==> key.Some?)
    ensures Run(Text(d, tail, pf), Some(top), frames, key, pf)
         == Run(tail, Some(Put(top, key, ReadsAs(d, pf))), frames, None, pf)
    decreases d, 0
  {
    hide Run, NextToken, Put, ElemsText, MembersText, ElemsReadAs, MembersReadAs;
    var f := Frame(top, key);
    match d {
      case ArrayDoc(ws, elems) =>
        RunBracket(true, ws + ElemsText(elems, "", "]" + tail, pf), top, frames, key, pf);
        SkipSeparators(ws, ElemsText(elems, "", "]" + tail, pf), Some(List([])), frames + [f], None, pf);
        ReadElems(elems, "", "]" + tail, [], frames + [f], pf);
        assert [] + ElemsReadAs(elems, pf) == ElemsReadAs(elems, pf);
        RunEnd("]", tail, List(ElemsReadAs(elems, pf)), frames, f, pf);
      case ObjectDoc(ws, members) =>
        RunBracket(false, ws + MembersText(members, "", "}" + tail, pf), top, frames, key, pf);
        SkipSeparators(ws, MembersText(members, "", "}" + tail, pf), Some(Dict([])), frames + [f], None, pf);
        ReadMembers(members, "", "}" + tail, [], frames + [f], pf);
        RunEnd("}", tail, Dict(MembersReadAs(members, [], pf)), frames, f, pf);
      case _ =>
        LeafToken(d, tail, pf);
        RunLeaf(Text(d, tail, pf), ReadsAs(d, pf), tail, top, frames, key, pf);
    }
  }

  lemma {:induction false} ReadElems(e: Elems, sep: string, tail: string, items: seq<Value>, frames: seq<Frame>,
                                     pf: string -> Option<real>)
    requires LegalElems(e, pf) && sep in {"", ","} && EndsNumber(tail)
    requires WellFormed(Some(List(items)), frames)
    ensures Run(ElemsText(e, sep, tail, pf), Some(List(items)), frames, None, pf)
         == Run(tail, Some(List(items + ElemsReadAs(e, pf))), frames, None, pf)
    decreases e, 1
  {
    hide Run, NextToken, Text, ReadsAs;
    if e.NoElem? {
      assert items + ElemsReadAs(e, pf) == items;
    } else {
      var more := ElemsText(e.more, ",", tail, pf);
      var doc := Text(e.doc, e.post + more, pf);
      SkipSeparators(sep, e.pre + doc, Some(List(items)), frames, None, pf);
      SkipSeparators(e.pre, doc, Some(List(items)), frames, None, pf);
      ElemsTextEnds(e.more, tail, pf);
      WsEndsNumber(e.post, more);
      ReadDoc(e.doc, e.post + more, List(items), frames, None, pf);
      var items' := items + [ReadsAs(e.doc, pf)];
      SkipSeparators(e.post, more, Some(List(items')), frames, None, pf);
      ReadElems(e.more, ",", tail, items', frames, pf);
      assert items' + ElemsReadAs(e.more, pf) == items + ElemsReadAs(e, pf);
    }
  }

  lemma {:induction false} ReadMembers(m: Members, sep: string, tail: string, entries: seq<Entry>, frames: seq<Frame>,
                                       pf: string -> Option<real>)
    requires LegalMembers(m, pf) && sep in {"", ","} && EndsNumber(tail)
    requires WellFormed(Some(Dict(entries)), frames)
    ensures Run(MembersText(m, sep, tail, pf), Some(Dict(entries)), frames, None, pf)
         == Run(tail, Some(Dict(MembersReadAs(m, entries, pf))), frames, None, pf)
    decreases m, 1
  {
    hide Run, NextToken, Text, ReadsAs, StringText, DictStore;
    if m.Member? {
      var top := Some(Dict(entries));
      var more := MembersText(m.more, ",", tail, pf);
      var doc := Text(m.doc, m.post + more, pf);
      var k := Str(ReadStringBytes(m.key));
      SkipSeparators(sep, m.pre + StringText(m.key, m.beforeColon + (":" + (m.afterColon + doc))), top, frames,
                     None, pf);
      ReadName(m.pre, m.key, m.beforeColon, m.afterColon, doc, entries, frames, pf);
      MembersTextEnds(m.more, tail, pf);
      WsEndsNumber(m.post, more);
      ReadDoc(m.doc, m.post + more, top.value, frames, Some(k), pf);
      var entries' := DictStore(entries, k, ReadsAs(m.doc, pf));
      SkipSeparators(m.post, more, Some(Dict(entries')), frames, None, pf);
      ReadMembers(m.more, ",", tail, entries', frames, pf);
    }
  }

  // The name of a member, up to its value: the name becomes the pending key.
  lemma ReadName(pre: string, items: seq<Item>, beforeColon: string, afterColon: string, doc: string,
                 entries: seq<Entry>, frames: seq<Frame>, pf: string -> Option<real>)
    requires IsWs(pre) && LegalItems(items) && IsWs(beforeColon) && IsWs(afterColon)
    requires WellFormed(Some(Dict(entries)), frames)
    ensures Run(pre + StringText(items, beforeColon + (":" + (afterColon + doc))), Some(Dict(entries)), frames, None,
                pf)
         == Run(doc, Some(Dict(entries)), frames, Some(Str(ReadStringBytes(items))), pf)
  {
    hide Run, NextToken, StringText, ReadStringBytes;
    var top, k := Some(Dict(entries)), Str(ReadStringBytes(items));
    var afterName := beforeColon + (":" + (afterColon + doc));
    SkipSeparators(pre, StringText(items, afterName), top, frames, None, pf);
    WsEndsNumber(beforeColon, ":" + (afterColon + doc));
    LeafToken(StrDoc(items), afterName, pf);
    assert Text(StrDoc(items), afterName, pf) == StringText(items, afterName);
    RunLeaf(StringText(items, afterName), k, afterName, top.value, frames, None, pf);
    SkipSeparators(beforeColon, ":" + (afterColon + doc), top, frames, Some(k), pf);
    SkipSeparators(":", afterColon + doc, top, frames, Some(k), pf);
    SkipSeparators(afterColon, doc, top, frames, Some(k), pf);
  }

  lemma ElemsTextEnds(e: Elems, tail: string, pf: string -> Option<real>)
    requires LegalElems(e, pf) && EndsNumber(tail)
    ensures EndsNumber(ElemsText(e, ",", tail, pf))
  {
    hide Text;
  }

  lemma MembersTextEnds(m: Members, tail: string, pf: string -> Option<real>)
    requires LegalMembers(m, pf) && EndsNumber(tail)
    ensures EndsNumber(MembersText(m, ",", tail, pf))
  {
    hide Text, StringText;
  }

  lemma WsEndsNumber(ws: string, tail: string)
    requires IsWs(ws) && EndsNumber(tail)
    ensures EndsNumber(ws + tail)
  {
    if ws == "" {
      assert ws + tail == tail;
    } else {
      assert (ws + tail)[0] == ws[0];
    }
  }

  // ---- whole texts

  // White space up to the end of the text or up to a NUL, which reads as the end.
  predicate OnlySpace(after: string) {
    exists k :: 0 <= k <= |after| && SpaceTo(after, k) && (k == |after| || after[k] == '\0')
  }

  predicate SpaceTo(after: string, k: nat)
    requires k <= |after|
  {
    forall i :: 0 <= i < k ==> after[i] in " \t\n\r\U{b}\U{c}"
  }

  // After a complete value there may be white space and nothing else.
  lemma {:induction false} FinishExactly(after: string, v: Value)
    ensures Finish(after, v) == if OnlySpace(after) then Ok(v) else Fail(SyntaxError)
  {
    if IsSpace(Cur(after)) {
      FinishExactly(after[1..], v);
      if OnlySpace(after[1..]) {
        var k :| 0 <= k < |after| && SpaceTo(after[1..], k) && (k + 1 == |after| || after[1..][k] == '\0');
        assert forall i :: 1 <= i < k + 1 ==> after[i] == after[1..][i - 1];
        assert SpaceTo(after, k + 1);
      }
      if OnlySpace(after) {
        var k :| 0 <= k <= |after| && SpaceTo(after, k) && (k == |after| || after[k] == '\0');
        assert SpaceTo(after[1..], k - 1);
      }
    } else if Cur(after) == '\0' {
      assert SpaceTo(after, 0);
    }
  }

  lemma OpenAtTop(isList: bool, tail: string, pf: string -> Option<real>)
    ensures Run((if isList then "[" else "{") + tail, None, [], None, pf)
         == Run(tail, Some(Empty(isList)), [], None, pf)
  {
    hide Run;
    var rest := (if isList then "[" else "{") + tail;
    assert rest[1..] == tail;
    RunFirst(rest, None, pf);
  }

  lemma CloseAtTop(bracket: string, tail: string, top: Value, pf: string -> Option<real>)
    requires IsContainer(top) && bracket in {"]", "}"}
    ensures Run(bracket + tail, Some(top), [], None, pf) == Finish(tail, top)
  {
    hide Run;
    var rest := bracket + tail;
    assert rest[1..] == tail;
    RunClose(rest, tail, top, [], None, pf);
  }

  lemma LegalThenFinish(before: string, d: Doc, after: string, pf: string -> Option<real>)
    requires Legal(d, pf) && IsWs(before) && EndsNumber(after)
    ensures Meaning(before + Text(d, after, pf), pf) == Finish(after, ReadsAs(d, pf))
  {
    hide Run, NextToken, ElemsText, MembersText, ElemsReadAs, MembersReadAs, Finish;
    SkipSeparators(before, Text(d, after, pf), None, [], None, pf);
    match d {
      case ArrayDoc(ws, elems) =>
        OpenAtTop(true, ws + ElemsText(elems, "", "]" + after, pf), pf);
        SkipSeparators(ws, ElemsText(elems, "", "]" + after, pf), Some(List([])), [], None, pf);
        ReadElems(elems, "", "]" + after, [], [], pf);
        assert [] + ElemsReadAs(elems, pf) == ElemsReadAs(elems, pf);
        CloseAtTop("]", after, ReadsAs(d, pf), pf);
      case ObjectDoc(ws, members) =>
        OpenAtTop(false, ws + MembersText(members, "", "}" + after, pf), pf);
        SkipSeparators(ws, MembersText(members, "", "}" + after, pf), Some(Dict([])), [], None, pf);
        ReadMembers(members, "", "}" + after, [], [], pf);
        CloseAtTop("}", after, ReadsAs(d, pf), pf);
      case _ =>
        LeafToken(d, after, pf);
        RunFirst(Text(d, after, pf), None, pf);
    }
  }

  // A legal text, whatever follows it, loads exactly when only white space follows.
  lemma NothingAfterValue(before: string, d: Doc, after: string, pf: string -> Option<real>)
    requires Legal(d, pf) && IsWs(before) && EndsNumber(after)
    ensures Meaning(before + Text(d, after, pf), pf)
         == if OnlySpace(after) then Ok(ReadsAs(d, pf)) else Fail(SyntaxError)
  {
    LegalThenFinish(before, d, after, pf);
    FinishExactly(after, ReadsAs(d, pf));
  }

  // Loading any legal text, with whitespace around it, succeeds with the tree ReadsAs gives.
  lemma LoadReadsText(before: string, d: Doc, after: string, pf: string -> Option<real>)
    requires Legal(d, pf) && IsWs(before) && IsWs(after)
    ensures Meaning(before + Text(d, after, pf), pf) == Ok(ReadsAs(d, pf))
  {
    hide Meaning, Text, ReadsAs;
    assert SpaceTo(after, |after|);
    NothingAfterValue(before, d, after, pf);
  }

  // ---- when the tree read is the tree denoted

  predicate NoPair(items: seq<Item>) {
    forall i :: 0 <= i < |items| ==> !items[i].Pair?
  }

  predicate NoPairs(d: Doc) {
    match d
    case StrDoc(items) => NoPair(items)
    case ArrayDoc(_, elems) => NoPairsElems(elems)
    case ObjectDoc(_, members) => NoPairsMembers(members)
    case _ => true
  }

  predicate NoPairsElems(e: Elems) {
    e.Elem? ==> NoPairs(e.doc) && NoPairsElems(e.more)
  }

  predicate NoPairsMembers(m: Members) {
    m.Member? ==> NoPair(m.key) && NoPairs(m.doc) && NoPairsMembers(m.more)
  }

  predicate IsName(m: Members, name: string)
    requires LegalNames(m)
  {
    m.Member? && (StringBytes(m.key) == name || IsName(m.more, name))
  }

  predicate LegalNames(m: Members) {
    m.Member? ==> LegalItems(m.key) && LegalNames(m.more)
  }

  // The names within each object are distinct (section 2.2 of RFC 4627).
  predicate DistinctNames(d: Doc) {
    match d
    case ArrayDoc(_, elems) => DistinctNamesElems(elems)
    case ObjectDoc(_, members) => LegalNames(members) && DistinctNamesMembers(members)
    case _ => true
  }

  predicate DistinctNamesElems(e: Elems) {
    e.Elem? ==> DistinctNames(e.doc) && DistinctNamesElems(e.more)
  }

  predicate DistinctNamesMembers(m: Members)
    requires LegalNames(m)
  {
    m.Member? ==> !IsName(m.more, StringBytes(m.key)) && DistinctNames(m.doc) && DistinctNamesMembers(m.more)
  }

  // A surrogate pair takes six bytes as read and four as denoted.
  lemma {:induction false} StringBytesAgree(items: seq<Item>)
    requires LegalItems(items)
    ensures |ReadStringBytes(items)| >= |StringBytes(items)|
    ensures |ReadStringBytes(items)| == |StringBytes(items)| <==> NoPair(items)
    ensures NoPair(items) ==> ReadStringBytes(items) == StringBytes(items)
  {
    if items != [] {
      StringBytesAgree(items[1..]);
      assert NoPair(items) <==> !items[0].Pair? && NoPair(items[1..]);
    }
  }

  lemma {:induction false} AppendedOrNot(m: Members, entries: seq<Entry>, pf: string -> Option<real>)
    requires LegalMembers(m, pf)
    ensures |MembersReadAs(m, entries, pf)| <= |entries| + |MembersDenote(m, pf)|
  {
    if m.Member? {
      AppendedOrNot(m.more, DictStore(entries, Str(ReadStringBytes(m.key)), ReadsAs(m.doc, pf)), pf);
    }
  }

  predicate NoneOf(entries: seq<Entry>, m: Members)
    requires LegalNames(m)
  {
    forall i :: 0 <= i < |entries| ==> entries[i].key.Str? && !IsName(m, entries[i].key.s)
  }

  lemma {:induction false} ReadAgrees(d: Doc, pf: string -> Option<real>)
    requires Legal(d, pf) && DistinctNames(d)
    ensures ReadsAs(d, pf) == Denotes(d, pf) <==> NoPairs(d)
    decreases d, 0
  {
    match d {
      case StrDoc(items) => StringBytesAgree(items);
      case ArrayDoc(_, elems) => ElemsAgree(elems, pf);
      case ObjectDoc(_, members) =>
        if NoPairs(d) {
          MembersAgree(members, [], pf);
        } else if ReadsAs(d, pf) == Denotes(d, pf) {
          MembersDiffer(members, [], pf);
        }
      case _ =>
    }
  }

  lemma {:induction false} ElemsAgree(e: Elems, pf: string -> Option<real>)
    requires LegalElems(e, pf) && DistinctNamesElems(e)
    ensures ElemsReadAs(e, pf) == ElemsDenote(e, pf) <==> NoPairsElems(e)
    decreases e, 1
  {
    if e.Elem? {
      ReadAgrees(e.doc, pf);
      ElemsAgree(e.more, pf);
      assert ElemsReadAs(e, pf)[0] == ReadsAs(e.doc, pf) && ElemsReadAs(e, pf)[1..] == ElemsReadAs(e.more, pf);
      assert ElemsDenote(e, pf)[0] == Denotes(e.doc, pf) && ElemsDenote(e, pf)[1..] == ElemsDenote(e.more, pf);
    }
  }

  lemma StoreGrows(entries: seq<Entry>, key: Value, val: Value)
    ensures |DictStore(entries, key, val)| <= |entries| + 1
    ensures |DictStore(entries, key, val)| > |entries| ==>
              DictStore(entries, key, val) == entries + [Entry(key, val)]
  {
  }

  lemma FreshKeyAppends(entries: seq<Entry>, key: Value, val: Value)
    requires key.Str? && forall i :: 0 <= i < |entries| ==> entries[i].key.Str? && entries[i].key != key
    ensures DictStore(entries, key, val) == entries + [Entry(key, val)]
  {
  }

  lemma {:induction false} MembersAgree(m: Members, entries: seq<Entry>, pf: string -> Option<real>)
    requires LegalMembers(m, pf) && LegalNames(m) && DistinctNamesMembers(m) && NoPairsMembers(m)
    requires NoneOf(entries, m)
    ensures MembersReadAs(m, entries, pf) == entries + MembersDenote(m, pf)
    decreases m, 1
  {
    hide Legal, ReadsAs, Denotes, StringBytes, ReadStringBytes, DictStore, NoPairs, DistinctNames;
    if m.Member? {
      StringBytesAgree(m.key);
      ReadAgrees(m.doc, pf);
      var e := Entry(Str(StringBytes(m.key)), Denotes(m.doc, pf));
      FreshKeyAppends(entries, e.key, e.val);
      assert NoneOf(entries + [e], m.more);
      MembersAgree(m.more, entries + [e], pf);
      assert entries + [e] + MembersDenote(m.more, pf) == entries + MembersDenote(m, pf);
    }
  }

  // If the dict read is the dict denoted, no name was read onto an earlier one, so the
  // entries agree one by one.
  lemma {:induction false} MembersDiffer(m: Members, entries: seq<Entry>, pf: string -> Option<real>)
    requires LegalMembers(m, pf) && LegalNames(m) && DistinctNamesMembers(m)
    requires MembersReadAs(m, entries, pf) == entries + MembersDenote(m, pf)
    ensures NoPairsMembers(m)
    decreases m, 1
  {
    hide Legal, ReadsAs, Denotes, StringBytes, ReadStringBytes, DictStore, NoPairs, DistinctNames;
    if m.Member? {
      var key, val := Str(ReadStringBytes(m.key)), ReadsAs(m.doc, pf);
      var entries' := DictStore(entries, key, val);
      AppendedOrNot(m.more, entries', pf);
      StoreGrows(entries, key, val);
      Untouched(m.more, entries', pf);
      var all := entries + MembersDenote(m, pf);
      assert all[|entries|] == Entry(Str(StringBytes(m.key)), Denotes(m.doc, pf));
      assert all[..|entries'|] == entries';
      assert all[|entries|] == entries'[|entries|];
      StringBytesAgree(m.key);
      ReadAgrees(m.doc, pf);
      assert all == entries' + MembersDenote(m.more, pf);
      MembersDiffer(m.more, entries', pf);
    }
  }

  // When every member was appended, the entries that were there first are still there.
  lemma {:induction false} Untouched(m: Members, entries: seq<Entry>, pf: string -> Option<real>)
    requires LegalMembers(m, pf)
    requires |MembersReadAs(m, entries, pf)| == |entries| + |MembersDenote(m, pf)|
    ensures entries <= MembersReadAs(m, entries, pf)
  {
    if m.Member? {
      var entries' := DictStore(entries, Str(ReadStringBytes(m.key)), ReadsAs(m.doc, pf));
      AppendedOrNot(m.more, entries', pf);
      Untouched(m.more, entries', pf);
    }
  }

  // ---- a name that comes twice

  // The value of the last member of a name.
  function LastValue(m: Members, name: Value, pf: string -> Option<real>): Option<Value>
    requires LegalMembers(m, pf)
  {
    if m.NoMember? then None
    else
      var later := LastValue(m.more, name, pf);
      if later.Some? then later
      else if Str(ReadStringBytes(m.key)) == name then Some(ReadsAs(m.doc, pf)) else None
  }

  // The names in the order in which each comes first.
  function FirstNames(m: Members, names: seq<Value>, pf: string -> Option<real>): seq<Value>
    requires LegalMembers(m, pf)
  {
    if m.NoMember? then names
    else
      var name := Str(ReadStringBytes(m.key));
      FirstNames(m.more, if name in names then names else names + [name], pf)
  }

  predicate NamesOnly(entries: seq<Entry>) {
    forall i :: 0 <= i < |entries| ==> entries[i].key.Str?
  }

  lemma LookupOfName(entries: seq<Entry>, name: string)
    requires NamesOnly(entries)
    ensures Lookup(entries, Str(name)).Some? <==> Str(name) in Keys(entries)
  {
    LookupFinds(entries, Str(name));
    if Str(name) in Keys(entries) {
      var i :| 0 <= i < |entries| && Keys(entries)[i] == Str(name);
    }
  }

  // Reading members into a dict: each name gives the value of its last member, and stands
  // where its first member stood.
  lemma {:induction false} LastMemberCounts(m: Members, entries: seq<Entry>, name: string, pf: string -> Option<real>)
    requires LegalMembers(m, pf) && NamesOnly(entries)
    ensures var read := MembersReadAs(m, entries, pf);
            && Lookup(read, Str(name)) ==
               (if LastValue(m, Str(name), pf).Some? then LastValue(m, Str(name), pf) else Lookup(entries, Str(name)))
            && Keys(read) == FirstNames(m, Keys(entries), pf)
  {
    hide Legal, ReadsAs, ReadStringBytes, DictStore, Lookup;
    if m.Member? {
      var key, val := Str(ReadStringBytes(m.key)), ReadsAs(m.doc, pf);
      var stored := DictStore(entries, key, val);
      StoreThenLookup(entries, key, val, Str(name));
      LookupOfName(entries, key.s);
      assert forall i :: 0 <= i < |stored| ==> Keys(stored)[i] == stored[i].key;
      assert NamesOnly(stored) by {
        assert forall i :: 0 <= i < |entries| ==> Keys(entries)[i].Str?;
      }
      LastMemberCounts(m.more, stored, name, pf);
    }
  }

  // The main result: a legal text whose objects have distinct names, whatever follows it, loads as
  // the tree it denotes exactly when it has no surrogate-pair escape and white space alone follows.
  lemma LoadInvertsPrinting(before: string, d: Doc, after: string, pf: string -> Option<real>)
    requires Legal(d, pf) && DistinctNames(d) && IsWs(before) && EndsNumber(after)
    ensures Meaning(before + Text(d, after, pf), pf) == Ok(Denotes(d, pf)) <==> NoPairs(d) && OnlySpace(after)
  {
    hide Meaning, Text, ReadsAs, Denotes;
    NothingAfterValue(before, d, after, pf);
    ReadAgrees(d, pf);
  }

  lemma GrinningFace()
    ensures FourHex("d83d") == 0xD83D && FourHex("de00") == 0xDE00
    ensures Utf8(0x1F600) == ['\U{f0}', '\U{9f}', '\U{98}', '\U{80}']
    ensures Utf8(0xD83D) == ['\U{ed}', '\U{a0}', '\U{bd}']
    ensures Utf8(0xDE00) == ['\U{ed}', '\U{b8}', '\U{80}']
  {
  }

  // U+1F600 written as its two surrogates: legal, four bytes by the RFC, six as read.
  lemma SurrogatePairMisread(pf: string -> Option<real>)
    ensures var d := StrDoc([Pair("d83d", "de00")]);
            && Legal(d, pf) && Text(d, "", pf) == "\"\\ud83d\\ude00\""
            && Denotes(d, pf) == Str(['\U{f0}', '\U{9f}', '\U{98}', '\U{80}'])
            && Meaning(Text(d, "", pf), pf)
               == Ok(Str(['\U{ed}', '\U{a0}', '\U{bd}', '\U{ed}', '\U{b8}', '\U{80}']))
  {
    hide Run, NextToken, Utf8, FourHex, HexValue;
    var p := Pair("d83d", "de00");
    var d := StrDoc([p]);
    GrinningFace();
    assert LegalItem(p);
    assert [p][1..] == [];
    assert ReadStringBytes([p]) == ReadItemBytes(p) + "";
    assert StringBytes([p]) == ItemBytes(p);
    assert Text(d, "", pf) == "\"\\ud83d\\ude00\"" by {
      assert ItemsText([p], "\"") == ItemText(p, "\"");
      assert ItemText(p, "\"") == "\\ud83d\\ude00\"";
      assert "\"" + "" == "\"";
    }
    LoadReadsText("", d, "", pf);
    assert "" + Text(d, "", pf) == Text(d, "", pf);
    assert ReadItemBytes(p) == ['\U{ed}', '\U{a0}', '\U{bd}', '\U{ed}', '\U{b8}', '\U{80}'];
    assert ReadItemBytes(p) + "" == ReadItemBytes(p);
  }
}
