/**
  The texts the JSON reader refuses, and a recursive reading of every text whatsoever, against
  which the reader with its explicit stack is checked.
 */
module JsonMalformed {
  import opened Bits
  import opened JsonValue
  import opened JsonReader
  import opened JsonRoundTrip
  import opened Sequences
  import opened Wrappers

  // ---- the reader by recursion on the nesting of containers

  // A container read to its end, the text behind it and the dict key that is still pending.
  datatype Part = Part(cont: Value, rest: string, key: Option<Value>)

  // The rest of a container. A key that is left pending when a dict closes is the pending key
  // of whatever comes next.
  function Inside(rest: string, cont: Value, key: Option<Value>, pf: string -> Option<real>): (p: Outcome<Part>)
    requires IsContainer(cont)
    ensures p.Ok? ==> IsContainer(p.value.cont) && |p.value.rest| < |rest|
    decreases |rest|
  {
    if Cur(rest) == '\0' then Fail(SyntaxError)
    else
      var wantsKey := cont.Dict? && key.None?;
      var left := if cont.Dict? then None else key;
      match NextToken(rest, pf)
      case Bad(error) => Fail(error)
      case Skip(r) => Inside(r, cont, key, pf)
      case Close(r) => Ok(Part(cont, r, key))
      case Leaf(v, r) =>
        if wantsKey then Inside(r, cont, Some(v), pf) else Inside(r, Put(cont, key, v), left, pf)
      case Open(isList, r) =>
        if wantsKey then Fail(SyntaxError)
        else match Inside(r, Empty(isList), left, pf)
          case Fail(error) => Fail(error)
          case Ok(p) => Inside(p.rest, Put(cont, key, p.cont), p.key, pf)
  }

  function Descend(text: string, pf: string -> Option<real>): Outcome<Value>
    decreases |text|
  {
    if Cur(text) == '\0' then Fail(SyntaxError)
    else match NextToken(text, pf)
      case Bad(error) => Fail(error)
      case Skip(r) => Descend(r, pf)
      case Close(_) => Fail(SyntaxError)
      case Leaf(v, r) => if OnlySpace(r) then Ok(v) else Fail(SyntaxError)
      case Open(isList, r) =>
        match Inside(r, Empty(isList), None, pf)
        case Fail(error) => Fail(error)
        case Ok(p) => if OnlySpace(p.rest) then Ok(p.cont) else Fail(SyntaxError)
  }

  // What is left to do when a container is complete.
  function Outside(p: Part, frames: seq<Frame>, pf: string -> Option<real>): Outcome<Value>
    requires WellFormed(Some(p.cont), frames)
  {
    if frames == [] then Finish(p.rest, p.cont)
    else
      var f := frames[|frames| - 1];
      Run(p.rest, Some(Put(f.cont, f.key, p.cont)), frames[..|frames| - 1], p.key, pf)
  }

  lemma {:induction false} StackIsRecursion(rest: string, cont: Value, frames: seq<Frame>, key: Option<Value>,
                                            pf: string -> Option<real>)
    requires WellFormed(Some(cont), frames)
    ensures Run(rest, Some(cont), frames, key, pf) ==
            match Inside(rest, cont, key, pf)
            case Fail(error) => Fail(error)
            case Ok(p) => Outside(p, frames, pf)
    decreases |rest|
  {
    hide NextToken, Finish, DictStore;
    if Cur(rest) != '\0' {
      match NextToken(rest, pf)
      case Bad(_) =>
      case Close(_) =>
      case Skip(r) => StackIsRecursion(r, cont, frames, key, pf);
      case Leaf(v, r) =>
        if cont.Dict? && key.None? {
          StackIsRecursion(r, cont, frames, Some(v), pf);
        } else {
          StackIsRecursion(r, Put(cont, key, v), frames, if cont.Dict? then None else key, pf);
        }
      case Open(isList, r) =>
        if !(cont.Dict? && key.None?) {
          var f := Frame(cont, if cont.Dict? then key else None);
          var left := if cont.Dict? then None else key;
          StackIsRecursion(r, Empty(isList), frames + [f], left, pf);
          assert (frames + [f])[..|frames|] == frames;
          match Inside(r, Empty(isList), left, pf)
          case Fail(_) =>
          case Ok(p) => StackIsRecursion(p.rest, Put(cont, key, p.cont), frames, p.key, pf);
        }
    }
  }

  // For every text, legal or not, the reader gives what the recursion gives.
  lemma {:induction false} ReaderDescends(text: string, pf: string -> Option<real>)
    ensures Meaning(text, pf) == Descend(text, pf)
    decreases |text|
  {
    hide NextToken, Inside, Finish;
    if Cur(text) != '\0' {
      match NextToken(text, pf)
      case Bad(_) =>
      case Close(_) =>
      case Skip(r) => ReaderDescends(r, pf);
      case Leaf(v, r) => FinishExactly(r, v);
      case Open(isList, r) =>
        StackIsRecursion(r, Empty(isList), [], None, pf);
        match Inside(r, Empty(isList), None, pf)
        case Fail(_) =>
        case Ok(p) => FinishExactly(p.rest, p.cont);
    }
  }

  // ---- what comes after a complete value is not looked at while it is read

  predicate IsSuffix(r: string, s: string) {
    |r| <= |s| && s[|s| - |r|..] == r
  }

  lemma SuffixOfSuffix(r: string, s: string, t: string)
    requires IsSuffix(r, s) && IsSuffix(s, t)
    ensures IsSuffix(r, t)
  {
    assert t[|t| - |s|..][|s| - |r|..] == t[|t| - |r|..];
  }

  lemma StepExtends(rest: string, more: string)
    requires Cur(rest) != '\0' && Cur(rest) != '"'
    ensures IsSuffix(StringStep(rest).1, rest)
    ensures StringStep(rest).1 != "" ==>
              StringStep(rest + more) == (StringStep(rest).0, StringStep(rest).1 + more)
  {
    hide Utf8, AddHexDigit;
    assert (rest + more)[1..] == rest[1..] + more;
    if rest[0] == '\\' && |rest| > 2 {
      assert (rest + more)[2..] == rest[2..] + more;
      if rest[1] == 'u' && |rest| > 6 {
        EscapeExtends(rest[1..], more);
      }
    }
  }

  lemma EscapeExtends(rest: string, more: string)
    requires |rest| > 5
    ensures HexEscape(rest + more) == HexEscape(rest)
    ensures Adv(Adv(Adv(Adv(Adv(rest + more))))) == Adv(Adv(Adv(Adv(Adv(rest))))) + more
  {
    hide AddHexDigit;
    assert forall s: string :: s != "" ==> Adv(s + more) == Adv(s) + more;
  }

  lemma {:induction false} BodyExtends(rest: string, more: string, acc: string)
    ensures IsSuffix(StringBody(rest, acc).1, rest)
    ensures Cur(StringBody(rest, acc).1) != '\0' ==>
              StringBody(rest + more, acc) == (StringBody(rest, acc).0, StringBody(rest, acc).1 + more)
    decreases |rest|
  {
    hide StringStep;
    if Cur(rest) != '\0' && Cur(rest) != '"' {
      StepExtends(rest, more);
      var (bytes, rest1) := StringStep(rest);
      BodyExtends(rest1, more, acc + bytes);
      SuffixOfSuffix(StringBody(rest, acc).1, rest1, rest);
    }
  }

  lemma {:induction false} NumberExtends(rest: string, more: string)
    requires NumberText(rest) < |rest|
    ensures NumberText(rest + more) == NumberText(rest)
  {
    if IsNumberChar(Cur(rest)) {
      assert (rest + more)[1..] == rest[1..] + more;
      NumberExtends(rest[1..], more);
    }
  }

  lemma StringExtends(rest: string, more: string)
    requires !StringToken(rest).Bad?
    ensures StringToken(rest).Leaf? && IsSuffix(StringToken(rest).rest, rest) && !IsContainer(StringToken(rest).v)
    ensures StringToken(rest + more) == Leaf(StringToken(rest).v, StringToken(rest).rest + more)
  {
    hide StringBody, Utf8Check;
    BodyExtends(rest, more, "");
  }

  lemma NumberTokenExtends(first: char, rest: string, more: string, pf: string -> Option<real>)
    requires !NumberToken(first, rest, pf).Bad?
    ensures var t := NumberToken(first, rest, pf);
            && t.Leaf? && IsSuffix(t.rest, rest) && !IsContainer(t.v)
            && (t.rest != "" ==> NumberToken(first, rest + more, pf) == Leaf(t.v, t.rest + more))
  {
    hide NumberText, ParseInteger, HasFloatChar;
    var n := NumberText(rest);
    if n < |rest| {
      NumberExtends(rest, more);
      assert (rest + more)[..n] == rest[..n] && (rest + more)[n..] == rest[n..] + more;
    }
  }

  lemma WordExtends(word: string, v: Value, rest: string, more: string)
    requires !WordToken(word, v, rest).Bad?
    ensures word <= rest && WordToken(word, v, rest) == Leaf(v, rest[|word|..]) && IsSuffix(rest[|word|..], rest)
    ensures WordToken(word, v, rest + more) == Leaf(v, rest[|word|..] + more)
  {
    assert (rest + more)[..|word|] == rest[..|word|];
    assert (rest + more)[|word|..] == rest[|word|..] + more;
  }

  // The token of p, unless it is a value that ends p, is the token of any text that p begins.
  ghost predicate Extends(p: string, more: string, pf: string -> Option<real>)
    requires p != ""
  {
    var t := NextToken(p, pf);
    !t.Bad? ==>
      && IsSuffix(t.rest, p) && (t.Leaf? ==> !IsContainer(t.v))
      && (!(t.Leaf? && t.rest == "") ==> NextToken(p + more, pf) == t.(rest := t.rest + more))
  }

  lemma MarkExtends(p: string, more: string, pf: string -> Option<real>)
    requires p != "" && p[0] in ",: \t\n\r[]{}"
    ensures Extends(p, more, pf)
  {
    assert (p + more)[1..] == p[1..] + more;
  }

  // Which kind of token its first character makes a text begin with.
  lemma FirstCharacter(p: string, pf: string -> Option<real>)
    requires p != ""
    ensures p[0] == '"' ==> NextToken(p, pf) == StringToken(p[1..])
    ensures p[0] == '-' || IsDigit(p[0]) ==> NextToken(p, pf) == NumberToken(p[0], p[1..], pf)
    ensures p[0] == 'n' ==> NextToken(p, pf) == WordToken("ull", Null, p[1..])
    ensures p[0] == 'f' ==> NextToken(p, pf) == WordToken("alse", Bool(false), p[1..])
    ensures p[0] == 't' ==> NextToken(p, pf) == WordToken("rue", Bool(true), p[1..])
  {
    hide StringToken, NumberToken, WordToken;
  }

  lemma QuoteExtends(p: string, more: string, pf: string -> Option<real>)
    requires p != "" && p[0] == '"'
    ensures Extends(p, more, pf)
  {
    hide NextToken, StringToken, IsSuffix;
    assert (p + more)[1..] == p[1..] + more;
    FirstCharacter(p, pf);
    FirstCharacter(p + more, pf);
    SuffixOfTail(p);
    if !StringToken(p[1..]).Bad? {
      StringExtends(p[1..], more);
      SuffixOfSuffix(StringToken(p[1..]).rest, p[1..], p);
    }
  }

  lemma DigitExtends(p: string, more: string, pf: string -> Option<real>)
    requires p != "" && (p[0] == '-' || IsDigit(p[0]))
    ensures Extends(p, more, pf)
  {
    hide NextToken, NumberToken, IsSuffix;
    assert (p + more)[1..] == p[1..] + more;
    FirstCharacter(p, pf);
    FirstCharacter(p + more, pf);
    SuffixOfTail(p);
    if !NumberToken(p[0], p[1..], pf).Bad? {
      NumberTokenExtends(p[0], p[1..], more, pf);
      SuffixOfSuffix(NumberToken(p[0], p[1..], pf).rest, p[1..], p);
    }
  }

  lemma LetterExtends(p: string, more: string, pf: string -> Option<real>)
    requires p != "" && p[0] in "nft"
    ensures Extends(p, more, pf)
  {
    hide NextToken, WordToken, IsSuffix;
    assert (p + more)[1..] == p[1..] + more;
    FirstCharacter(p, pf);
    FirstCharacter(p + more, pf);
    SuffixOfTail(p);
    var word := if p[0] == 'n' then "ull" else if p[0] == 'f' then "alse" else "rue";
    var v := if p[0] == 'n' then Null else Bool(p[0] == 't');
    assert NextToken(p, pf) == WordToken(word, v, p[1..]);
    if !WordToken(word, v, p[1..]).Bad? {
      WordExtends(word, v, p[1..], more);
      SuffixOfSuffix(WordToken(word, v, p[1..]).rest, p[1..], p);
    }
  }

  lemma TokenExtends(p: string, more: string, pf: string -> Option<real>)
    requires p != ""
    ensures Extends(p, more, pf)
  {
    hide Extends;
    if p[0] == '"' {
      QuoteExtends(p, more, pf);
    } else if p[0] == '-' || IsDigit(p[0]) {
      DigitExtends(p, more, pf);
    } else if p[0] in "nft" {
      LetterExtends(p, more, pf);
    } else if p[0] in ",: \t\n\r[]{}" {
      MarkExtends(p, more, pf);
    } else {
      NoTokenExtends(p, more, pf);
    }
  }

  lemma NoTokenExtends(p: string, more: string, pf: string -> Option<real>)
    requires p != "" && StartsNothing(p[0])
    ensures Extends(p, more, pf)
  {
    hide IsSuffix, StringToken, NumberToken, WordToken;
  }

  lemma SuffixOfTail(p: string)
    requires p != ""
    ensures IsSuffix(p[1..], p) && IsSuffix(p[1..], p[1..])
  {
  }

  lemma {:induction false} InsideExtends(p: string, more: string, cont: Value, key: Option<Value>,
                                         pf: string -> Option<real>)
    requires IsContainer(cont) && Inside(p, cont, key, pf).Ok?
    ensures var part := Inside(p, cont, key, pf).value;
            IsSuffix(part.rest, p) && Inside(p + more, cont, key, pf) == Ok(part.(rest := part.rest + more))
    decreases |p|
  {
    hide NextToken, Put, IsSuffix;
    TokenExtends(p, more, pf);
    var part := Inside(p, cont, key, pf).value;
    match NextToken(p, pf)
    case Close(_) =>
    case Skip(r) =>
      InsideExtends(r, more, cont, key, pf);
      SuffixOfSuffix(part.rest, r, p);
    case Leaf(v, r) =>
      if cont.Dict? && key.None? {
        InsideExtends(r, more, cont, Some(v), pf);
      } else {
        InsideExtends(r, more, Put(cont, key, v), if cont.Dict? then None else key, pf);
      }
      SuffixOfSuffix(part.rest, r, p);
    case Open(isList, r) =>
      var left := if cont.Dict? then None else key;
      InsideExtends(r, more, Empty(isList), left, pf);
      var inner := Inside(r, Empty(isList), left, pf).value;
      InsideExtends(inner.rest, more, Put(cont, key, inner.cont), inner.key, pf);
      SuffixOfSuffix(part.rest, inner.rest, r);
      SuffixOfSuffix(part.rest, r, p);
  }

  predicate NoNul(s: string) {
    forall i :: 0 <= i < |s| ==> s[i] != '\0'
  }

  lemma SpaceThenMore(r: string, more: string)
    requires NoNul(r) && OnlySpace(r)
    ensures OnlySpace(r + more) == OnlySpace(more)
  {
    assert SpaceTo(r, |r|);
    if OnlySpace(more) {
      var k :| 0 <= k <= |more| && SpaceTo(more, k) && (k == |more| || more[k] == '\0');
      assert SpaceTo(r + more, |r| + k);
    }
    if OnlySpace(r + more) {
      var k :| 0 <= k <= |r + more| && SpaceTo(r + more, k) && (k == |r + more| || (r + more)[k] == '\0');
      assert forall i :: 0 <= i < k - |r| ==> more[i] == (r + more)[i + |r|];
      assert SpaceTo(more, k - |r|);
    }
  }

  lemma {:induction false} DescendExtends(p: string, more: string, pf: string -> Option<real>)
    requires NoNul(p) && Descend(p, pf).Ok? && IsContainer(Descend(p, pf).value)
    ensures Descend(p + more, pf) == if OnlySpace(more) then Descend(p, pf) else Fail(SyntaxError)
    decreases |p|
  {
    hide NextToken, Inside, OnlySpace;
    TokenExtends(p, more, pf);
    match NextToken(p, pf)
    case Leaf(_, _) =>
    case Skip(r) => DescendExtends(r, more, pf);
    case Open(isList, r) =>
      InsideExtends(r, more, Empty(isList), None, pf);
      SpaceThenMore(Inside(r, Empty(isList), None, pf).value.rest, more);
  }

  // A text that loads as a list or a dict cannot be continued but by white space. So, read the
  // other way round, no list and no dict loads from a text that has been cut short.
  lemma NoLongerText(p: string, more: string, pf: string -> Option<real>)
    requires NoNul(p) && Meaning(p, pf).Ok? && IsContainer(Meaning(p, pf).value)
    ensures Meaning(p + more, pf) == if OnlySpace(more) then Meaning(p, pf) else Fail(SyntaxError)
  {
    ReaderDescends(p, pf);
    ReaderDescends(p + more, pf);
    DescendExtends(p, more, pf);
  }

  // ---- legal texts cut short

  // `text` is some characters, none of them NUL, in front of `tail`.
  predicate Before(text: string, tail: string) {
    NoNul(text) && IsSuffix(tail, text)
  }

  lemma Prepend(u: string, text: string, tail: string)
    requires NoNul(u) && Before(text, tail)
    ensures Before(u + text, tail)
  {
    assert (u + text)[|u + text| - |tail|..] == text[|text| - |tail|..];
  }

  lemma PrependItem(it: Item, text: string, tail: string)
    requires LegalItem(it) && Before(text, tail)
    ensures Before(ItemText(it, text), tail)
  {
    hide IsSuffix;
    match it
    case Raw(cp) => Prepend(Utf8(cp), text, tail);
    case Short(e) => Prepend(['\\', e], text, tail);
    case Hex(h) => Prepend(h, text, tail); Prepend("\\u", h + text, tail);
    case Pair(h, l) =>
      Prepend(l, text, tail);
      Prepend("\\u", l + text, tail);
      Prepend(h, "\\u" + (l + text), tail);
      Prepend("\\u", h + ("\\u" + (l + text)), tail);
  }

  lemma {:induction false} PrependItems(items: seq<Item>, text: string, tail: string)
    requires LegalItems(items) && Before(text, tail)
    ensures Before(ItemsText(items, text), tail)
  {
    hide Before, ItemText;
    if items != [] {
      PrependItems(items[1..], text, tail);
      PrependItem(items[0], ItemsText(items[1..], text), tail);
    }
  }

  lemma PrependString(items: seq<Item>, text: string, tail: string)
    requires LegalItems(items) && Before(text, tail)
    ensures Before(StringText(items, text), tail)
  {
    hide Before, ItemsText;
    Plain("\"");
    Prepend("\"", text, tail);
    PrependItems(items, "\"" + text, tail);
    Prepend("\"", ItemsText(items, "\"" + text), tail);
  }

  lemma Plain(u: string)
    requires u in {"\"", "[", "]", "{", "}", ":", ",", "", "null", "true", "false"} || IsWs(u)
    ensures NoNul(u)
  {
  }

  lemma {:induction false} PrependDoc(d: Doc, text: string, tail: string, pf: string -> Option<real>)
    requires Legal(d, pf) && Before(text, tail)
    ensures Before(Text(d, text, pf), tail)
    decreases d, 0
  {
    hide Before, NoNul, StringText, ElemsText, MembersText;
    match d
    case NullDoc => Plain("null"); Prepend("null", text, tail);
    case BoolDoc(b) => Plain(if b then "true" else "false"); Prepend(if b then "true" else "false", text, tail);
    case IntDoc(neg, mag) =>
      var digits := (if neg then "-" else "") + PrintNat(mag);
      assert NoNul(digits) by { NumberCharsPlain(digits); }
      Prepend(digits, text, tail);
    case FloatDoc(t) =>
      assert NoNul(t) by { NumberCharsPlain(t); }
      Prepend(t, text, tail);
    case StrDoc(items) => PrependString(items, text, tail);
    case ArrayDoc(ws, elems) =>
      Plain("]"); Plain("["); Plain(ws);
      Prepend("]", text, tail);
      PrependElems(elems, "", "]" + text, tail, pf);
      Prepend(ws, ElemsText(elems, "", "]" + text, pf), tail);
      Prepend("[", ws + ElemsText(elems, "", "]" + text, pf), tail);
    case ObjectDoc(ws, members) =>
      Plain("}"); Plain("{"); Plain(ws);
      Prepend("}", text, tail);
      PrependMembers(members, "", "}" + text, tail, pf);
      Prepend(ws, MembersText(members, "", "}" + text, pf), tail);
      Prepend("{", ws + MembersText(members, "", "}" + text, pf), tail);
  }

  lemma NumberCharsPlain(digits: string)
    requires forall i :: 0 <= i < |digits| ==> IsNumberChar(digits[i])
    ensures NoNul(digits)
  {
  }

  lemma {:induction false} PrependElems(e: Elems, sep: string, text: string, tail: string, pf: string -> Option<real>)
    requires LegalElems(e, pf) && Before(text, tail) && sep in {"", ","}
    ensures Before(ElemsText(e, sep, text, pf), tail)
    decreases e, 1
  {
    hide Before, NoNul, Text;
    if e.Elem? {
      var more := ElemsText(e.more, ",", text, pf);
      Plain(sep); Plain(e.pre); Plain(e.post);
      PrependElems(e.more, ",", text, tail, pf);
      Prepend(e.post, more, tail);
      PrependDoc(e.doc, e.post + more, tail, pf);
      Prepend(e.pre, Text(e.doc, e.post + more, pf), tail);
      Prepend(sep, e.pre + Text(e.doc, e.post + more, pf), tail);
    }
  }

  lemma {:induction false} PrependMembers(m: Members, sep: string, text: string, tail: string,
                                          pf: string -> Option<real>)
    requires LegalMembers(m, pf) && Before(text, tail) && sep in {"", ","}
    ensures Before(MembersText(m, sep, text, pf), tail)
    decreases m, 1
  {
    hide Before, NoNul, Text, StringText;
    if m.Member? {
      var more := MembersText(m.more, ",", text, pf);
      var value := Text(m.doc, m.post + more, pf);
      Plain(sep); Plain(m.pre); Plain(m.beforeColon); Plain(":"); Plain(m.afterColon); Plain(m.post);
      PrependMembers(m.more, ",", text, tail, pf);
      Prepend(m.post, more, tail);
      PrependDoc(m.doc, m.post + more, tail, pf);
      Prepend(m.afterColon, value, tail);
      Prepend(":", m.afterColon + value, tail);
      Prepend(m.beforeColon, ":" + (m.afterColon + value), tail);
      var named := m.beforeColon + (":" + (m.afterColon + value));
      PrependString(m.key, named, tail);
      Prepend(m.pre, StringText(m.key, named), tail);
      Prepend(sep, m.pre + StringText(m.key, named), tail);
    }
  }

  lemma EndsInBracket(d: Doc, pf: string -> Option<real>)
    requires Legal(d, pf) && (d.ArrayDoc? || d.ObjectDoc?)
    ensures var text := Text(d, "", pf);
            NoNul(text) && text != "" && text[0] in "[{" && text[|text| - 1] in "]}"
  {
    hide ElemsText, MembersText;
    var bracket := if d.ArrayDoc? then "]" else "}";
    assert bracket + "" == bracket;
    Plain(bracket);
    if d.ArrayDoc? {
      var inner := ElemsText(d.elems, "", bracket, pf);
      PrependElems(d.elems, "", bracket, bracket, pf);
      Prepend(d.ws, inner, bracket);
      Prepend("[", d.ws + inner, bracket);
    } else {
      var inner := MembersText(d.members, "", bracket, pf);
      PrependMembers(d.members, "", bracket, bracket, pf);
      Prepend(d.ws, inner, bracket);
      Prepend("{", d.ws + inner, bracket);
    }
  }

  lemma OpensContainer(text: string, pf: string -> Option<real>)
    requires text != "" && text[0] in "[{" && Descend(text, pf).Ok?
    ensures IsContainer(Descend(text, pf).value)
  {
    hide Inside, OnlySpace;
  }

  lemma FrontFails(text: string, p: string, more: string, pf: string -> Option<real>)
    requires p + more == text && NoNul(p) && p != "" && p[0] in "[{" && !OnlySpace(more)
    requires Meaning(text, pf).Ok?
    ensures Meaning(p, pf).Fail?
  {
    hide Meaning, Descend, OnlySpace;
    ReaderDescends(p, pf);
    if Meaning(p, pf).Ok? {
      OpensContainer(p, pf);
      NoLongerText(p, more, pf);
    }
  }

  // No proper front of the text of a list or a dict loads.
  lemma CutShort(d: Doc, k: nat, pf: string -> Option<real>)
    requires Legal(d, pf) && (d.ArrayDoc? || d.ObjectDoc?) && k < |Text(d, "", pf)|
    ensures Meaning(Text(d, "", pf)[..k], pf).Fail?
  {
    hide Run, Text, OnlySpace, ReadsAs, Legal;
    var text := Text(d, "", pf);
    EndsInBracket(d, pf);
    if k > 0 {
      assert "" + text == text;
      LoadReadsText("", d, "", pf);
      var more := text[k..];
      assert more[|more| - 1] == text[|text| - 1];
      BracketIsNoSpace(more);
      FrontFails(text, text[..k], more, pf);
    } else {
      NothingOpened("", "", pf);
      assert "" + "" == text[..k];
    }
  }

  lemma BracketIsNoSpace(more: string)
    requires NoNul(more) && more != "" && more[|more| - 1] in "]}"
    ensures !OnlySpace(more)
  {
    assert !(more[|more| - 1] in " \t\n\r\U{b}\U{c}");
  }

  // ---- what is refused wherever it stands

  // A character that can start nothing.
  predicate StartsNothing(c: char) {
    c !in ",: \t\n\rnft\"[]{}-0123456789"
  }

  // In any state of the reader such a character, or the end of the text, is a syntax error.
  lemma StartsNothingFails(rest: string, top: Option<Value>, frames: seq<Frame>, key: Option<Value>,
                           pf: string -> Option<real>)
    requires WellFormed(top, frames) && (rest == "" || StartsNothing(rest[0]))
    ensures Run(rest, top, frames, key, pf) == Fail(SyntaxError)
  {
    hide Run, StringToken, WordToken, NumberToken, WellFormed;
    RunFails(rest, top, frames, key, pf);
  }

  // White space, commas and colons alone are no value, and neither is a bracket that closes
  // nothing.
  lemma NothingOpened(before: string, after: string, pf: string -> Option<real>)
    requires forall i :: 0 <= i < |before| ==> before[i] in " \t\n\r,:"
    requires after == "" || after[0] in "]}" || StartsNothing(after[0])
    ensures Meaning(before + after, pf) == Fail(SyntaxError)
  {
    hide Run;
    RunFails(after, None, [], None, pf);
    if after != "" && after[0] in "]}" {
      RunFirst(after, None, pf);
    }
    SkipSeparators(before, after, None, [], None, pf);
  }

  // A list or a dict cannot be the key of a dict.
  lemma ContainerAsKey(before: string, d: Doc, after: string, entries: seq<Entry>, frames: seq<Frame>,
                       pf: string -> Option<real>)
    requires IsWs(before) && Legal(d, pf) && (d.ArrayDoc? || d.ObjectDoc?)
    requires WellFormed(Some(Dict(entries)), frames)
    ensures Run(before + Text(d, after, pf), Some(Dict(entries)), frames, None, pf) == Fail(SyntaxError)
  {
    hide ElemsText, MembersText;
    SkipSeparators(before, Text(d, after, pf), Some(Dict(entries)), frames, None, pf);
    RunFails(Text(d, after, pf), Some(Dict(entries)), frames, None, pf);
  }

  // The texts that are integers to the reader.
  predicate IsInteger(s: string) {
    var start := if s != "" && s[0] in "+-" then 1 else 0;
    start < |s| && forall i :: start <= i < |s| ==> '0' <= s[i] <= '9'
  }

  lemma {:induction false} DigitsExactly(s: string)
    ensures Digits(s).Some? <==> forall i :: 0 <= i < |s| ==> '0' <= s[i] <= '9'
  {
    if s != "" {
      DigitsExactly(s[..|s| - 1]);
      assert forall i :: 0 <= i < |s| - 1 ==> s[i] == s[..|s| - 1][i];
    }
  }

  lemma ParsesExactly(s: string)
    ensures ParseInteger(s).Some? <==> IsInteger(s)
  {
    var signed := s != "" && s[0] in "+-";
    DigitsExactly(if signed then s[1..] else s);
    assert signed ==> forall i :: 1 <= i < |s| ==> s[i] == s[1..][i - 1];
  }

  // ---- which bytes are UTF-8 to the reader

  // A lead byte and as many continuation bytes as it announces.
  predicate IsCharacter(u: string) {
    && u != ""
    && |u| == (if u[0] < '\U{80}' then 1 else if u[0] < '\U{e0}' then 2 else if u[0] < '\U{f0}' then 3 else 4)
    && !('\U{80}' <= u[0] < '\U{c0}') && u[0] < '\U{f8}'
    && forall i :: 1 <= i < |u| ==> '\U{80}' <= u[i] < '\U{c0}'
  }

  predicate IsUtf8(s: string, parts: seq<string>) {
    s == Concat(parts) && forall i :: 0 <= i < |parts| ==> IsCharacter(parts[i])
  }

  lemma {:induction false} CharacterAccepted(u: string, tail: string)
    requires IsCharacter(u)
    ensures Utf8Check(u + tail, 0) == Utf8Check(tail, 0)
  {
    assert u + tail == [u[0]] + (u[1..] + tail);
    assert (u + tail)[1..] == u[1..] + tail;
    ContinuationsAccepted(u[1..], tail);
  }

  lemma {:induction false} CharactersAccepted(s: string, parts: seq<string>)
    requires IsUtf8(s, parts)
    ensures Utf8Check(s, 0)
    decreases |parts|
  {
    if parts != [] {
      CharactersAccepted(Concat(parts[1..]), parts[1..]);
      CharacterAccepted(parts[0], Concat(parts[1..]));
    }
  }

  // What is still needed comes first, then whole characters.
  lemma {:induction false} AcceptedSplits(s: string, need: nat) returns (parts: seq<string>)
    requires Utf8Check(s, need)
    ensures need <= |s| && forall i :: 0 <= i < need ==> '\U{80}' <= s[i] < '\U{c0}'
    ensures IsUtf8(s[need..], parts)
  {
    if s == "" {
      parts := [];
    } else if need > 0 {
      parts := AcceptedSplits(s[1..], need - 1);
      assert s[1..][need - 1..] == s[need..];
      assert forall i :: 1 <= i < need ==> s[i] == s[1..][i - 1];
    } else {
      var k := Announced(s[0]);
      var more := AcceptedSplits(s[1..], k);
      parts := [s[..k + 1]] + more;
      var lead := s[..k + 1];
      assert forall i :: 1 <= i < k + 1 ==> lead[i] == s[1..][i - 1];
      assert s[1..][k..] == s[k + 1..];
      assert s == s[..k + 1] + s[k + 1..];
      assert parts[1..] == more;
    }
  }

  lemma CheckedUtf8(s: string)
    ensures Utf8Check(s, 0) <==> exists parts :: IsUtf8(s, parts)
  {
    if Utf8Check(s, 0) {
      var parts := AcceptedSplits(s, 0);
      assert s[0..] == s;
    }
    if parts :| IsUtf8(s, parts) {
      CharactersAccepted(s, parts);
    }
  }

  // Any bytes between quotes, if there is no quote, no backslash and no NUL among them, are
  // the string of those bytes when they are characters, and otherwise no string.
  lemma RawString(before: string, s: string, after: string, pf: string -> Option<real>)
    requires IsWs(before) && OnlySpace(after)
    requires forall i :: 0 <= i < |s| ==> s[i] != '"' && s[i] != '\\' && s[i] != '\0'
    ensures Meaning(before + ("\"" + (s + ("\"" + after))), pf)
         == if exists parts :: IsUtf8(s, parts) then Ok(Str(s)) else Fail(UnicodeError)
  {
    hide Run, Utf8Check, IsUtf8, OnlySpace;
    var body := s + ("\"" + after);
    SkipSeparators(before, "\"" + body, None, [], None, pf);
    PlainBytes(s, "\"" + after, "");
    assert "" + s == s && ("\"" + body)[1..] == body && ("\"" + after)[1..] == after;
    CheckedUtf8(s);
    FinishExactly(after, Str(s));
    RunFirst("\"" + body, None, pf);
    RunFails("\"" + body, None, [], None, pf);
  }

  // ---- escapes that are not legal

  lemma {:induction false} BitOrBits(a: nat, b: nat, k: nat)
    ensures Bit(BitOr(a, b), k) <==> Bit(a, k) || Bit(b, k)
  {
    if a == 0 || b == 0 {
      NoBits(k);
    } else if k > 0 {
      BitOrBits(a / 2, b / 2, k - 1);
    }
  }

  lemma {:induction false} NoBits(k: nat)
    ensures !Bit(0, k)
  {
    if k > 0 {
      NoBits(k - 1);
    }
  }

  // A backslash in front of any character but 'u' gives one byte: the control character that
  // the letter stands for, or the character itself.
  lemma AnyEscape(c: char, tail: string, acc: string)
    requires c != 'u'
    ensures var meaning := if c == 'b' then 8 else if c == 'f' then 12 else if c == 'n' then 10
                           else if c == 'r' then 13 else if c == 't' then 9 else c as int;
            StringBody(['\\', c] + tail, acc) == StringBody(tail, acc + [meaning as char])
  {
    var rest := ['\\', c] + tail;
    assert Adv(rest) == [c] + tail && Adv(Adv(rest)) == tail;
    assert StringStep(rest) == ([UnescapeShort(c)], tail);
  }

  // ---- a key that outlives its dict

  // A dict that closes with a key pending, and a dict opened with that key.
  lemma KeyStaysPending(rest: string, key: Value, pf: string -> Option<real>)
    requires rest != "" && rest[0] == '}'
    ensures Inside(rest, Dict([]), Some(key), pf) == Ok(Part(Dict([]), rest[1..], Some(key)))
  {
  }

  lemma KeyIsUsed(tail: string, key: Value, pf: string -> Option<real>)
    requires tail != "" && tail[0] == '}'
    ensures Inside("1" + tail, Dict([]), Some(key), pf) == Ok(Part(Dict([Entry(key, Int(1))]), tail[1..], None))
  {
    hide NextToken;
    OneDigit(tail, pf);
    assert "}" + tail[1..] == tail;
    OneBracket("}", tail[1..], pf);
    assert DictStore([], key, Int(1)) == [Entry(key, Int(1))];
  }

  lemma KeyAlone(tail: string, pf: string -> Option<real>)
    requires tail != "" && tail[0] == '}'
    ensures Inside("\"" + ("a" + ("\"" + tail)), Dict([]), None, pf)
         == Ok(Part(Dict([]), tail[1..], Some(Str("a"))))
  {
    hide NextToken, Inside;
    var rest := "\"" + ("a" + ("\"" + tail));
    OneName("a", tail, pf);
    InsideLeaf(rest, Str("a"), tail, Dict([]), None, pf);
    KeyStaysPending(tail, Str("a"), pf);
  }

  // [{"a"}{1}] loads, and the key of the first dict is used in the second.
  lemma KeyCarriedOver(pf: string -> Option<real>)
    ensures Meaning("[{\"a\"}{1}]", pf) == Ok(List([Dict([]), Dict([Entry(Str("a"), Int(1))])]))
  {
    hide Meaning;
    var t7 := "]" + "";
    var t6 := "}" + t7;
    var t3 := "}" + ("{" + ("1" + t6));
    var t2 := "\"" + ("a" + ("\"" + t3));
    assert "[{\"a\"}{1}]" == "[" + ("{" + t2);
    KeyCarried(t2, t3, t6, t7, pf);
  }

  lemma KeyCarried(t2: string, t3: string, t6: string, t7: string, pf: string -> Option<real>)
    requires t7 == "]" + "" && t6 == "}" + t7 && t3 == "}" + ("{" + ("1" + t6)) && t2 == "\"" + ("a" + ("\"" + t3))
    ensures Meaning("[" + ("{" + t2), pf) == Ok(List([Dict([]), Dict([Entry(Str("a"), Int(1))])]))
  {
    hide NextToken, Inside;
    var key := Str("a");
    var t5 := "1" + t6;
    var t4 := "{" + t5;
    ReaderDescends("[" + ("{" + t2), pf);
    OneBracket("[", "{" + t2, pf);
    assert t3[1..] == t4 && t6[1..] == t7;
    KeyAlone(t3, pf);
    KeyIsUsed(t6, key, pf);
    OneBracket("]", "", pf);
    OneBracket("{", t5, pf);
    OneBracket("{", t2, pf);
    var second := Dict([Entry(key, Int(1))]);
    InsideClose(t7, "", List([Dict([]), second]), None, pf);
    InsideOpen(t4, t5, List([Dict([])]), Some(key), pf);
    InsideOpen("{" + t2, t2, List([]), None, pf);
    assert [Dict([])] + [second] == [Dict([]), second] && [] + [Dict([])] == [Dict([])];
    assert Inside("{" + t2, Empty(true), None, pf) == Ok(Part(List([Dict([]), second]), "", None));
    assert SpaceTo("", 0);
  }

  lemma InsideLeaf(rest: string, v: Value, tail: string, cont: Value, key: Option<Value>, pf: string -> Option<real>)
    requires rest != "" && rest[0] != '\0' && NextToken(rest, pf) == Leaf(v, tail) && cont.Dict? && key.None?
    ensures Inside(rest, cont, key, pf) == Inside(tail, cont, Some(v), pf)
  {
  }

  lemma InsideClose(rest: string, tail: string, cont: Value, key: Option<Value>, pf: string -> Option<real>)
    requires rest != "" && rest[0] != '\0' && NextToken(rest, pf) == Close(tail) && IsContainer(cont)
    ensures Inside(rest, cont, key, pf) == Ok(Part(cont, tail, key))
  {
  }

  lemma InsideOpen(rest: string, tail: string, cont: Value, key: Option<Value>, pf: string -> Option<real>)
    requires rest != "" && rest[0] != '\0' && NextToken(rest, pf) == Open(false, tail)
    requires cont.List? && Inside(tail, Dict([]), key, pf).Ok?
    ensures var p := Inside(tail, Dict([]), key, pf).value;
            Inside(rest, cont, key, pf) == Inside(p.rest, List(cont.items + [p.cont]), p.key, pf)
  {
  }

  lemma OneName(name: string, tail: string, pf: string -> Option<real>)
    requires name == "a"
    ensures NextToken("\"" + (name + ("\"" + tail)), pf) == Leaf(Str(name), tail)
  {
    var rest := name + ("\"" + tail);
    assert ("\"" + rest)[1..] == rest;
    PlainBytes(name, "\"" + tail, "");
    assert "" + name == name && ("\"" + tail)[1..] == tail;
    CharacterAccepted(name, "");
    assert name + "" == name;
  }

  lemma OneDigit(tail: string, pf: string -> Option<real>)
    requires EndsNumber(tail)
    ensures NextToken("1" + tail, pf) == Leaf(Int(1), tail)
  {
    assert PrintNat(1) == "1";
    IntTokenReads(false, 1, tail, pf);
  }

  lemma OneBracket(b: string, tail: string, pf: string -> Option<real>)
    requires b in {"[", "]", "{", "}"}
    ensures NextToken(b + tail, pf) == if b in {"[", "{"} then Open(b == "[", tail) else Close(tail)
  {
    assert (b + tail)[1..] == tail;
  }
}
