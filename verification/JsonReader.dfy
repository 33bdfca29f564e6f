/**
  What a text means to the non-recursive JSON reader: its tokens, and its run over values with a
  stack of the open containers.
 */
module JsonReader {
  import opened JsonValue
  import opened Wrappers

  datatype Error = SyntaxError | UnicodeError | NumberError

  datatype Outcome<+T> = Ok(value: T) | Fail(error: Error)

  // ---- the character stream: `rest` is everything from the current character on

  // End of input reads as a NUL, so a NUL in the input reads as end of input.
  function Cur(rest: string): char {
    if rest == "" then '\0' else rest[0]
  }

  function Adv(rest: string): string {
    if rest == "" then "" else rest[1..]
  }

  // ---- tokens

  datatype Token =
    | Skip(rest: string)
    | Leaf(v: Value, rest: string)
    | Open(isList: bool, rest: string)
    | Close(rest: string)
    | Bad(error: Error)

  predicate IsNumberChar(c: char) {
    c == '.' || c == 'E' || c == 'e' || c == '+' || c == '-' || IsDigit(c)
  }

  predicate IsFloatChar(c: char) {
    c == '.' || c == 'E' || c == 'e'
  }

  function BitOr(a: nat, b: nat): (r: nat)
    ensures r <= a + b
    decreases a + b
  {
    if a == 0 then b
    else if b == 0 then a
    else 2 * BitOr(a / 2, b / 2) + (if a % 2 == 1 || b % 2 == 1 then 1 else 0)
  }

  // One character of a \u escape, in byte arithmetic. Letters of either case and digits give
  // their value; any other character gives some byte.
  function HexDigit(c: char): (d: nat)
    ensures d < 256
  {
    var low := c as int % 256;
    var lower := if low / 32 % 2 == 1 then low else low + 32;
    var d := (lower + 256 - '0' as int) % 256;
    if d > 9 then (d + 256 - ('a' as int - ('9' as int + 1))) % 256 else d
  }

  function AddHexDigit(num: nat, c: char): (r: nat)
    ensures r <= 16 * num + 255
  {
    BitOr(16 * num, HexDigit(c))
  }

  function UnescapeShort(c: char): char {
    match c
    case 'b' => '\U{8}'
    case 'f' => '\U{c}'
    case 'n' => '\n'
    case 'r' => '\r'
    case 't' => '\t'
    case _ => c
  }

  // The value of the \u escape whose 'u' is the current character.
  function HexEscape(rest: string): (num: nat)
    ensures num < 0x110000
  {
    var r1 := Adv(rest);
    var r2 := Adv(r1);
    var r3 := Adv(r2);
    var r4 := Adv(r3);
    AddHexDigit(AddHexDigit(AddHexDigit(AddHexDigit(0, Cur(r1)), Cur(r2)), Cur(r3)), Cur(r4))
  }

  // One round of the string loop: the bytes it appends and where it stops.
  function StringStep(rest: string): (r: (string, string))
    requires Cur(rest) != '\0' && Cur(rest) != '"'
    ensures |r.1| < |rest|
  {
    if Cur(rest) != '\\' then ([Cur(rest)], Adv(rest))
    else
      var rest1 := Adv(rest);
      if Cur(rest1) == 'u' then (Utf8(HexEscape(rest1)), Adv(Adv(Adv(Adv(Adv(rest1))))))
      else ([UnescapeShort(Cur(rest1))], Adv(rest1))
  }

  // The body of a string up to its closing quote or the end of input.
  function StringBody(rest: string, acc: string): (r: (string, string))
    ensures |r.1| <= |rest|
    decreases |rest|
  {
    if Cur(rest) == '\0' || Cur(rest) == '"' then (acc, rest)
    else
      var (bytes, rest1) := StringStep(rest);
      StringBody(rest1, acc + bytes)
  }

  function StringToken(rest: string): Token {
    var (bytes, rest1) := StringBody(rest, "");
    if Cur(rest1) == '\0' then Bad(SyntaxError)
    else if !Utf8Check(bytes, 0) then Bad(UnicodeError)
    else Leaf(Str(bytes), Adv(rest1))
  }

  function NumberText(rest: string): (n: nat)
    ensures n <= |rest|
    ensures forall i :: 0 <= i < n ==> IsNumberChar(rest[i])
    ensures !IsNumberChar(Cur(rest[n..]))
  {
    if IsNumberChar(Cur(rest)) then 1 + NumberText(rest[1..]) else 0
  }

  predicate HasFloatChar(s: string) {
    exists i :: 0 <= i < |s| && IsFloatChar(s[i])
  }

  // A number whose first character has been consumed; pf is the float parser.
  function NumberToken(first: char, rest: string, pf: string -> Option<real>): Token {
    var n := NumberText(rest);
    var text := [first] + rest[..n];
    if HasFloatChar(rest[..n]) then
      match pf(text)
      case None => Bad(NumberError)
      case Some(r) => Leaf(Float(r), rest[n..])
    else
      match ParseInteger(text)
      case None => Bad(NumberError)
      case Some(i) => Leaf(Int(i), rest[n..])
  }

  function WordToken(word: string, v: Value, rest: string): Token {
    if word <= rest then Leaf(v, rest[|word|..]) else Bad(SyntaxError)
  }

  function NextToken(rest: string, pf: string -> Option<real>): (t: Token)
    requires rest != ""
    ensures !t.Bad? ==> |t.rest| < |rest|
  {
    var rest1 := rest[1..];
    match rest[0]
    case ',' => Skip(rest1)
    case ':' => Skip(rest1)
    case ' ' => Skip(rest1)
    case '\t' => Skip(rest1)
    case '\n' => Skip(rest1)
    case '\r' => Skip(rest1)
    case 'n' => WordToken("ull", Null, rest1)
    case 'f' => WordToken("alse", Bool(false), rest1)
    case 't' => WordToken("rue", Bool(true), rest1)
    case '"' => StringToken(rest1)
    case '[' => Open(true, rest1)
    case '{' => Open(false, rest1)
    case '}' => Close(rest1)
    case ']' => Close(rest1)
    case c => if c == '-' || IsDigit(c) then NumberToken(c, rest1, pf) else Bad(SyntaxError)
  }

  // ---- what a text means: the open containers, innermost last

  // An enclosing container as it was before the container nested in it was opened, and the
  // dict key that one is stored under.
  datatype Frame = Frame(cont: Value, key: Option<Value>)

  predicate IsContainer(v: Value) {
    v.List? || v.Dict?
  }

  function Empty(isList: bool): (v: Value)
    ensures IsContainer(v)
  {
    if isList then List([]) else Dict([])
  }

  function Put(cont: Value, key: Option<Value>, v: Value): (r: Value)
    requires IsContainer(cont) && (cont.Dict? ==> key.Some?)
    ensures IsContainer(r) && (r.List? <==> cont.List?)
  {
    match cont
    case List(items) => List(items + [v])
    case Dict(entries) => Dict(DictStore(entries, key.value, v))
  }

  predicate WellFormed(top: Option<Value>, frames: seq<Frame>) {
    && (top.Some? ==> IsContainer(top.value))
    && (top.None? ==> frames == [])
    && forall i :: 0 <= i < |frames| ==>
         IsContainer(frames[i].cont) && (frames[i].cont.Dict? <==> frames[i].key.Some?)
  }

  predicate IsSpace(c: char) {
    9 <= c as int <= 13 || c == ' '
  }

  function Finish(rest: string, v: Value): Outcome<Value> {
    if IsSpace(Cur(rest)) then Finish(rest[1..], v)
    else if Cur(rest) == '\0' then Ok(v) else Fail(SyntaxError)
  }

  function Run(rest: string, top: Option<Value>, frames: seq<Frame>, key: Option<Value>,
               pf: string -> Option<real>): Outcome<Value>
    requires WellFormed(top, frames)
    decreases |rest|
  {
    if Cur(rest) == '\0' then Fail(SyntaxError)
    else match NextToken(rest, pf)
      case Bad(error) => Fail(error)
      case Skip(r) => Run(r, top, frames, key, pf)
      case Close(r) =>
        if top.None? then Fail(SyntaxError)
        else if frames == [] then Finish(r, top.value)
        else
          var f := frames[|frames| - 1];
          Run(r, Some(Put(f.cont, f.key, top.value)), frames[..|frames| - 1], key, pf)
      case Leaf(v, r) =>
        if top.None? then Finish(r, v)
        else if top.value.Dict? && key.None? then Run(r, top, frames, Some(v), pf)
        else
          Run(r, Some(Put(top.value, key, v)), frames, if top.value.Dict? then None else key, pf)
      case Open(isList, r) =>
        if top.None? then Run(r, Some(Empty(isList)), frames, key, pf)
        else if top.value.Dict? && key.None? then Fail(SyntaxError)
        else
          var own := if top.value.Dict? then key else None;
          Run(r, Some(Empty(isList)), frames + [Frame(top.value, own)],
              if top.value.Dict? then None else key, pf)
  }

  // What loading a text gives.
  function Meaning(text: string, pf: string -> Option<real>): Outcome<Value> {
    Run(text, None, [], None, pf)
  }

  // ---- one token at a time

  lemma RunLeaf(rest: string, v: Value, tail: string, top: Value, frames: seq<Frame>, key: Option<Value>,
                pf: string -> Option<real>)
    requires WellFormed(Some(top), frames)
    requires Cur(rest) != '\0' && NextToken(rest, pf) == Leaf(v, tail)
    ensures Run(rest, Some(top), frames, key, pf) ==
            if top.Dict? && key.None? then Run(tail, Some(top), frames, Some(v), pf)
            else Run(tail, Some(Put(top, key, v)), frames, if top.Dict? then None else key, pf)
  {
  }

  lemma RunOpen(rest: string, isList: bool, tail: string, top: Value, frames: seq<Frame>, key: Option<Value>,
                pf: string -> Option<real>)
    requires WellFormed(Some(top), frames) && !(top.Dict? && key.None?)
    requires Cur(rest) != '\0' && NextToken(rest, pf) == Open(isList, tail)
    ensures var own := if top.Dict? then key else None;
            WellFormed(Some(Empty(isList)), frames + [Frame(top, own)])
            && Run(rest, Some(top), frames, key, pf)
            == Run(tail, Some(Empty(isList)), frames + [Frame(top, own)], if top.Dict? then None else key, pf)
  {
  }

  lemma RunClose(rest: string, tail: string, top: Value, frames: seq<Frame>, key: Option<Value>,
                 pf: string -> Option<real>)
    requires WellFormed(Some(top), frames)
    requires Cur(rest) != '\0' && NextToken(rest, pf) == Close(tail)
    ensures Run(rest, Some(top), frames, key, pf) ==
            if frames == [] then Finish(tail, top)
            else
              var f := frames[|frames| - 1];
              Run(tail, Some(Put(f.cont, f.key, top)), frames[..|frames| - 1], key, pf)
  {
  }

  lemma RunSkip(rest: string, tail: string, top: Option<Value>, frames: seq<Frame>, key: Option<Value>,
                pf: string -> Option<real>)
    requires WellFormed(top, frames)
    requires Cur(rest) != '\0' && NextToken(rest, pf) == Skip(tail)
    ensures Run(rest, top, frames, key, pf) == Run(tail, top, frames, key, pf)
  {
  }

  lemma RunFirst(rest: string, key: Option<Value>, pf: string -> Option<real>)
    requires Cur(rest) != '\0'
    ensures var t := NextToken(rest, pf);
            && (t.Leaf? ==> Run(rest, None, [], key, pf) == Finish(t.rest, t.v))
            && (t.Open? ==> Run(rest, None, [], key, pf) == Run(t.rest, Some(Empty(t.isList)), [], key, pf))
            && (t.Close? ==> Run(rest, None, [], key, pf) == Fail(SyntaxError))
  {
  }

  lemma RunFails(rest: string, top: Option<Value>, frames: seq<Frame>, key: Option<Value>,
                 pf: string -> Option<real>)
    requires WellFormed(top, frames)
    ensures Cur(rest) == '\0' ==> Run(rest, top, frames, key, pf) == Fail(SyntaxError)
    ensures Cur(rest) != '\0' && NextToken(rest, pf).Bad? ==>
              Run(rest, top, frames, key, pf) == Fail(NextToken(rest, pf).error)
    ensures Cur(rest) != '\0' && NextToken(rest, pf).Open? && top.Some? && top.value.Dict? && key.None? ==>
              Run(rest, top, frames, key, pf) == Fail(SyntaxError)
  {
  }
}
