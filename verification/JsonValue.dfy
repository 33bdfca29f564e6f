/** The Python objects a JSON reader builds, UTF-8, and the number syntax it accepts. */
module JsonValue {
  import opened Wrappers

  // None, bool, int, float, str, list and dict. A str is the sequence of its UTF-8 bytes,
  // and a byte is a char below 256. A dict keeps its entries in insertion order.
  datatype Value =
    | Null
    | Bool(b: bool)
    | Int(n: int)
    | Float(r: real)
    | Str(s: string)
    | List(items: seq<Value>)
    | Dict(entries: seq<Entry>)

  datatype Entry = Entry(key: Value, val: Value)

  predicate IsNumber(v: Value) {
    v.Bool? || v.Int? || v.Float?
  }

  function Numeric(v: Value): real
    requires IsNumber(v)
  {
    match v
    case Bool(b) => if b then 1.0 else 0.0
    case Int(n) => n as real
    case Float(r) => r
  }

  // Python's equality on the keys a JSON text can produce: True == 1 == 1.0.
  predicate KeyEq(a: Value, b: Value) {
    if IsNumber(a) && IsNumber(b) then Numeric(a) == Numeric(b) else a == b
  }

  // The position at which a key is found, or the length if there is none.
  function FindKey(keys: seq<Value>, key: Value): (i: nat)
    ensures i <= |keys|
    ensures i < |keys| ==> KeyEq(keys[i], key)
    ensures forall j :: 0 <= j < i ==> !KeyEq(keys[j], key)
  {
    if keys == [] then 0
    else if KeyEq(keys[0], key) then 0
    else 1 + FindKey(keys[1..], key)
  }

  function Keys(entries: seq<Entry>): seq<Value> {
    seq(|entries|, i requires 0 <= i < |entries| => entries[i].key)
  }

  // Assigning to a key that is already there keeps the old key object and its position.
  function DictStore(entries: seq<Entry>, key: Value, val: Value): seq<Entry> {
    var i := FindKey(Keys(entries), key);
    if i < |entries| then entries[i := Entry(entries[i].key, val)] else entries + [Entry(key, val)]
  }

  // The value a dict gives for a key.
  function Lookup(entries: seq<Entry>, key: Value): Option<Value> {
    if entries == [] then None
    else if KeyEq(entries[0].key, key) then Some(entries[0].val)
    else Lookup(entries[1..], key)
  }

  lemma {:induction false} LookupFinds(entries: seq<Entry>, key: Value)
    ensures var i := FindKey(Keys(entries), key);
            Lookup(entries, key) == if i < |entries| then Some(entries[i].val) else None
  {
    if entries != [] {
      assert Keys(entries)[1..] == Keys(entries[1..]);
      LookupFinds(entries[1..], key);
    }
  }

  lemma {:induction false} LookupAppended(entries: seq<Entry>, e: Entry, key: Value)
    ensures Lookup(entries + [e], key) ==
            if Lookup(entries, key).Some? then Lookup(entries, key)
            else if KeyEq(e.key, key) then Some(e.val) else None
  {
    if entries == [] {
      assert entries + [e] == [e];
    } else {
      assert (entries + [e])[1..] == entries[1..] + [e];
      LookupAppended(entries[1..], e, key);
    }
  }

  lemma {:induction false} LookupReplaced(entries: seq<Entry>, i: nat, val: Value, key: Value)
    requires i < |entries| && forall j :: 0 <= j < i ==> !KeyEq(entries[j].key, entries[i].key)
    ensures Lookup(entries[i := Entry(entries[i].key, val)], key) ==
            if FindKey(Keys(entries), key) == i then Some(val) else Lookup(entries, key)
  {
    var entries' := entries[i := Entry(entries[i].key, val)];
    assert Keys(entries') == Keys(entries);
    LookupFinds(entries, key);
    LookupFinds(entries', key);
  }

  // Keys equal to the same key are equal: a number is never equal to anything else, and two
  // numbers are equal by value, whatever their types.
  lemma KeyEqIsEquivalence(a: Value, b: Value, c: Value)
    ensures KeyEq(a, a) && (KeyEq(a, b) <==> KeyEq(b, a))
    ensures KeyEq(a, b) && KeyEq(b, c) ==> KeyEq(a, c)
    ensures KeyEq(Bool(true), Int(1)) && KeyEq(Int(1), Float(1.0)) && KeyEq(Bool(false), Int(0))
    ensures !KeyEq(Int(1), Str("1")) && !KeyEq(Null, Int(0))
  {
  }

  // After a store the key gives the value stored, every other key what it gave before, and
  // the keys and their order change only by a key that was not there, which comes last.
  lemma StoreThenLookup(entries: seq<Entry>, key: Value, val: Value, other: Value)
    ensures var stored := DictStore(entries, key, val);
            && Lookup(stored, key) == Some(val)
            && (!KeyEq(key, other) ==> Lookup(stored, other) == Lookup(entries, other))
            && Keys(stored) == if Lookup(entries, key).Some? then Keys(entries) else Keys(entries) + [key]
  {
    hide KeyEq;
    LookupFinds(entries, key);
    var i := FindKey(Keys(entries), key);
    if i < |entries| {
      var found := entries[i].key;
      KeyEqIsEquivalence(found, key, other);
      KeyEqIsEquivalence(key, found, other);
      assert forall j :: 0 <= j < i ==> !KeyEq(entries[j].key, found) by {
        forall j | 0 <= j < i ensures !KeyEq(entries[j].key, found) {
          assert !KeyEq(Keys(entries)[j], key);
          KeyEqIsEquivalence(entries[j].key, found, key);
        }
      }
      LookupReplaced(entries, i, val, key);
      LookupReplaced(entries, i, val, other);
      if FindKey(Keys(entries), other) == i {
        KeyEqIsEquivalence(key, found, other);
      }
    } else {
      KeyEqIsEquivalence(key, key, other);
      LookupAppended(entries, Entry(key, val), key);
      LookupAppended(entries, Entry(key, val), other);
    }
  }

  // ---- UTF-8, as vstr_add_char and utf8_check have it

  function Utf8(c: nat): (s: string)
    requires c < 0x110000
    ensures 1 <= |s| <= 4
  {
    if c < 0x80 then [c as char]
    else if c < 0x800 then [(c / 64 + 0xC0) as char, (c % 64 + 0x80) as char]
    else if c < 0x10000 then
      [(c / 4096 + 0xE0) as char, (c / 64 % 64 + 0x80) as char, (c % 64 + 0x80) as char]
    else
      [(c / 262144 + 0xF0) as char, (c / 4096 % 64 + 0x80) as char,
       (c / 64 % 64 + 0x80) as char, (c % 64 + 0x80) as char]
  }

  // The character number in the bits of a sequence of one to four bytes, as in section 3 of
  // RFC 3629.
  function CodePoint(u: string): int
    requires 1 <= |u| <= 4
  {
    match |u|
    case 1 => u[0] as int
    case 2 => (u[0] as int - 0xC0) * 0x40 + (u[1] as int - 0x80)
    case 3 => (u[0] as int - 0xE0) * 0x1000 + (u[1] as int - 0x80) * 0x40 + (u[2] as int - 0x80)
    case _ =>
      (u[0] as int - 0xF0) * 0x4_0000 + (u[1] as int - 0x80) * 0x1000 + (u[2] as int - 0x80) * 0x40
      + (u[3] as int - 0x80)
  }

  lemma Utf8Exactly(c: nat)
    requires c < 0x110000
    ensures CodePoint(Utf8(c)) == c
    ensures |Utf8(c)| == if c < 0x80 then 1 else if c < 0x800 then 2 else if c < 0x10000 then 3 else 4
    ensures forall i :: 1 <= i < |Utf8(c)| ==> 0x80 <= Utf8(c)[i] as int < 0xC0
  {
    var a := c / 64;
    assert c / 4096 == a / 64 && c / 262144 == a / 64 / 64;
    assert c == 64 * a + c % 64 && a == 64 * (a / 64) + a % 64;
    if c >= 0x10000 {
      assert a / 64 == 64 * (a / 64 / 64) + a / 64 % 64;
    }
  }

  predicate IsContinuation(c: char) {
    0x80 <= c as int < 0xC0
  }

  // The number of continuation bytes a byte announces; a negative number for a byte that
  // cannot start a character.
  function Announced(c: char): int {
    if c as int < 0x80 then 0
    else if c as int < 0xC0 || c as int >= 0xF8 then -1
    else if c as int < 0xE0 then 1
    else if c as int < 0xF0 then 2
    else 3
  }

  predicate Utf8Check(s: string, need: nat) {
    if s == "" then need == 0
    else if need > 0 then IsContinuation(s[0]) && Utf8Check(s[1..], need - 1)
    else Announced(s[0]) >= 0 && Utf8Check(s[1..], Announced(s[0]))
  }

  // A valid encoding in front of a string does not change whether the string passes.
  lemma Utf8Accepted(c: nat, tail: string)
    requires c < 0x110000
    ensures Utf8Check(Utf8(c) + tail, 0) == Utf8Check(tail, 0)
  {
    var u := Utf8(c);
    assert u + tail == [u[0]] + (u[1..] + tail);
    assert Utf8Check(u + tail, 0) == Utf8Check(u[1..] + tail, |u| - 1);
    ContinuationsAccepted(u[1..], tail);
  }

  lemma {:induction false} ContinuationsAccepted(u: string, tail: string)
    requires forall i :: 0 <= i < |u| ==> IsContinuation(u[i])
    ensures Utf8Check(u + tail, |u|) == Utf8Check(tail, 0)
  {
    if u == "" {
      assert u + tail == tail;
    } else {
      assert (u + tail)[1..] == u[1..] + tail;
      ContinuationsAccepted(u[1..], tail);
    }
  }

  // ---- integers in base 10

  predicate IsDigit(c: char) {
    '0' <= c <= '9'
  }

  function Digits(s: string): Option<nat> {
    if s == "" then Some(0)
    else if !IsDigit(s[|s| - 1]) then None
    else match Digits(s[..|s| - 1])
      case None => None
      case Some(n) => Some(10 * n + (s[|s| - 1] as int - '0' as int))
  }

  function Pow10(n: nat): nat {
    if n == 0 then 1 else 10 * Pow10(n - 1)
  }

  lemma DigitsSnoc(s: string, c: char)
    ensures Digits(s + [c]) ==
            if IsDigit(c) && Digits(s).Some? then Some(10 * Digits(s).value + (c as int - '0' as int)) else None
  {
    assert (s + [c])[..|s|] == s;
  }

  lemma TenTimes(d: nat, p: nat)
    ensures 10 * (d * p) == d * (10 * p)
  {
  }

  // A digit counts as a power of ten for each digit behind it.
  lemma {:induction false} FirstDigit(c: char, s: string)
    requires IsDigit(c) && Digits(s).Some?
    ensures Digits([c] + s) == Some((c as int - '0' as int) * Pow10(|s|) + Digits(s).value)
  {
    hide Digits, IsDigit;
    NoDigits();
    if s == "" {
      DigitsSnoc("", c);
      assert [c] + s == "" + [c];
    } else {
      var front, last := s[..|s| - 1], s[|s| - 1];
      assert s == front + [last] && [c] + s == ([c] + front) + [last];
      DigitsSnoc(front, last);
      DigitsSnoc([c] + front, last);
      FirstDigit(c, front);
      OneDigit(c);
      TenTimes(c as int - '0' as int, Pow10(|front|));
    }
  }

  lemma NoDigits()
    ensures Digits("") == Some(0)
  {
  }

  lemma OneDigit(c: char)
    requires IsDigit(c)
    ensures 0 <= c as int - '0' as int <= 9
  {
  }

  // What the integer parser makes of a text of digits and signs: an optional sign, then
  // nothing but digits, at least one.
  function ParseInteger(s: string): Option<int> {
    var signed := s != "" && (s[0] == '+' || s[0] == '-');
    var body := if signed then s[1..] else s;
    if body == "" then None
    else match Digits(body)
      case None => None
      case Some(n) => Some(if s[0] == '-' then -(n as int) else n)
  }

  function PrintNat(n: nat): (s: string)
    ensures s != "" && forall i :: 0 <= i < |s| ==> IsDigit(s[i])
  {
    var d := [(n % 10 + '0' as int) as char];
    if n < 10 then d else PrintNat(n / 10) + d
  }

  function PrintInteger(n: int): string {
    if n < 0 then "-" + PrintNat(-n) else PrintNat(n)
  }

  lemma {:induction false} DigitsInvertPrint(n: nat)
    ensures Digits(PrintNat(n)) == Some(n)
  {
    var s := PrintNat(n);
    if n >= 10 {
      DigitsInvertPrint(n / 10);
      assert s[..|s| - 1] == PrintNat(n / 10);
    } else {
      assert s[..|s| - 1] == "";
    }
  }

  lemma ParseInvertsPrint(n: int)
    ensures ParseInteger(PrintInteger(n)) == Some(n)
  {
    DigitsInvertPrint(if n < 0 then -n else n);
    var s := PrintInteger(n);
    if n < 0 {
      assert s[1..] == PrintNat(-n);
    } else {
      assert IsDigit(s[0]);
    }
  }
}
