/** Base64 as binascii encodes it and, tolerantly, decodes it (section 4 of RFC 4648). */
module Base64 {
  import opened Arith
  import opened Bits
  import opened Sequences
  import opened Wrappers

  // ---- the alphabet

  type Sextet = v: int | 0 <= v < 64

  // A sextet or padding.
  type Numeral = v: int | 0 <= v <= 64

  const PAD: Numeral := 64
  const EQUALS: Byte := '=' as int
  const NEWLINE: Byte := '\n' as int

  function Letter(v: Numeral): Byte {
    if v < 26 then v + 'A' as int
    else if v < 52 then v + ('a' as int - 26)
    else if v < 62 then v + ('0' as int - 52)
    else if v == 62 then '+' as int
    else if v == 63 then '/' as int
    else EQUALS
  }

  // mod_binascii_sextet; -1 for a byte outside the alphabet.
  function SextetOf(ch: Byte): (v: int)
    ensures -1 <= v < 64
  {
    if 'A' as int <= ch <= 'Z' as int then ch - 'A' as int
    else if 'a' as int <= ch <= 'z' as int then ch - 'a' as int + 26
    else if '0' as int <= ch <= '9' as int then ch - '0' as int + 52
    else if ch == '+' as int then 62
    else if ch == '/' as int then 63
    else -1
  }

  // The two are inverse, and no letter is the pad character.
  lemma LettersRoundTrip(v: Sextet, ch: Byte)
    ensures SextetOf(Letter(v)) == v && Letter(v) != EQUALS
    ensures SextetOf(ch) >= 0 ==> Letter(SextetOf(ch)) == ch
    ensures SextetOf(EQUALS) == -1
  {
  }

  // The alphabet of table 1 of RFC 4648, in its order.
  const ALPHABET := Capitals() + Smalls() + Others()

  function Capitals(): string {
    "ABCDEFGHIJKLMNOPQRSTUVWXYZ"
  }

  function Smalls(): string {
    "abcdefghijklmnopqrstuvwxyz"
  }

  function Others(): string {
    "0123456789+/"
  }

  lemma CapitalAt(v: nat)
    requires v < 26
    ensures |Capitals()| == 26 && Capitals()[v] as int == v + 'A' as int
  {
  }

  lemma SmallAt(v: nat)
    requires v < 26
    ensures |Smalls()| == 26 && Smalls()[v] as int == v + 'a' as int
  {
  }

  lemma OtherAt(v: nat)
    requires v < 12
    ensures |Others()| == 12
    ensures Others()[v] as int == if v < 10 then v + '0' as int else if v == 10 then '+' as int else '/' as int
  {
  }

  lemma AlphabetOrder(v: Sextet, ch: Byte)
    ensures |ALPHABET| == 64 && Letter(v) == ALPHABET[v] as int && Letter(PAD) == '=' as int
    ensures SextetOf(ch) >= 0 ==> ALPHABET[SextetOf(ch)] as int == ch
    ensures SextetOf(ch) == -1 ==> ALPHABET[v] as int != ch
  {
    hide Capitals, Smalls, Others;
    LetterAt(v);
    LettersRoundTrip(v, ch);
    if SextetOf(ch) >= 0 {
      LetterAt(SextetOf(ch));
    }
  }

  lemma LetterAt(v: Sextet)
    ensures |ALPHABET| == 64 && Letter(v) == ALPHABET[v] as int
  {
    hide Capitals, Smalls, Others;
    CapitalAt(if v < 26 then v else 0);
    SmallAt(if 26 <= v < 52 then v - 26 else 0);
    OtherAt(if 52 <= v then v - 52 else 0);
  }

  // ---- encoding

  // Digit j of four in base 64 of a 24-bit number.
  function Digit(n: nat, j: nat): Sextet
    requires j < 4
  {
    if j == 0 then n / 0x4_0000 % 64 else if j == 1 then n / 0x1000 % 64 else if j == 2 then n / 64 % 64 else n % 64
  }

  function Digits(n: nat): (s: seq<Numeral>)
    ensures |s| == 4
  {
    [Digit(n, 0), Digit(n, 1), Digit(n, 2), Digit(n, 3)]
  }

  function Group(a: Byte, b: Byte, c: Byte): nat {
    0x1_0000 * a + 0x100 * b + c
  }

  // Three bytes are four digits; two bytes make three, and one makes two, padded to four.
  function Numerals(data: seq<Byte>): seq<Numeral> {
    if data == [] then []
    else if |data| == 1 then
      var n := Group(data[0], 0, 0);
      [Digit(n, 0), Digit(n, 1), PAD, PAD]
    else if |data| == 2 then
      var n := Group(data[0], data[1], 0);
      [Digit(n, 0), Digit(n, 1), Digit(n, 2), PAD]
    else
      var n := Group(data[0], data[1], data[2]);
      Digits(n) + Numerals(data[3..])
  }

  function Letters(s: seq<Numeral>): (r: seq<Byte>)
    ensures |r| == |s|
    ensures forall i :: 0 <= i < |s| ==> r[i] == Letter(s[i])
  {
    seq(|s|, i requires 0 <= i < |s| => Letter(s[i]))
  }

  function Encode(data: seq<Byte>, newline: bool): seq<Byte> {
    Letters(Numerals(data)) + if newline then [NEWLINE] else []
  }

  // The digits by shifts and masks.
  lemma DigitsByShifts(a: Byte, b: Byte, c: Byte)
    ensures Digit(Group(a, b, c), 0) == a / 4
    ensures Digit(Group(a, b, c), 1) == a % 4 * 16 + b / 16
    ensures Digit(Group(a, b, c), 2) == b % 16 * 4 + c / 64
    ensures Digit(Group(a, b, c), 3) == c % 64
  {
    var n := Group(a, b, c);
    DivMod(a / 4, 0x1_0000 * (a % 4) + 0x100 * b + c, 0x4_0000);
    DivMod(16 * a + b / 16, 0x100 * (b % 16) + c, 0x1000);
    DivMod(a / 4, a % 4 * 16 + b / 16, 64);
    DivMod(0x400 * a + 4 * b + c / 64, c % 64, 64);
    DivMod(16 * a + b / 16, b % 16 * 4 + c / 64, 64);
  }

  lemma ThreeLess(n: nat)
    requires n > 2
    ensures (n - 3) % 3 == n % 3
    ensures n > 3 ==> (n - 4) / 3 + 1 == (n - 1) / 3
  {
    Fundamental(n, 3);
    DivMod(n / 3 - 1, n % 3, 3);
    Fundamental(n - 1, 3);
    DivMod((n - 1) / 3 - 1, (n - 1) % 3, 3);
  }

  lemma {:induction false} NumeralsLength(data: seq<Byte>)
    ensures |Numerals(data)| == if data == [] then 0 else ((|data| - 1) / 3 + 1) * 4
  {
    hide Group, Digits;
    if |data| > 2 {
      NumeralsLength(data[3..]);
      ThreeLess(|data|);
    }
  }

  method PutFour(out: array<Byte>, o: nat, a: Numeral, b: Numeral, c: Numeral, d: Numeral)
    requires o + 4 <= out.Length
    modifies out
    ensures out[..o + 4] == old(out[..o]) + [a, b, c, d]
  {
    out[o], out[o + 1], out[o + 2], out[o + 3] := a, b, c, d;
  }

  // Four digits by shifts and masks.
  method PutGroup(out: array<Byte>, o: nat, a: Byte, b: Byte, c: Byte)
    requires o + 4 <= out.Length
    modifies out
    ensures out[..o + 4] == old(out[..o]) + Digits(Group(a, b, c))
  {
    DigitsByShifts(a, b, c);
    PutFour(out, o, a / 4, a % 4 * 16 + b / 16, b % 16 * 4 + c / 64, c % 64);
  }

  method PutLast(data: seq<Byte>, at: nat, out: array<Byte>, o: nat)
    requires at < |data| < at + 3 && o + 4 <= out.Length
    modifies out
    ensures out[..o + 4] == old(out[..o]) + Numerals(data[at..])
  {
    hide Digit, Group;
    LastGroup(data, at);
    var a := data[at];
    if |data| - at == 2 {
      var b := data[at + 1];
      PutFour(out, o, a / 4, a % 4 * 16 + b / 16, b % 16 * 4, 64);
    } else {
      PutFour(out, o, a / 4, a % 4 * 16, 64, 64);
    }
  }

  // The first pass writes sextets, and 64 for padding.
  method WriteNumerals(data: seq<Byte>, out: array<Byte>)
    requires |Numerals(data)| <= out.Length
    modifies out
    ensures out[..|Numerals(data)|] == Numerals(data)
  {
    hide Group, Digits, Numerals;
    var left, o, at: nat := |data|, 0, 0;
    assert data[0..] == data;
    while left >= 3
      invariant left >= 0 && left + at == |data| && o >= 0
      invariant o + |Numerals(data[at..])| == |Numerals(data)|
      invariant out[..o] + Numerals(data[at..]) == Numerals(data)
    {
      ghost var n := Group(data[at], data[at + 1], data[at + 2]);
      NextGroup(data, at);
      Regroup(out[..o], Digits(n), Numerals(data[at + 3..]));
      PutGroup(out, o, data[at], data[at + 1], data[at + 2]);
      o, at, left := o + 4, at + 3, left - 3;
    }
    LastLength(data, at);
    if left != 0 {
      PutLast(data, at, out, o);
    }
  }

  // The second pass turns them into letters.
  method WriteLetters(out: array<Byte>, count: nat, ghost numerals: seq<Numeral>)
    requires count == |numerals| <= out.Length && out[..count] == numerals
    modifies out
    ensures out[..count] == Letters(numerals)
  {
    hide Letter;
    for p := 0 to count
      invariant forall k :: 0 <= k < p ==> out[k] == Letter(numerals[k])
      invariant forall k :: p <= k < count ==> out[k] == out[..count][k] == numerals[k]
    {
      out[p] := Letter(out[p]);
    }
  }

  // mod_binascii_b2a_base64: the length is computed before anything is written.
  method B2a(data: seq<Byte>, newline: bool) returns (out: array<Byte>)
    ensures out[..] == Encode(data, newline)
    ensures out.Length == (if |data| != 0 then ((|data| - 1) / 3 + 1) * 4 else 0) + if newline then 1 else 0
  {
    hide Numerals;
    NumeralsLength(data);
    var count: nat := if |data| != 0 then ((|data| - 1) / 3 + 1) * 4 else 0;
    out := new Byte[count + if newline then 1 else 0];
    WriteNumerals(data, out);
    WriteLetters(out, count, Numerals(data));
    if newline {
      out[count] := NEWLINE;
      assert out[..] == out[..count] + [NEWLINE];
    } else {
      assert out[..] == out[..count];
    }
  }

  lemma LastLength(data: seq<Byte>, at: nat)
    requires at <= |data| < at + 3
    ensures |Numerals(data[at..])| == if at == |data| then 0 else 4
  {
  }

  lemma LastGroup(data: seq<Byte>, at: nat)
    requires at <= |data| < at + 3
    ensures at == |data| ==> Numerals(data[at..]) == []
    ensures at + 1 == |data| ==> Numerals(data[at..]) == [data[at] / 4, data[at] % 4 * 16, PAD, PAD]
    ensures at + 2 == |data| ==>
      Numerals(data[at..]) == [data[at] / 4, data[at] % 4 * 16 + data[at + 1] / 16, data[at + 1] % 16 * 4, PAD]
  {
    hide Digit, Group;
    if at + 1 == |data| {
      DigitsByShifts(data[at], 0, 0);
    } else if at + 2 == |data| {
      DigitsByShifts(data[at], data[at + 1], 0);
    }
  }

  lemma NextGroup(data: seq<Byte>, at: nat)
    requires at + 3 <= |data|
    ensures var n := Group(data[at], data[at + 1], data[at + 2]);
            Numerals(data[at..]) == Digits(n) + Numerals(data[at + 3..])
  {
    assert data[at..][3..] == data[at + 3..];
  }

  // ---- decoding

  // The bytes that groups of four sextets make, with what does not fill a byte dropped.
  function BytesOf(v: seq<Sextet>): seq<Byte> {
    if |v| < 2 then []
    else if |v| == 2 then [First(v[0], v[1])]
    else if |v| == 3 then [First(v[0], v[1]), Second(v[1], v[2])]
    else [First(v[0], v[1]), Second(v[1], v[2]), Third(v[2], v[3])] + BytesOf(v[4..])
  }

  // The bytes across two neighbours in a group.
  function First(p: Sextet, x: Sextet): Byte {
    p * 4 + x / 16
  }

  function Second(p: Sextet, x: Sextet): Byte {
    p % 16 * 16 + x / 4
  }

  function Third(p: Sextet, x: Sextet): Byte {
    p % 4 * 64 + x
  }

  // The sextets of a text after v, and whether padding ended it: a pad character after three of
  // a group of four, or a second one after two. What is not of the alphabet is skipped.
  function Scan(text: seq<Byte>, v: seq<Sextet>, hadPad: bool): (seq<Sextet>, bool)
    decreases |text|
  {
    if text == [] then (v, false)
    else if text[0] == EQUALS then
      if |v| % 4 == 3 || (|v| % 4 == 2 && hadPad) then (v, true) else Scan(text[1..], v, true)
    else if SextetOf(text[0]) == -1 then Scan(text[1..], v, hadPad)
    else Scan(text[1..], v + [SextetOf(text[0])], false)
  }

  // None where the source raises a ValueError, incorrect padding.
  function Decode(text: seq<Byte>): Option<seq<Byte>> {
    var (v, ended) := Scan(text, [], false);
    if ended || |v| % 4 == 0 then Some(BytesOf(v)) else None
  }

  // The bits beyond the last whole byte.
  function Spare(n: nat): nat {
    if n % 4 == 0 then 0 else 8 - 2 * (n % 4)
  }

  // One more sextet completes a byte, except the first of a group of four.
  lemma {:induction false} BytesSnoc(v: seq<Sextet>, x: Sextet)
    ensures var p := if v == [] then 0 else v[|v| - 1];
            BytesOf(v + [x]) == BytesOf(v) +
            (if |v| % 4 == 0 then [] else if |v| % 4 == 1 then [First(p, x)]
             else if |v| % 4 == 2 then [Second(p, x)] else [Third(p, x)])
    decreases |v|
  {
    hide First, Second, Third;
    if |v| >= 4 {
      BytesSnoc(v[4..], x);
      assert (v + [x])[4..] == v[4..] + [x];
    }
  }

  // The byte that the shift register holds above its spare bits.
  lemma ByteInShift(shift: nat, p: Sextet, x: Sextet)
    requires shift % 4096 == p * 64 + x
    ensures shift / 16 % 256 == First(p, x)
    ensures shift / 4 % 256 == Second(p, x)
    ensures shift % 256 == Third(p, x)
  {
    var h := shift / 4096;
    Fundamental(shift, 4096);
    DivMod(256 * h + 4 * p + x / 16, x % 16, 16);
    DivMod(h, 4 * p + x / 16, 256);
    DivMod(1024 * h + 16 * p + x / 4, x % 4, 4);
    DivMod(4 * h + p / 16, p % 16 * 16 + x / 4, 256);
    DivMod(16 * h + p / 4, p % 4 * 64 + x, 256);
  }

  const UINT_RANGE := 0x1_0000_0000

  // ---- the allocation

  // The length of the output allocated for a text, computed in a size_t of 32 bits.
  function Allocated(n: nat): nat {
    n * 3 % SIZE_T_RANGE / 4 + 1
  }

  // The bytes written for a text, whether or not it is accepted in the end.
  function Written(text: seq<Byte>): nat {
    |BytesOf(Scan(text, [], false).0)|
  }

  // A ValueError is raised for bad padding; Overrun is where the code writes past the allocation.
  datatype Decoded = Ok(bytes: seq<Byte>) | BadPadding | Overrun

  function Outcome(text: seq<Byte>): Decoded {
    if Written(text) > Allocated(|text|) then Overrun
    else match Decode(text) case Some(bytes) => Ok(bytes) case None => BadPadding
  }

  lemma {:induction false} BytesLength(v: seq<Sextet>)
    ensures |BytesOf(v)| == 3 * |v| / 4
    decreases |v|
  {
    hide First, Second, Third;
    if |v| >= 4 {
      BytesLength(v[4..]);
      DivMod(3 * (|v| - 4) / 4 + 3, 3 * (|v| - 4) % 4, 4);
      Fundamental(3 * (|v| - 4), 4);
    }
  }

  lemma ThreeQuarters(k: nat, n: nat)
    requires k <= n
    ensures 3 * k / 4 <= 3 * n / 4
  {
  }

  lemma {:induction false} ScanGrows(text: seq<Byte>, v: seq<Sextet>, hadPad: bool)
    ensures |v| <= |Scan(text, v, hadPad).0| <= |v| + |text|
    decreases |text|
  {
    hide SextetOf;
    if text != [] {
      ScanGrows(text[1..], v, true);
      ScanGrows(text[1..], v, hadPad);
      if SextetOf(text[0]) >= 0 {
        ScanGrows(text[1..], v + [SextetOf(text[0])], false);
      }
    }
  }

  lemma WrittenAtMost(text: seq<Byte>)
    ensures Written(text) <= 3 * |text| / 4
  {
    hide BytesOf, Scan;
    ScanGrows(text, [], false);
    BytesLength(Scan(text, [], false).0);
    ThreeQuarters(|Scan(text, [], false).0|, |text|);
  }

  // n times the letter A.
  function OnlyA(n: nat): (s: seq<Byte>)
    ensures |s| == n
  {
    if n == 0 then [] else ['A' as int] + OnlyA(n - 1)
  }

  lemma {:induction false} ScanOnlyA(n: nat, v: seq<Sextet>, hadPad: bool)
    ensures |Scan(OnlyA(n), v, hadPad).0| == |v| + n
    decreases n
  {
    if n > 0 {
      ScanOnlyA(n - 1, v + [0], false);
      assert OnlyA(n)[1..] == OnlyA(n - 1);
    }
  }

  // The allocation is big enough for every text of a length exactly when three times the length
  // fits a size_t.
  lemma AllocationExact(n: nat)
    ensures (forall text: seq<Byte> :: |text| == n ==> Written(text) <= Allocated(n)) <==> n * 3 < SIZE_T_RANGE
  {
    hide Written, Allocated;
    AllocatedWhen(n);
    if n * 3 < SIZE_T_RANGE {
      forall text: seq<Byte> | |text| == n
        ensures Written(text) <= Allocated(n)
      {
        WrittenAtMost(text);
      }
    } else {
      ManyWritten(n);
    }
  }

  lemma ManyWritten(n: nat)
    ensures Written(OnlyA(n)) == 3 * n / 4
  {
    hide BytesOf, Scan;
    ScanOnlyA(n, [], false);
    BytesLength(Scan(OnlyA(n), [], false).0);
  }

  lemma AllocatedWhen(n: nat)
    ensures n * 3 < SIZE_T_RANGE ==> Allocated(n) == 3 * n / 4 + 1
    ensures n * 3 >= SIZE_T_RANGE ==> Allocated(n) < 3 * n / 4
  {
    var m, w := 3 * n, 3 * n % SIZE_T_RANGE;
    Fundamental(m, SIZE_T_RANGE);
    Fundamental(m, 4);
    Fundamental(w, 4);
    if m < SIZE_T_RANGE {
      UniqueQuotient(m / SIZE_T_RANGE, w, 0, m, SIZE_T_RANGE);
    } else if m / SIZE_T_RANGE < 1 {
      assert false;
    }
  }

  // Shifting a sextet in keeps the one before it.
  lemma ShiftIn(shift: nat, x: Sextet)
    ensures var s := (shift * 64 + x) % UINT_RANGE;
            s % 4096 == shift % 64 * 64 + x && s % 64 == x
  {
    var all := shift * 64 + x;
    Fundamental(all, UINT_RANGE);
    var q, s := all / UINT_RANGE, all % UINT_RANGE;
    DivMod(shift / 64, shift % 64 * 64 + x, 4096);
    DivMod(0x10_0000 * q + s / 4096, s % 4096, 4096);
    DivMod(shift, x, 64);
    DivMod(0x400_0000 * q + s / 64, s % 64, 64);
  }

  // (shift >> nbits) & 0xFF
  function TopByte(shift: nat, nbits: int): Byte {
    shift / (if nbits == 4 then 16 else if nbits == 2 then 4 else 1) % 256
  }

  lemma OneMore(shift: nat, v: seq<Sextet>, x: Sextet)
    requires v != [] ==> shift % 64 == v[|v| - 1]
    ensures var s := (shift * 64 + x) % UINT_RANGE;
            && s % 64 == x
            && Spare(|v| + 1) == (if |v| % 4 == 0 then 6 else Spare(|v|) - 2)
            && (|v| % 4 == 0 <==> Spare(|v|) == 0)
            && (Spare(|v|) == 0 || Spare(|v|) == 2 || Spare(|v|) == 4 || Spare(|v|) == 6)
            && BytesOf(v + [x]) == BytesOf(v) + if |v| % 4 == 0 then [] else [TopByte(s, Spare(|v| + 1))]
  {
    hide First, Second, Third, BytesOf, Spare;
    SpareFacts(|v|);
    SpareSteps(|v|);
    ShiftIn(shift, x);
    BytesSnoc(v, x);
    if v != [] {
      ByteInShift((shift * 64 + x) % UINT_RANGE, v[|v| - 1], x);
    }
  }

  lemma SpareSteps(n: nat)
    ensures Spare(n + 1) == if n % 4 == 0 then 6 else Spare(n) - 2
    ensures Spare(n) == 0 || Spare(n) == 2 || Spare(n) == 4 || Spare(n) == 6
  {
  }

  lemma SpareFacts(n: nat)
    ensures n % 4 == 0 <==> Spare(n) == 0
    ensures n % 4 == 3 <==> Spare(n) == 2
    ensures n % 4 == 2 <==> Spare(n) == 4
  {
  }

  lemma SpareAtStart()
    ensures Spare(0) == 0 && BytesOf([]) == []
    ensures forall hadPad, v :: Scan([], v, hadPad) == (v, false)
    ensures forall n: nat :: Spare(n) == 0 <==> n % 4 == 0
  {
  }

  // mod_binascii_a2b_base64: the output is allocated before anything is read.
  method A2b(text: seq<Byte>) returns (r: Decoded)
    ensures r == Outcome(text)
    ensures |text| * 3 < SIZE_T_RANGE ==> !r.Overrun? && (r.Ok? ==> |r.bytes| <= |text| * 3 / 4)
  {
    hide Scan, SextetOf, BytesOf, First, Second, Third, TopByte, Spare, Allocated, Written, Outcome, Decode;
    SpareAtStart();
    var out := new Byte[Allocated(|text|)];
    var length: nat, shift: nat, nbits, hadPad := 0, 0, 0, false;
    ghost var v: seq<Sextet> := [];
    ghost var ended := false;
    assert text[0..] == text;
    for i := 0 to |text|
      invariant Scan(text, [], false) == Scan(text[i..], v, hadPad)
      invariant |v| <= i && nbits == Spare(|v|) && 8 * length + nbits == 6 * |v|
      invariant length <= out.Length && out[..length] == BytesOf(v)
      invariant v != [] ==> shift % 64 == v[|v| - 1]
      invariant !ended
    {
      var ch := text[i];
      ScanOne(text, i, v, hadPad);
      SpareFacts(|v|);
      if ch == EQUALS {
        if nbits == 2 || (nbits == 4 && hadPad) {
          nbits := 0;
          ended := true;
          break;
        }
        hadPad := true;
      }
      var sextet := SextetOf(ch);
      if sextet == -1 {
        continue;
      }
      hadPad := false;
      OneMore(shift, v, sextet);
      shift := (shift * 64 + sextet) % UINT_RANGE;
      nbits := nbits + 6;
      v := v + [sextet];
      if nbits >= 8 {
        nbits := nbits - 8;
        if length >= out.Length {
          Overruns(text, i + 1, v);
          return Overrun;
        }
        out[length] := TopByte(shift, nbits);
        length := length + 1;
        assert out[..length] == out[..length - 1] + [out[length - 1]];
      }
    }
    assert text[|text|..] == [];
    Finishes(text, v, ended);
    if nbits != 0 {
      return BadPadding;
    }
    return Ok(out[..length]);
  }

  lemma Finishes(text: seq<Byte>, v: seq<Sextet>, ended: bool)
    requires Scan(text, [], false) == (v, ended) && |BytesOf(v)| <= Allocated(|text|)
    ensures Outcome(text) == if ended || |v| % 4 == 0 then Ok(BytesOf(v)) else BadPadding
    ensures |BytesOf(v)| <= 3 * |text| / 4
  {
    hide Scan, BytesOf;
    WrittenAtMost(text);
  }

  lemma Overruns(text: seq<Byte>, i: nat, v: seq<Sextet>)
    requires i <= |text| && Scan(text, [], false) == Scan(text[i..], v, false) && |BytesOf(v)| > Allocated(|text|)
    ensures Outcome(text) == Overrun && |text| * 3 >= SIZE_T_RANGE
  {
    hide Scan, BytesOf, Allocated;
    Ahead(text[i..], v);
    WrittenAtMost(text);
    AllocatedWhen(|text|);
  }

  // What has been written only gets more.
  lemma Ahead(rest: seq<Byte>, v: seq<Sextet>)
    ensures |BytesOf(v)| <= |BytesOf(Scan(rest, v, false).0)|
  {
    hide BytesOf, Scan;
    ScanGrows(rest, v, false);
    BytesLength(v);
    BytesLength(Scan(rest, v, false).0);
    ThreeQuarters(|v|, |Scan(rest, v, false).0|);
  }

  lemma ScanOne(text: seq<Byte>, i: nat, v: seq<Sextet>, hadPad: bool)
    requires i < |text|
    ensures text[i] == EQUALS ==>
      Scan(text[i..], v, hadPad) ==
      if |v| % 4 == 3 || (|v| % 4 == 2 && hadPad) then (v, true) else Scan(text[i + 1..], v, true)
    ensures text[i] != EQUALS && SextetOf(text[i]) == -1 ==>
      Scan(text[i..], v, hadPad) == Scan(text[i + 1..], v, hadPad)
    ensures SextetOf(text[i]) >= 0 ==> Scan(text[i..], v, hadPad) == Scan(text[i + 1..], v + [SextetOf(text[i])], false)
    ensures text[i] == EQUALS ==> SextetOf(text[i]) == -1
  {
    assert text[i..][1..] == text[i + 1..];
  }

  // ---- decoding undoes encoding

  // What is left of a text without the bytes that are neither of the alphabet nor padding.
  function Strip(text: seq<Byte>): seq<Byte> {
    if text == [] then []
    else (if text[0] == EQUALS || SextetOf(text[0]) >= 0 then [text[0]] else []) + Strip(text[1..])
  }

  lemma {:induction false} NoiseIsSkipped(text: seq<Byte>, v: seq<Sextet>, hadPad: bool)
    ensures Scan(text, v, hadPad) == Scan(Strip(text), v, hadPad)
    decreases |text|
  {
    hide SextetOf;
    if text != [] {
      var ch, more := text[0], text[1..];
      if ch == EQUALS {
        NoiseIsSkipped(more, v, true);
        assert Strip(text)[1..] == Strip(more);
      } else if SextetOf(ch) == -1 {
        NoiseIsSkipped(more, v, hadPad);
        assert Strip(text) == Strip(more);
      } else {
        NoiseIsSkipped(more, v + [SextetOf(ch)], false);
        assert Strip(text)[1..] == Strip(more);
      }
    }
  }

  // The digits without the padding.
  function Sextets(data: seq<Byte>): seq<Sextet> {
    if data == [] then []
    else if |data| == 1 then
      var n := Group(data[0], 0, 0);
      [Digit(n, 0), Digit(n, 1)]
    else if |data| == 2 then
      var n := Group(data[0], data[1], 0);
      [Digit(n, 0), Digit(n, 1), Digit(n, 2)]
    else
      var n := Group(data[0], data[1], data[2]);
      [Digit(n, 0), Digit(n, 1), Digit(n, 2), Digit(n, 3)] + Sextets(data[3..])
  }

  lemma LettersOfSum(a: seq<Numeral>, b: seq<Numeral>)
    ensures Letters(a + b) == Letters(a) + Letters(b)
  {
  }

  lemma ScanLetter(x: Sextet, rest: seq<Byte>, v: seq<Sextet>, hadPad: bool)
    ensures Scan([Letter(x)] + rest, v, hadPad) == Scan(rest, v + [x], false)
  {
    hide Letter, SextetOf;
    LettersRoundTrip(x, 0);
    assert ([Letter(x)] + rest)[1..] == rest;
  }

  lemma {:induction false} ScanSextets(x: seq<Sextet>, rest: seq<Byte>, v: seq<Sextet>)
    ensures Scan(Letters(x) + rest, v, false) == Scan(rest, v + x, false)
    decreases |x|
  {
    hide Letters, Scan;
    if x == [] {
      assert Letters(x) + rest == rest && v + x == v;
    } else {
      LettersOfSum([x[0]], x[1..]);
      assert [x[0]] + x[1..] == x;
      Regroup(Letters([x[0]]), Letters(x[1..]), rest);
      assert Letters([x[0]]) == [Letter(x[0])];
      ScanLetter(x[0], Letters(x[1..]) + rest, v, false);
      ScanSextets(x[1..], rest, v + [x[0]]);
      Regroup(v, [x[0]], x[1..]);
    }
  }

  function Padding(n: nat): seq<Numeral> {
    if n % 3 == 0 then [] else if n % 3 == 1 then [PAD, PAD] else [PAD]
  }

  lemma PaddingCases(n: nat)
    ensures n % 3 == 0 ==> Padding(n) == []
    ensures n % 3 == 1 ==> Padding(n) == [PAD, PAD]
    ensures n % 3 == 2 ==> Padding(n) == [PAD]
    ensures n % 3 == 0 || n % 3 == 1 || n % 3 == 2
  {
  }

  lemma {:induction false} PaddedSextets(data: seq<Byte>)
    ensures Numerals(data) == Sextets(data) + Padding(|data|)
    decreases |data|
  {
    hide Digit, Group, Padding;
    PaddingCases(|data|);
    if |data| > 2 {
      PaddedSextets(data[3..]);
      ThreeLess(|data|);
      PaddingCases(|data| - 3);
      NextSextets(data);
      Regroup(Digits(Group(data[0], data[1], data[2])), Sextets(data[3..]), Padding(|data|));
    }
  }

  lemma NextSextets(data: seq<Byte>)
    requires |data| > 2
    ensures Sextets(data) == Digits(Group(data[0], data[1], data[2])) + Sextets(data[3..])
  {
    hide Digit, Group;
  }

  lemma {:induction false} SextetsLength(data: seq<Byte>)
    ensures |Sextets(data)| % 4 == if |data| % 3 == 0 then 0 else |data| % 3 + 1
    decreases |data|
  {
    hide Digit, Group;
    if |data| > 2 {
      SextetsLength(data[3..]);
      ThreeLess(|data|);
      FourMore(|Sextets(data[3..])|);
    }
  }

  lemma FourMore(n: nat)
    ensures (4 + n) % 4 == n % 4
  {
  }

  lemma ScanPadding(v: seq<Sextet>, n: nat)
    requires |v| % 4 == if n % 3 == 0 then 0 else n % 3 + 1
    ensures Scan(Letters(Padding(n)), v, false) == (v, n % 3 != 0)
  {
    if n % 3 == 0 {
      assert Letters(Padding(n)) == [];
    } else if n % 3 == 1 {
      assert Letters(Padding(n)) == [EQUALS, EQUALS];
      assert [EQUALS, EQUALS][1..] == [EQUALS];
    } else {
      assert Letters(Padding(n)) == [EQUALS];
    }
  }

  lemma FourDigits(a: Byte, b: Byte, c: Byte)
    ensures var n := Group(a, b, c);
            && First(Digit(n, 0), Digit(n, 1)) == a
            && Second(Digit(n, 1), Digit(n, 2)) == b
            && Third(Digit(n, 2), Digit(n, 3)) == c
  {
    DigitsByShifts(a, b, c);
  }

  lemma {:induction false} BytesOfSextets(data: seq<Byte>)
    ensures BytesOf(Sextets(data)) == data
    decreases |data|
  {
    hide Digit, Group, First, Second, Third;
    if |data| == 1 {
      FourDigits(data[0], 0, 0);
    } else if |data| == 2 {
      FourDigits(data[0], data[1], 0);
    } else if |data| > 2 {
      FourDigits(data[0], data[1], data[2]);
      BytesOfSextets(data[3..]);
      assert Sextets(data)[4..] == Sextets(data[3..]);
    }
  }

  // The main result: a text that is an encoding but for bytes put in that are neither of the
  // alphabet nor padding decodes to what was encoded.
  lemma DecodeUndoesEncode(data: seq<Byte>, text: seq<Byte>)
    requires Strip(text) == Encode(data, false)
    ensures Decode(text) == Some(data)
  {
    hide Scan, Strip, Numerals, Sextets, Padding, Letters;
    NoiseIsSkipped(text, [], false);
    PaddedSextets(data);
    SextetsLength(data);
    LettersOfSum(Sextets(data), Padding(|data|));
    assert Encode(data, false) == Letters(Numerals(data));
    ScanSextets(Sextets(data), Letters(Padding(|data|)), []);
    assert [] + Sextets(data) == Sextets(data);
    ScanPadding(Sextets(data), |data|);
    BytesOfSextets(data);
  }

  lemma {:induction false} NothingToStrip(s: seq<Numeral>, newline: bool)
    ensures var end := if newline then [NEWLINE] else [];
            Strip(Letters(s) + end) == Letters(s)
    decreases |s|
  {
    hide Letter, SextetOf;
    var end := if newline then [NEWLINE] else [];
    var text := Letters(s) + end;
    if s == [] {
      assert text == end;
      StripNewline();
    } else {
      NothingToStrip(s[1..], newline);
      LettersRoundTrip(if s[0] < 64 then s[0] else 0, 0);
      assert Letter(PAD) == EQUALS by {
        PadLetter();
      }
      assert text[1..] == Letters(s[1..]) + end;
      assert Letters(s) == [Letter(s[0])] + Letters(s[1..]);
    }
  }

  lemma StripNewline()
    ensures Strip([NEWLINE]) == [] && Strip([]) == []
  {
  }

  lemma PadLetter()
    ensures Letter(PAD) == EQUALS
  {
  }

  // An encoding itself decodes, with its newline or without.
  lemma RoundTrip(data: seq<Byte>, newline: bool)
    ensures Decode(Encode(data, newline)) == Some(data)
  {
    hide Strip, Decode, Letters, Numerals;
    NothingToStrip(Numerals(data), newline);
    assert Encode(data, false) == Letters(Numerals(data));
    DecodeUndoesEncode(data, Encode(data, newline));
  }

  // ---- which texts are accepted, and as what

  // The letters of a text, as sextets.
  function SextetsIn(s: seq<Byte>): seq<Sextet> {
    if s == [] then []
    else
      var before := SextetsIn(s[..|s| - 1]);
      if SextetOf(s[|s| - 1]) >= 0 then before + [SextetOf(s[|s| - 1])] else before
  }

  // A pad character that completes a group of four: the fourth place of it, or the second pad
  // character in a row in the third or after it.
  predicate ClosesGroup(s: seq<Byte>, i: nat)
    requires i < |s|
  {
    var n := |SextetsIn(s[..i])|;
    s[i] == EQUALS && (n % 4 == 3 || (n % 4 == 2 && i > 0 && s[i - 1] == EQUALS))
  }

  predicate IsStripped(s: seq<Byte>) {
    forall i :: 0 <= i < |s| ==> s[i] == EQUALS || SextetOf(s[i]) >= 0
  }

  lemma {:induction false} StripStrips(text: seq<Byte>)
    ensures IsStripped(Strip(text))
  {
    hide SextetOf;
    if text != [] {
      StripStrips(text[1..]);
    }
  }

  // The reading stops at the first pad character that completes a group.
  lemma {:induction false} ScanFrom(s: seq<Byte>, k: nat) returns (i: nat)
    requires k <= |s| && IsStripped(s)
    ensures k <= i <= |s| && (i < |s| ==> ClosesGroup(s, i)) && forall j :: k <= j < i ==> !ClosesGroup(s, j)
    ensures Scan(s[k..], SextetsIn(s[..k]), k > 0 && s[k - 1] == EQUALS) == (SextetsIn(s[..i]), i < |s|)
    decreases |s| - k
  {
    hide SextetOf, Scan;
    if k == |s| {
      i := k;
      assert s[k..] == [];
      SpareAtStart();
    } else {
      ScanOne(s, k, SextetsIn(s[..k]), k > 0 && s[k - 1] == EQUALS);
      assert s[..k + 1][..k] == s[..k];
      if ClosesGroup(s, k) {
        i := k;
      } else {
        i := ScanFrom(s, k + 1);
      }
    }
  }

  // Every text: the bytes of its letters up to the first pad character that completes a group; of
  // all its letters if there is none and they are whole groups; otherwise it is refused.
  lemma DecodeExactly(text: seq<Byte>) returns (i: nat)
    ensures var s := Strip(text);
            && i <= |s| && (i < |s| ==> ClosesGroup(s, i)) && (forall j :: 0 <= j < i ==> !ClosesGroup(s, j))
            && Decode(text) ==
               if i < |s| || |SextetsIn(s)| % 4 == 0 then Some(BytesOf(SextetsIn(s[..i]))) else None
  {
    hide Scan, Strip, SextetsIn, BytesOf, ClosesGroup;
    var s := Strip(text);
    StripStrips(text);
    NoiseIsSkipped(text, [], false);
    i := ScanFrom(s, 0);
    assert s[0..] == s;
    assert SextetsIn(s[..0]) == [] by { NoSextets(); }
    assert i == |s| ==> s[..i] == s;
  }

  lemma NoSextets()
    ensures SextetsIn([]) == []
  {
  }

  // One, two and three letters, and one pad character after two, are refused.
  lemma Refused(text: seq<Byte>)
    requires IsStripped(text) && 0 < |SextetsIn(text)| < 4 && forall j :: 0 <= j < |text| ==> !ClosesGroup(text, j)
    ensures Decode(text) == None
  {
    hide Scan, BytesOf, SextetsIn, ClosesGroup;
    var i := ScanFrom(text, 0);
    assert text[0..] == text && text[..|text|] == text;
    assert SextetsIn(text[..0]) == [] by { NoSextets(); }
  }

  // The examples of section 10 of RFC 4648 for one, two and three bytes: Zg==, Zm8= and Zm9v.
  lemma FooExamples()
    ensures Encode([0x66], false) == [0x5a, 0x67, 0x3d, 0x3d]
    ensures Encode([0x66, 0x6f], false) == [0x5a, 0x6d, 0x38, 0x3d]
    ensures Encode([0x66, 0x6f, 0x6f], true) == [0x5a, 0x6d, 0x39, 0x76, 0x0a]
  {
    hide Digit, Group;
    DigitsByShifts(0x66, 0, 0);
    DigitsByShifts(0x66, 0x6f, 0);
    DigitsByShifts(0x66, 0x6f, 0x6f);
    assert [0x66, 0x6f, 0x6f][3..] == [];
  }
}
