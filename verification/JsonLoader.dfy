/**
  The reader as it runs: one pass over a stream, a heap whose lists and dicts are filled in
  place, and a stack of references to the open containers. It refines JsonReader.Meaning.
 */
module JsonLoader {
  import opened JsonValue
  import opened JsonReader
  import opened Wrappers

  // ---- the heap: containers refer to one another by position

  datatype Obj = Plain(v: Value) | Ref(id: nat)

  datatype Slot = Slot(key: Value, obj: Obj)

  datatype Cell = ListCell(items: seq<Obj>) | DictCell(slots: seq<Slot>)

  function SlotKeys(slots: seq<Slot>): seq<Value> {
    seq(|slots|, i requires 0 <= i < |slots| => slots[i].key)
  }

  function SlotStore(slots: seq<Slot>, key: Value, o: Obj): seq<Slot> {
    var i := FindKey(SlotKeys(slots), key);
    if i < |slots| then slots[i := Slot(slots[i].key, o)] else slots + [Slot(key, o)]
  }

  function CellPut(c: Cell, key: Option<Value>, o: Obj): Cell
    requires c.DictCell? ==> key.Some?
  {
    match c
    case ListCell(items) => ListCell(items + [o])
    case DictCell(slots) => DictCell(SlotStore(slots, key.value, o))
  }

  function Objs(c: Cell): seq<Obj> {
    match c
    case ListCell(items) => items
    case DictCell(slots) => seq(|slots|, i requires 0 <= i < |slots| => slots[i].obj)
  }

  // A container refers only to containers created after it.
  ghost predicate Later(heap: seq<Cell>, o: Obj, id: int) {
    o.Ref? ==> id < o.id < |heap|
  }

  ghost predicate CellLater(heap: seq<Cell>, c: Cell, id: int) {
    forall i :: 0 <= i < |Objs(c)| ==> Later(heap, Objs(c)[i], id)
  }

  ghost predicate Ordered(heap: seq<Cell>) {
    forall id :: 0 <= id < |heap| ==> CellLater(heap, heap[id], id)
  }

  // The value of an object, with its references followed.
  ghost function ObjTree(heap: seq<Cell>, o: Obj, id: int): Value
    requires Ordered(heap) && Later(heap, o, id) && -1 <= id
    decreases |heap| - id, 0
  {
    match o
    case Plain(v) => v
    case Ref(r) => CellTree(heap, heap[r], r)
  }

  ghost function CellTree(heap: seq<Cell>, c: Cell, id: int): Value
    requires Ordered(heap) && CellLater(heap, c, id) && -1 <= id
    decreases |heap| - id, 1
  {
    match c
    case ListCell(items) =>
      List(seq(|items|, i requires 0 <= i < |items| => ObjTree(heap, Objs(c)[i], id)))
    case DictCell(slots) =>
      Dict(seq(|slots|, i requires 0 <= i < |slots| => Entry(slots[i].key, ObjTree(heap, Objs(c)[i], id))))
  }

  // ---- what the heap keeps

  ghost predicate Within(c: Cell, closed: set<nat>) {
    forall i :: 0 <= i < |Objs(c)| && Objs(c)[i].Ref? ==> Objs(c)[i].id in closed
  }

  // The finished containers refer to finished containers only.
  ghost predicate Finished(heap: seq<Cell>, closed: set<nat>) {
    forall id :: id in closed ==> id < |heap| && Within(heap[id], closed)
  }

  // Changing the heap outside a finished part does not change the values in it.
  lemma {:induction false} SameObj(h: seq<Cell>, h': seq<Cell>, closed: set<nat>, o: Obj, id: int)
    requires Ordered(h) && Ordered(h') && Later(h, o, id) && Later(h', o, id) && -1 <= id
    requires Finished(h, closed) && forall k :: k in closed ==> k < |h'| && h'[k] == h[k]
    requires o.Ref? ==> o.id in closed
    ensures ObjTree(h, o, id) == ObjTree(h', o, id)
    decreases |h| - id, 0
  {
    if o.Ref? {
      SameCell(h, h', closed, h[o.id], o.id);
    }
  }

  lemma {:induction false} SameCell(h: seq<Cell>, h': seq<Cell>, closed: set<nat>, c: Cell, id: int)
    requires Ordered(h) && Ordered(h') && CellLater(h, c, id) && CellLater(h', c, id) && -1 <= id
    requires Finished(h, closed) && forall k :: k in closed ==> k < |h'| && h'[k] == h[k]
    requires Within(c, closed)
    ensures CellTree(h, c, id) == CellTree(h', c, id)
    decreases |h| - id, 1
  {
    forall i | 0 <= i < |Objs(c)|
      ensures ObjTree(h, Objs(c)[i], id) == ObjTree(h', Objs(c)[i], id)
    {
      SameObj(h, h', closed, Objs(c)[i], id);
    }
  }

  lemma PutLater(heap: seq<Cell>, c: Cell, key: Option<Value>, o: Obj, id: int, closed: set<nat>)
    requires c.DictCell? ==> key.Some?
    requires CellLater(heap, c, id) && Later(heap, o, id)
    ensures CellLater(heap, CellPut(c, key, o), id)
    ensures Within(c, closed) && (o.Ref? ==> o.id in closed) ==> Within(CellPut(c, key, o), closed)
  {
    var c' := CellPut(c, key, o);
    forall i | 0 <= i < |Objs(c')|
      ensures Objs(c')[i] == o || (i < |Objs(c)| && Objs(c')[i] == Objs(c)[i])
    {
    }
  }

  // Putting an object into a cell puts its value into the value of the cell.
  lemma TreeOfPut(heap: seq<Cell>, c: Cell, key: Option<Value>, o: Obj, id: int)
    requires Ordered(heap) && -1 <= id && CellLater(heap, c, id) && Later(heap, o, id)
    requires c.DictCell? ==> key.Some?
    requires CellLater(heap, CellPut(c, key, o), id)
    ensures CellTree(heap, CellPut(c, key, o), id) == Put(CellTree(heap, c, id), key, ObjTree(heap, o, id))
  {
    match c {
      case ListCell(items) =>
        assert Objs(CellPut(c, key, o)) == items + [o];
      case DictCell(slots) =>
        var entries := CellTree(heap, c, id).entries;
        assert Keys(entries) == SlotKeys(slots);
        var i := FindKey(SlotKeys(slots), key.value);
        var o' := Objs(CellPut(c, key, o));
        assert forall j :: 0 <= j < |slots| && j != i ==> o'[j] == Objs(c)[j];
        assert o'[i] == o;
    }
  }

  // The open containers from the outermost on, with what each of them held before the next
  // one was put into it. All of them are separate from the finished containers.
  ghost predicate Shape(heap: seq<Cell>, path: seq<nat>, frames: seq<Frame>, bases: seq<Cell>, closed: set<nat>) {
    && |path| == |frames| + 1 == |bases| + 1
    && Ordered(heap)
    && Finished(heap, closed)
    && (forall i :: 0 <= i < |path| ==> path[i] < |heap| && path[i] !in closed)
    && (forall i, j :: 0 <= i < j < |path| ==> path[i] < path[j])
    && Within(heap[path[|path| - 1]], closed)
    && forall i :: 0 <= i < |frames| ==> Level(heap, path[i], path[i + 1], frames[i], bases[i], closed)
  }

  ghost predicate Level(heap: seq<Cell>, id: nat, child: nat, f: Frame, base: Cell, closed: set<nat>)
    requires Ordered(heap)
  {
    && id < |heap|
    && (base.DictCell? <==> f.key.Some?)
    && heap[id] == CellPut(base, f.key, Ref(child))
    && Within(base, closed)
    && CellLater(heap, base, id)
    && CellTree(heap, base, id) == f.cont
  }

  // A change of the innermost open container, and new containers, leave every level as it was.
  lemma LevelKept(h: seq<Cell>, h': seq<Cell>, id: nat, child: nat, f: Frame, base: Cell, closed: set<nat>)
    requires Ordered(h) && Ordered(h') && |h| <= |h'| && Finished(h, closed)
    requires Level(h, id, child, f, base, closed)
    requires h'[id] == h[id] && forall k :: k in closed ==> h'[k] == h[k]
    ensures Level(h', id, child, f, base, closed)
  {
    SameCell(h, h', closed, base, id);
  }

  lemma OrderedKept(h: seq<Cell>, h': seq<Cell>, top: nat)
    requires Ordered(h) && |h| <= |h'| && top < |h|
    requires forall k :: 0 <= k < |h| && k != top ==> h'[k] == h[k]
    requires forall k :: |h| <= k < |h'| ==> Objs(h'[k]) == []
    requires CellLater(h', h'[top], top)
    ensures Ordered(h')
  {
    forall id | 0 <= id < |h'| ensures CellLater(h', h'[id], id) {
      if id < |h| && id != top {
        assert CellLater(h, h[id], id);
      }
    }
  }

  lemma StillLater(h: seq<Cell>, h': seq<Cell>, c: Cell, id: int)
    requires CellLater(h, c, id) && |h| <= |h'|
    ensures CellLater(h', c, id)
  {
  }

  lemma NothingWithin(c: Cell, closed: set<nat>)
    requires Objs(c) == []
    ensures Within(c, closed)
  {
  }

  // Storing a finished value in the innermost open container.
  lemma ShapeAfterLeaf(h: seq<Cell>, path: seq<nat>, frames: seq<Frame>, bases: seq<Cell>, closed: set<nat>,
                       key: Option<Value>, v: Value)
    requires Shape(h, path, frames, bases, closed)
    requires h[path[|path| - 1]].DictCell? ==> key.Some?
    ensures var top := path[|path| - 1];
            var h' := h[top := CellPut(h[top], key, Plain(v))];
            && Shape(h', path, frames, bases, closed)
            && CellTree(h', h'[top], top) == Put(CellTree(h, h[top], top), key, v)
  {
    var top := path[|path| - 1];
    var c := h[top];
    var h' := h[top := CellPut(c, key, Plain(v))];
    PutLater(h, c, key, Plain(v), top, closed);
    OrderedKept(h, h', top);
    forall i | 0 <= i < |frames| ensures Level(h', path[i], path[i + 1], frames[i], bases[i], closed) {
      LevelKept(h, h', path[i], path[i + 1], frames[i], bases[i], closed);
    }
    SameCell(h, h', closed, c, top);
    TreeOfPut(h', c, key, Plain(v), top);
  }

  // Opening a container: the new one is stored in the one that was innermost at once.
  lemma ShapeAfterOpen(h: seq<Cell>, path: seq<nat>, frames: seq<Frame>, bases: seq<Cell>, closed: set<nat>,
                       key: Option<Value>, empty: Cell)
    requires Shape(h, path, frames, bases, closed) && Objs(empty) == []
    requires h[path[|path| - 1]].DictCell? <==> key.Some?
    ensures var top := path[|path| - 1];
            var h' := h[top := CellPut(h[top], key, Ref(|h|))] + [empty];
            Shape(h', path + [|h|], frames + [Frame(CellTree(h, h[top], top), key)], bases + [h[top]], closed)
  {
    hide CellTree, ObjTree, CellPut, Level, Within, CellLater, Objs, Ordered, Finished;
    var top := path[|path| - 1];
    var c := h[top];
    var h' := h[top := CellPut(c, key, Ref(|h|))] + [empty];
    TopLater(h, top);
    StillLater(h, h', c, top);
    NothingWithin(empty, closed);
    PutLater(h', c, key, Ref(|h|), top, closed);
    OrderedKept(h, h', top);
    FinishedKept(h, h', closed);
    forall i | 0 <= i < |frames| ensures Level(h', path[i], path[i + 1], frames[i], bases[i], closed) {
      LevelKept(h, h', path[i], path[i + 1], frames[i], bases[i], closed);
    }
    SameCell(h, h', closed, c, top);
    LevelOfTop(h', top, |h|, CellTree(h, c, top), key, c, closed);
  }

  lemma TopLater(h: seq<Cell>, id: nat)
    requires Ordered(h) && id < |h|
    ensures CellLater(h, h[id], id)
  {
  }

  lemma FinishedKept(h: seq<Cell>, h': seq<Cell>, closed: set<nat>)
    requires Finished(h, closed) && |h| <= |h'| && forall k :: k in closed && k < |h| ==> h'[k] == h[k]
    ensures Finished(h', closed) && forall k :: k in closed ==> k < |h| && h'[k] == h[k]
  {
    hide Within;
  }

  lemma LevelOfTop(heap: seq<Cell>, id: nat, child: nat, v: Value, key: Option<Value>, base: Cell, closed: set<nat>)
    requires Ordered(heap) && id < |heap| && (base.DictCell? <==> key.Some?)
    requires heap[id] == CellPut(base, key, Ref(child)) && Within(base, closed) && CellLater(heap, base, id)
    requires CellTree(heap, base, id) == v
    ensures Level(heap, id, child, Frame(v, key), base, closed)
  {
  }

  // Closing one: its parent already refers to it.
  lemma ShapeAfterClose(h: seq<Cell>, path: seq<nat>, frames: seq<Frame>, bases: seq<Cell>, closed: set<nat>)
    requires Shape(h, path, frames, bases, closed) && frames != []
    ensures var n := |frames| - 1;
            && Shape(h, path[..n + 1], frames[..n], bases[..n], closed + {path[n + 1]})
            && IsContainer(frames[n].cont) && (frames[n].cont.Dict? <==> frames[n].key.Some?)
            && CellTree(h, h[path[n]], path[n])
               == Put(frames[n].cont, frames[n].key, CellTree(h, h[path[n + 1]], path[n + 1]))
  {
    var n := |frames| - 1;
    var id, child, f, base := path[n], path[n + 1], frames[n], bases[n];
    assert Level(h, id, child, f, base, closed);
    TreeOfPut(h, base, f.key, Ref(child), id);
    PutLater(h, base, f.key, Ref(child), id, closed + {child});
    forall i | 0 <= i < n ensures Level(h, path[i], path[i + 1], frames[i], bases[i], closed + {child}) {
      assert Level(h, path[i], path[i + 1], frames[i], bases[i], closed);
    }
  }

  // ---- the stream

  // A NUL stands in `cur` before the first character is read and after the last one.
  class JsonStream {
    const data: string
    var pos: nat
    var cur: char
    ghost var ended: bool

    ghost predicate Valid()
      reads this
    {
      && pos <= |data| && cur == Cur(Rest())
      && (ended ==> pos == |data|)
    }

    // What is left, from the current character on.
    ghost function Rest(): string
      reads this
    {
      if ended then "" else if 0 < pos <= |data| then data[pos - 1..] else "\0" + data
    }

    constructor (data: string)
      ensures Valid() && this.data == data && Rest() == "\0" + data
    {
      this.data := data;
      pos, cur, ended := 0, '\0', false;
    }

    // json_stream_next
    method Next() returns (c: char)
      requires Valid()
      modifies this
      ensures Valid() && c == cur && Rest() == Adv(old(Rest()))
    {
      if pos < |data| {
        cur := data[pos];
        pos := pos + 1;
      } else {
        cur := '\0';
        ended := true;
      }
      c := cur;
    }
  }

  // ---- scanning

  datatype Lexeme = Separator | Atom(v: Value) | Opening(isList: bool) | Closing | Failed(error: Error)

  ghost function WithRest(x: Lexeme, rest: string): Token {
    match x
    case Separator => Skip(rest)
    case Atom(v) => Leaf(v, rest)
    case Opening(isList) => Open(isList, rest)
    case Closing => Close(rest)
    case Failed(error) => Bad(error)
  }

  ghost predicate DiffersAt(word: string, rest: string, k: nat) {
    k < |word| && (k >= |rest| || rest[k] != word[k])
  }

  lemma NotPrefix(word: string, rest: string, k: nat)
    requires DiffersAt(word, rest, k)
    ensures !(word <= rest)
  {
  }

  // The rest of a word, whose first character has been consumed.
  method Expect(s: JsonStream, word: string) returns (ok: bool)
    requires s.Valid() && word != "" && forall i :: 0 <= i < |word| ==> word[i] != '\0'
    modifies s
    ensures s.Valid() && |s.Rest()| <= |old(s.Rest())|
    ensures ok <==> word <= old(s.Rest())
    ensures ok ==> s.Rest() == old(s.Rest())[|word|..]
  {
    ghost var all := s.Rest();
    var i := 1;
    ok := s.cur == word[0];
    while ok && i < |word|
      invariant 1 <= i <= |word| && s.Valid()
      invariant ok ==> i <= |all| && s.Rest() == all[i - 1..] && forall k :: 0 <= k < i ==> all[k] == word[k]
      invariant !ok ==> DiffersAt(word, all, i - 1)
      invariant |s.Rest()| <= |all|
      decreases |word| - i
    {
      var c := s.Next();
      ok := c == word[i];
      i := i + 1;
    }
    if ok {
      var _ := s.Next();
      assert word == all[..i];
    } else {
      NotPrefix(word, all, i - 1);
    }
  }

  method ReadHex(s: JsonStream) returns (num: nat)
    requires s.Valid()
    modifies s
    ensures s.Valid() && num == HexEscape(old(s.Rest()))
    ensures s.Rest() == Adv(Adv(Adv(Adv(old(s.Rest())))))
  {
    ghost var r0 := s.Rest();
    ghost var r1 := Adv(r0);
    ghost var r2 := Adv(r1);
    ghost var r3 := Adv(r2);
    ghost var r4 := Adv(r3);
    num := 0;
    for i := 0 to 4
      invariant s.Valid()
      invariant s.Rest() == [r0, r1, r2, r3, r4][i]
      invariant i == 0 ==> num == 0
      invariant i == 1 ==> num == AddHexDigit(0, Cur(r1))
      invariant i == 2 ==> num == AddHexDigit(AddHexDigit(0, Cur(r1)), Cur(r2))
      invariant i == 3 ==> num == AddHexDigit(AddHexDigit(AddHexDigit(0, Cur(r1)), Cur(r2)), Cur(r3))
      invariant i == 4 ==> num == HexEscape(r0)
    {
      var c := s.Next();
      num := AddHexDigit(num, c);
    }
  }

  method ReadString(s: JsonStream) returns (vstr: string)
    requires s.Valid()
    modifies s
    ensures s.Valid() && (vstr, s.Rest()) == StringBody(old(s.Rest()), "")
  {
    vstr := "";
    while s.cur != '\0' && s.cur != '"'
      invariant s.Valid()
      invariant StringBody(s.Rest(), vstr) == StringBody(old(s.Rest()), "")
      decreases |s.Rest()|
    {
      hide HexEscape, Utf8;
      var c := s.cur;
      if c == '\\' {
        c := s.Next();
        if c == 'u' {
          var num := ReadHex(s);
          vstr := vstr + Utf8(num);
        } else {
          vstr := vstr + [UnescapeShort(c)];
        }
      } else {
        vstr := vstr + [c];
      }
      var _ := s.Next();
    }
  }

  lemma NoFloatChar()
    ensures !HasFloatChar("")
  {
  }

  lemma FloatCharAppended(text: string, c: char)
    ensures HasFloatChar(text + [c]) <==> HasFloatChar(text) || IsFloatChar(c)
  {
    if IsFloatChar(c) {
      assert (text + [c])[|text|] == c;
    }
    if HasFloatChar(text) {
      var i :| 0 <= i < |text| && IsFloatChar(text[i]);
      assert (text + [c])[i] == text[i];
    }
  }

  lemma NumberTextStep(all: string, n: nat)
    requires n < |all| && IsNumberChar(all[n])
    ensures NumberText(all[n..]) == 1 + NumberText(all[n + 1..])
    ensures all[..n + 1] == all[..n] + [all[n]]
  {
    assert all[n..][1..] == all[n + 1..];
  }

  // Collects the characters of a number and whether one of them makes it a float.
  method ScanNumber(s: JsonStream, first: char) returns (vstr: string, flt: bool)
    requires s.Valid()
    modifies s
    ensures var all := old(s.Rest()); var n := NumberText(all);
            && s.Valid() && s.Rest() == all[n..]
            && vstr == [first] + all[..n] && flt == HasFloatChar(all[..n])
  {
    hide HasFloatChar, NumberText;
    ghost var all := s.Rest();
    ghost var n := 0;
    vstr, flt := [first], false;
    NoFloatChar();
    assert all[..0] == "";
    assert all[0..] == all;
    while IsNumberChar(s.cur)
      invariant s.Valid() && n <= |all| && s.Rest() == all[n..]
      invariant NumberText(all) == n + NumberText(all[n..])
      invariant vstr == [first] + all[..n] && flt == HasFloatChar(all[..n])
      decreases |s.Rest()|
    {
      assert s.cur == all[n];
      FloatCharAppended(all[..n], s.cur);
      NumberTextStep(all, n);
      if IsFloatChar(s.cur) {
        flt := true;
      }
      vstr := vstr + [s.cur];
      var _ := s.Next();
      n := n + 1;
    }
    NumberTextEnds(all[n..]);
  }

  lemma NumberTextEnds(rest: string)
    requires !IsNumberChar(Cur(rest))
    ensures NumberText(rest) == 0
  {
  }

  method ReadNumber(s: JsonStream, first: char, pf: string -> Option<real>) returns (x: Lexeme)
    requires s.Valid()
    modifies s
    ensures s.Valid() && |s.Rest()| <= |old(s.Rest())|
    ensures WithRest(x, s.Rest()) == NumberToken(first, old(s.Rest()), pf)
  {
    hide HasFloatChar, ParseInteger, NumberText;
    var vstr, flt := ScanNumber(s, first);
    if flt {
      var r := pf(vstr);
      x := if r.None? then Failed(NumberError) else Atom(Float(r.value));
    } else {
      var i := ParseInteger(vstr);
      x := if i.None? then Failed(NumberError) else Atom(Int(i.value));
    }
  }

  method ReadWord(s: JsonStream, word: string, v: Value) returns (x: Lexeme)
    requires s.Valid() && word != "" && forall i :: 0 <= i < |word| ==> word[i] != '\0'
    modifies s
    ensures s.Valid() && |s.Rest()| <= |old(s.Rest())|
    ensures WithRest(x, s.Rest()) == WordToken(word, v, old(s.Rest()))
  {
    var ok := Expect(s, word);
    x := if ok then Atom(v) else Failed(SyntaxError);
  }

  method ReadStringToken(s: JsonStream) returns (x: Lexeme)
    requires s.Valid()
    modifies s
    ensures s.Valid() && |s.Rest()| <= |old(s.Rest())|
    ensures WithRest(x, s.Rest()) == StringToken(old(s.Rest()))
  {
    hide StringBody, Utf8Check;
    var vstr := ReadString(s);
    if s.cur == '\0' {
      x := Failed(SyntaxError);
    } else {
      var _ := s.Next();
      x := if Utf8Check(vstr, 0) then Atom(Str(vstr)) else Failed(UnicodeError);
    }
  }

  // The switch on the character under the cursor, which is not a NUL.
  method ReadToken(s: JsonStream, pf: string -> Option<real>) returns (x: Lexeme)
    requires s.Valid() && s.cur != '\0'
    modifies s
    ensures s.Valid()
    ensures |s.Rest()| < |old(s.Rest())|
    ensures WithRest(x, s.Rest()) == NextToken(old(s.Rest()), pf)
  {
    hide StringToken, NumberToken, WordToken;
    var cur := s.cur;
    var _ := s.Next();
    if cur == ',' || cur == ':' || cur == ' ' || cur == '\t' || cur == '\n' || cur == '\r' {
      x := Separator;
    } else if cur == 'n' {
      x := ReadWord(s, "ull", Null);
    } else if cur == 'f' {
      x := ReadWord(s, "alse", Bool(false));
    } else if cur == 't' {
      x := ReadWord(s, "rue", Bool(true));
    } else if cur == '"' {
      x := ReadStringToken(s);
    } else if cur == '-' || IsDigit(cur) {
      x := ReadNumber(s, cur, pf);
    } else if cur == '[' {
      x := Opening(true);
    } else if cur == '{' {
      x := Opening(false);
    } else if cur == '}' || cur == ']' {
      x := Closing;
    } else {
      x := Failed(SyntaxError);
    }
  }

  // ---- loading

  // The outcome on the heap is the outcome on values.
  ghost predicate Delivers(heap: seq<Cell>, r: Outcome<Obj>, m: Outcome<Value>) {
    match m
    case Ok(v) => r.Ok? && Ordered(heap) && Later(heap, r.value, -1) && ObjTree(heap, r.value, -1) == v
    case Fail(error) => r == Fail(error)
  }

  method FinishLoad(s: JsonStream, heap: seq<Cell>, top: Obj) returns (r: Outcome<Obj>)
    requires s.Valid() && Ordered(heap) && Later(heap, top, -1)
    modifies s
    ensures s.Valid() && Delivers(heap, r, Finish(old(s.Rest()), ObjTree(heap, top, -1)))
  {
    while IsSpace(s.cur)
      invariant s.Valid()
      invariant Finish(s.Rest(), ObjTree(heap, top, -1)) == Finish(old(s.Rest()), ObjTree(heap, top, -1))
      decreases |s.Rest()|
    {
      var _ := s.Next();
    }
    r := if s.cur == '\0' then Ok(top) else Fail(SyntaxError);
  }

  function EmptyCell(isList: bool): Cell {
    if isList then ListCell([]) else DictCell([])
  }

  lemma ShapeAtFirst(isList: bool)
    ensures Shape([EmptyCell(isList)], [0], [], [], {})
    ensures CellTree([EmptyCell(isList)], EmptyCell(isList), 0) == Empty(isList)
  {
  }

  lemma EmptyTree(heap: seq<Cell>, isList: bool, id: nat)
    requires Ordered(heap)
    ensures CellTree(heap, EmptyCell(isList), id) == Empty(isList)
  {
  }

  // The reader's heap, its stack of open containers but the innermost, the innermost one and
  // the dict key that waits for its value.
  class Loader {
    var heap: seq<Cell>
    var stack: seq<nat>
    var top: Option<nat>
    var key: Option<Value>
    ghost var frames: seq<Frame>
    ghost var bases: seq<Cell>
    ghost var closed: set<nat>

    // The stack holds exactly the open containers, which nest in its order.
    ghost predicate Valid()
      reads this
    {
      && Ordered(heap)
      && (top.Some? ==> top.value < |heap|)
      && |stack| == |frames|
      && WellFormed(TopValue(), frames)
      && if top.None? then heap == [] && frames == [] && closed == {} && bases == []
         else Shape(heap, stack + [top.value], frames, bases, closed)
    }

    ghost function TopValue(): Option<Value>
      reads this
      requires Ordered(heap) && (top.Some? ==> top.value < |heap|)
    {
      if top.None? then None else Some(CellTree(heap, heap[top.value], top.value))
    }

    // What loading comes to if `rest` is what is left to read.
    ghost function Means(rest: string, pf: string -> Option<real>): Outcome<Value>
      reads this
      requires Valid()
    {
      Run(rest, TopValue(), frames, key, pf)
    }

    predicate NeedsKey()
      reads this
      requires Ordered(heap) && (top.Some? ==> top.value < |heap|)
      ensures NeedsKey() <==> top.Some? && TopValue().value.Dict? && key.None?
    {
      top.Some? && heap[top.value].DictCell? && key.None?
    }

    constructor ()
      ensures Valid() && top == None && frames == [] && key == None
    {
      heap, stack, top, key := [], [], None, None;
      frames, bases, closed := [], [], {};
    }

    // A closing bracket inside another container.
    method Leave()
      requires Valid() && top.Some? && stack != []
      modifies this
      ensures Valid() && top.Some? && key == old(key)
      ensures var f := old(frames)[|old(frames)| - 1];
              && frames == old(frames)[..|old(frames)| - 1]
              && TopValue() == Some(Put(f.cont, f.key, old(TopValue()).value))
    {
      hide Shape, CellTree, Put;
      ghost var path := stack + [top.value];
      ShapeInHeap(heap, path, frames, bases, closed);
      ShapeAfterClose(heap, path, frames, bases, closed);
      var n := |stack| - 1;
      assert path[..n + 1] == stack[..n] + [stack[n]];
      assert path[n] == stack[n];
      frames, bases, closed := frames[..n], bases[..n], closed + {top.value};
      top, stack := Some(stack[n]), stack[..n];
    }

    // A dict key: the next value goes under it.
    method AwaitValue(leaf: Value)
      requires Valid() && top.Some?
      modifies this`key
      ensures Valid() && top == old(top) && heap == old(heap) && frames == old(frames)
      ensures TopValue() == old(TopValue()) && key == Some(leaf)
    {
      key := Some(leaf);
    }

    // A value that is not a container, read inside one.
    method Store(leaf: Value)
      requires Valid() && top.Some? && !NeedsKey()
      modifies this
      ensures Valid() && top.Some? && frames == old(frames)
      ensures TopValue() == Some(Put(old(TopValue()).value, old(key), leaf))
      ensures key == if old(TopValue()).value.Dict? then None else old(key)
    {
      hide Shape, Put, CellPut;
      ShapeAfterLeaf(heap, stack + [top.value], frames, bases, closed, key, leaf);
      var isDict := heap[top.value].DictCell?;
      heap := heap[top.value := CellPut(heap[top.value], key, Plain(leaf))];
      ShapeInHeap(heap, stack + [top.value], frames, bases, closed);
      key := if isDict then None else key;
    }

    // An opening bracket inside a container: the new one is stored at once and filled later.
    method Enter(isList: bool)
      requires Valid() && top.Some? && !NeedsKey()
      modifies this
      ensures Valid() && top.Some?
      ensures var own := if old(TopValue()).value.Dict? then old(key) else None;
              frames == old(frames) + [Frame(old(TopValue()).value, own)]
      ensures TopValue() == Some(Empty(isList))
      ensures key == if old(TopValue()).value.Dict? then None else old(key)
    {
      hide Shape, CellPut;
      var id, isDict := |heap|, heap[top.value].DictCell?;
      var own := if isDict then key else None;
      ShapeAfterOpen(heap, stack + [top.value], frames, bases, closed, own, EmptyCell(isList));
      frames, bases := frames + [Frame(TopValue().value, own)], bases + [heap[top.value]];
      heap := heap[top.value := CellPut(heap[top.value], own, Ref(id))] + [EmptyCell(isList)];
      stack, top := stack + [top.value], Some(id);
      ShapeInHeap(heap, stack + [top.value], frames, bases, closed);
      EmptyTree(heap, isList, id);
      key := if isDict then None else key;
    }

    method EnterFirst(isList: bool)
      requires Valid() && top.None?
      modifies this
      ensures Valid() && top.Some? && key == old(key) && frames == old(frames)
      ensures TopValue() == Some(Empty(isList))
    {
      hide Shape, CellTree, Ordered;
      ShapeAtFirst(isList);
      heap, top := [EmptyCell(isList)], Some(0);
      ShapeInHeap(heap, [0], [], [], {});
      assert stack + [0] == [0];
    }
  }

  lemma ShapeInHeap(heap: seq<Cell>, path: seq<nat>, frames: seq<Frame>, bases: seq<Cell>, closed: set<nat>)
    requires Shape(heap, path, frames, bases, closed)
    ensures Ordered(heap) && |path| == |frames| + 1 == |bases| + 1 && forall i :: 0 <= i < |path| ==> path[i] < |heap|
  {
  }

  lemma WholeTree(heap: seq<Cell>, id: nat)
    requires Ordered(heap) && id < |heap|
    ensures Later(heap, Ref(id), -1) && ObjTree(heap, Ref(id), -1) == CellTree(heap, heap[id], id)
  {
  }

  lemma PlainTree(heap: seq<Cell>, v: Value)
    requires Ordered(heap)
    ensures Later(heap, Plain(v), -1) && ObjTree(heap, Plain(v), -1) == v
  {
  }

  // A token has been read at `rest` and the loader means `m` from there on. Either the loader
  // goes on after the token, meaning the same, or it is done with what `m` is.
  ghost predicate Reading(s: JsonStream, l: Loader, rest: string, x: Lexeme, pf: string -> Option<real>)
    reads s, l
  {
    s.Valid() && l.Valid() && Cur(rest) != '\0' && NextToken(rest, pf) == WithRest(x, s.Rest())
  }

  method OnClosing(s: JsonStream, l: Loader, ghost rest: string, pf: string -> Option<real>, ghost m: Outcome<Value>)
      returns (done: bool, r: Outcome<Obj>)
    requires Reading(s, l, rest, Closing, pf) && l.Means(rest, pf) == m
    modifies s, l
    ensures s.Valid() && l.Valid()
    ensures if done then Delivers(l.heap, r, m) else s.Rest() == old(s.Rest()) && l.Means(s.Rest(), pf) == m
  {
    hide NextToken, Shape, CellTree, Put, Finish, Ordered, WellFormed, Later, ObjTree, Run;
    if l.top.None? {
      RunFirst(rest, l.key, pf);
      return true, Fail(SyntaxError);
    }
    RunClose(rest, s.Rest(), l.TopValue().value, l.frames, l.key, pf);
    if l.stack == [] {
      WholeTree(l.heap, l.top.value);
      r := FinishLoad(s, l.heap, Ref(l.top.value));
      return true, r;
    }
    l.Leave();
    return false, Fail(SyntaxError);
  }

  method OnAtom(s: JsonStream, l: Loader, leaf: Value, ghost rest: string, pf: string -> Option<real>,
                ghost m: Outcome<Value>)
      returns (done: bool, r: Outcome<Obj>)
    requires Reading(s, l, rest, Atom(leaf), pf) && l.Means(rest, pf) == m
    modifies s, l
    ensures s.Valid() && l.Valid()
    ensures if done then Delivers(l.heap, r, m) else s.Rest() == old(s.Rest()) && l.Means(s.Rest(), pf) == m
  {
    hide NextToken, Shape, CellTree, Put, Finish, Ordered, WellFormed, Later, ObjTree, Run;
    if l.top.None? {
      RunFirst(rest, l.key, pf);
      PlainTree(l.heap, leaf);
      r := FinishLoad(s, l.heap, Plain(leaf));
      return true, r;
    }
    RunLeaf(rest, leaf, s.Rest(), l.TopValue().value, l.frames, l.key, pf);
    if l.NeedsKey() {
      l.AwaitValue(leaf);
    } else {
      l.Store(leaf);
    }
    return false, Fail(SyntaxError);
  }

  method OnOpening(s: JsonStream, l: Loader, isList: bool, ghost rest: string, pf: string -> Option<real>,
                   ghost m: Outcome<Value>)
      returns (done: bool, r: Outcome<Obj>)
    requires Reading(s, l, rest, Opening(isList), pf) && l.Means(rest, pf) == m
    modifies l
    ensures s.Valid() && l.Valid()
    ensures if done then Delivers(l.heap, r, m) else s.Rest() == old(s.Rest()) && l.Means(s.Rest(), pf) == m
  {
    hide NextToken, Shape, CellTree, Put, Finish, Ordered, WellFormed, Later, ObjTree, Run;
    if l.top.None? {
      RunFirst(rest, l.key, pf);
      l.EnterFirst(isList);
    } else if l.NeedsKey() {
      RunFails(rest, l.TopValue(), l.frames, l.key, pf);
      return true, Fail(SyntaxError);
    } else {
      RunOpen(rest, isList, s.Rest(), l.TopValue().value, l.frames, l.key, pf);
      l.Enter(isList);
    }
    return false, Fail(SyntaxError);
  }

  // One round of the loop.
  method Step(s: JsonStream, l: Loader, pf: string -> Option<real>, ghost m: Outcome<Value>)
      returns (done: bool, r: Outcome<Obj>)
    requires s.Valid() && l.Valid() && l.Means(s.Rest(), pf) == m
    modifies s, l
    ensures s.Valid() && l.Valid()
    ensures if done then Delivers(l.heap, r, m)
            else |s.Rest()| < |old(s.Rest())| && l.Means(s.Rest(), pf) == m
  {
    hide NextToken, Shape, CellTree, Put, Finish, Ordered, WellFormed, Later, ObjTree, Run;
    ghost var rest := s.Rest();
    RunFails(rest, l.TopValue(), l.frames, l.key, pf);
    done, r := true, Fail(SyntaxError);
    if s.cur != '\0' {
      var x := ReadToken(s, pf);
      match x {
        case Failed(error) => r := Fail(error);
        case Separator =>
          RunSkip(rest, s.Rest(), l.TopValue(), l.frames, l.key, pf);
          done := false;
        case Closing => done, r := OnClosing(s, l, rest, pf, m);
        case Atom(leaf) => done, r := OnAtom(s, l, leaf, rest, pf, m);
        case Opening(isList) => done, r := OnOpening(s, l, isList, rest, pf, m);
      }
    }
  }

  // mod_json_load
  method Load(s: JsonStream, pf: string -> Option<real>) returns (r: Outcome<Obj>, l: Loader)
    requires s.Valid() && s.Rest() == "\0" + s.data
    modifies s
    ensures Delivers(l.heap, r, Meaning(s.data, pf))
  {
    hide NextToken, Shape, CellTree, Put, Finish, Ordered, WellFormed, Later, ObjTree, Run, Delivers;
    l := new Loader();
    var _ := s.Next();
    var done := false;
    ghost var m := Meaning(s.data, pf);
    r := Fail(SyntaxError);
    while !done
      invariant s.Valid() && l.Valid() && fresh(l)
      invariant if done then Delivers(l.heap, r, m) else l.Means(s.Rest(), pf) == m
      decreases !done, |s.Rest()|
    {
      done, r := Step(s, l, pf, m);
    }
  }
}
