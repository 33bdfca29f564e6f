/**
  AES in counter mode as built on a block cipher: the 128-bit counter held as bytes, and the
  stream it makes across calls.
 */
module AesCtr {
  import opened Arith
  import opened Bits
  import opened Sequences

  // ---- counters as bytes, the most significant first

  function Digits(v: nat, n: nat): (s: seq<Byte>)
    ensures |s| == n
  {
    if n == 0 then [] else Digits(v / 256, n - 1) + [v % 256]
  }

  lemma {:induction false} ValueOfDigits(v: nat, n: nat)
    requires v < Pow256(n)
    ensures Value(Digits(v, n)) == v
  {
    if n > 0 {
      ValueOfDigits(v / 256, n - 1);
      var init := Digits(v / 256, n - 1);
      assert Digits(v, n) == init + [v % 256];
      assert (init + [v % 256])[..n - 1] == init;
    }
  }

  lemma {:induction false} DigitsOfValue(s: seq<Byte>)
    ensures Digits(Value(s), |s|) == s
  {
    if s != [] {
      DigitsOfValue(s[..|s| - 1]);
    }
  }

  // One more, without the carry out of the first byte.
  function Increment(s: seq<Byte>): (r: seq<Byte>)
    ensures |r| == |s|
  {
    if s == [] then []
    else if s[|s| - 1] == 255 then Increment(s[..|s| - 1]) + [0]
    else s[..|s| - 1] + [s[|s| - 1] + 1]
  }

  lemma {:induction false} IncrementAddsOne(s: seq<Byte>)
    ensures Value(Increment(s)) == if Value(s) + 1 == Pow256(|s|) then 0 else Value(s) + 1
  {
    if s != [] {
      var init, last := s[..|s| - 1], s[|s| - 1];
      IncrementAddsOne(init);
      ValueBelow(init);
      if last == 255 {
        assert (Increment(init) + [0])[..|s| - 1] == Increment(init);
      } else {
        assert (init + [last + 1])[..|s| - 1] == init;
      }
    }
  }

  const BLOCKS := 0x1_0000_0000_0000_0000_0000_0000_0000_0000

  lemma Pow256Doubles(n: nat)
    ensures Pow256(2 * n) == Pow256(n) * Pow256(n)
  {
    if n > 0 {
      Pow256Doubles(n - 1);
      assert Pow256(2 * n) == 256 * (256 * Pow256(2 * (n - 1)));
    }
  }

  lemma BlockCount()
    ensures Pow256(16) == BLOCKS
  {
    assert Pow256(2) == 0x1_0000;
    Pow256Doubles(2);
    Pow256Doubles(4);
    Pow256Doubles(8);
  }

  // ---- the stream

  type Block = b: seq<Byte> | |b| == 16 witness [0, 0, 0, 0, 0, 0, 0, 0, 0, 0, 0, 0, 0, 0, 0, 0]

  // The counter block number k of a stream that starts at iv.
  function CounterBlock(iv: nat, k: nat): Block {
    Digits((iv + k) % BLOCKS, 16)
  }

  // The blocks of the stream begun by its first t bytes.
  function Started(t: nat): nat {
    (t + 15) / 16
  }

  function KeyByte(cipher: Block -> Block, iv: nat, i: nat): Byte {
    cipher(CounterBlock(iv, i / 16))[i % 16]
  }

  function Mix(a: Byte, b: Byte): (r: Byte)
    ensures r == Xor(a, b)
  {
    XorBelow(a, b, 256);
    Xor(a, b)
  }

  // Data that begins t bytes into the stream, enciphered or deciphered.
  function Stream(cipher: Block -> Block, iv: nat, t: nat, data: seq<Byte>): (r: seq<Byte>)
    ensures |r| == |data|
  {
    seq(|data|, i requires 0 <= i < |data| => Mix(data[i], KeyByte(cipher, iv, t + i)))
  }

  lemma StreamAt(cipher: Block -> Block, iv: nat, t: nat, data: seq<Byte>, i: nat)
    requires i < |data|
    ensures Stream(cipher, iv, t, data)[i] == Xor(data[i], KeyByte(cipher, iv, t + i))
  {
  }

  // A second run over the same stretch restores the data.
  lemma {:induction false} StreamTwice(cipher: Block -> Block, iv: nat, t: nat, data: seq<Byte>)
    ensures Stream(cipher, iv, t, Stream(cipher, iv, t, data)) == data
  {
    var once := Stream(cipher, iv, t, data);
    forall i: nat | i < |data|
      ensures Stream(cipher, iv, t, once)[i] == data[i]
    {
      hide Stream;
      StreamAt(cipher, iv, t, data, i);
      StreamAt(cipher, iv, t, once, i);
      XorTwice(data[i], KeyByte(cipher, iv, t + i));
    }
  }

  // What successive calls on the chunks write.
  function Streams(cipher: Block -> Block, iv: nat, t: nat, chunks: seq<seq<Byte>>): seq<Byte>
    decreases |chunks|
  {
    if chunks == [] then []
    else Stream(cipher, iv, t, chunks[0]) + Streams(cipher, iv, t + |chunks[0]|, chunks[1..])
  }

  lemma StreamSplits(cipher: Block -> Block, iv: nat, t: nat, a: seq<Byte>, b: seq<Byte>)
    ensures Stream(cipher, iv, t, a + b) == Stream(cipher, iv, t, a) + Stream(cipher, iv, t + |a|, b)
  {
    hide Stream, KeyByte;
    forall i: nat | i < |a + b|
      ensures Stream(cipher, iv, t, a + b)[i] == (Stream(cipher, iv, t, a) + Stream(cipher, iv, t + |a|, b))[i]
    {
      StreamAt(cipher, iv, t, a + b, i);
      if i < |a| {
        StreamAt(cipher, iv, t, a, i);
      } else {
        StreamAt(cipher, iv, t + |a|, b, i - |a|);
        assert t + |a| + (i - |a|) == t + i;
      }
    }
  }

  // However the data is cut up, the calls together write what one call writes.
  lemma {:induction false} ChunkingIsFree(cipher: Block -> Block, iv: nat, t: nat, chunks: seq<seq<Byte>>)
    ensures Streams(cipher, iv, t, chunks) == Stream(cipher, iv, t, Concat(chunks))
    decreases |chunks|
  {
    hide Stream;
    if chunks == [] {
      EmptyStream(cipher, iv, t);
    } else {
      ChunkingIsFree(cipher, iv, t + |chunks[0]|, chunks[1..]);
      StreamSplits(cipher, iv, t, chunks[0], Concat(chunks[1..]));
    }
  }

  lemma EmptyStream(cipher: Block -> Block, iv: nat, t: nat)
    ensures Stream(cipher, iv, t, []) == []
  {
  }

  lemma FirstBlock(iv: Block)
    ensures CounterBlock(Value(iv), 0) == iv
  {
    hide Digits, Value, Pow256;
    BlockCount();
    ValueBelow(iv);
    DigitsOfValue(iv);
  }

  lemma NextBlock(iv: nat, k: nat)
    ensures Increment(CounterBlock(iv, k)) == CounterBlock(iv, k + 1)
  {
    hide Digits, Value, Pow256, Increment;
    BlockCount();
    var v := (iv + k) % BLOCKS;
    var b := CounterBlock(iv, k);
    IncrementAddsOne(b);
    ValueOfDigits(v, 16);
    DigitsOfValue(Increment(b));
    ModuloNext(iv + k, BLOCKS);
  }

  lemma ModuloNext(a: nat, d: nat)
    requires d > 1
    ensures (a + 1) % d == if a % d + 1 == d then 0 else a % d + 1
  {
    Fundamental(a, d);
    if a % d + 1 == d {
      Distribute(a / d, 1, d);
      DivMod(a / d + 1, 0, d);
    } else {
      DivMod(a / d, a % d + 1, d);
    }
  }

  // No counter block comes twice before all have come.
  lemma BlocksDiffer(iv: nat, j: nat, k: nat)
    requires j < k < j + BLOCKS
    ensures CounterBlock(iv, j) != CounterBlock(iv, k)
  {
    hide Digits, Pow256;
    BlockCount();
    var a, b := (iv + j) % BLOCKS, (iv + k) % BLOCKS;
    ValueOfDigits(a, 16);
    ValueOfDigits(b, 16);
    if a == b {
      Fundamental(iv + j, BLOCKS);
      Fundamental(iv + k, BLOCKS);
      UniqueQuotient((iv + k) / BLOCKS - (iv + j) / BLOCKS, 0, 0, k - j, BLOCKS);
    }
  }

  // ---- the key stream as blocks

  // The first n enciphered counter blocks, one behind the other.
  function KeyBlocks(cipher: Block -> Block, iv: nat, n: nat): (s: seq<Byte>)
    ensures |s| == 16 * n
  {
    if n == 0 then [] else KeyBlocks(cipher, iv, n - 1) + cipher(CounterBlock(iv, n - 1))
  }

  lemma {:induction false} KeyBlocksAt(cipher: Block -> Block, iv: nat, n: nat, i: nat)
    requires i < 16 * n
    ensures KeyBlocks(cipher, iv, n)[i] == KeyByte(cipher, iv, i)
  {
    hide CounterBlock;
    if i < 16 * (n - 1) {
      KeyBlocksAt(cipher, iv, n - 1, i);
    } else {
      DivMod(n - 1, i - 16 * (n - 1), 16);
    }
  }

  // Enciphering is exclusive or with the enciphered counter blocks, byte by byte in their order.
  lemma StreamIsXor(cipher: Block -> Block, iv: nat, data: seq<Byte>, n: nat)
    requires |data| <= 16 * n
    ensures forall i :: 0 <= i < |data| ==>
              Stream(cipher, iv, 0, data)[i] == Xor(data[i], KeyBlocks(cipher, iv, n)[i])
  {
    hide Stream, KeyByte, KeyBlocks;
    forall i: nat | i < |data| ensures Stream(cipher, iv, 0, data)[i] == Xor(data[i], KeyBlocks(cipher, iv, n)[i]) {
      StreamAt(cipher, iv, 0, data, i);
      KeyBlocksAt(cipher, iv, n, i);
    }
  }

  // Counter block k is the number iv + k, reduced to 128 bits, with its most significant byte first.
  lemma CounterBlockValue(iv: nat, k: nat)
    ensures Value(CounterBlock(iv, k)) == (iv + k) % BLOCKS
  {
    hide Digits, Value, Pow256;
    BlockCount();
    ValueOfDigits((iv + k) % BLOCKS, 16);
  }

  // The carry goes from the last byte toward the first.
  lemma CarryExample(front: seq<Byte>, b: Byte)
    requires b < 255
    ensures Increment(front + [b, 255]) == front + [b + 1, 0]
    ensures Increment(front + [255, b]) == front + [255, b + 1]
  {
    var s, u := front + [b, 255], front + [255, b];
    assert s[..|s| - 1] == front + [b] && u[..|u| - 1] == front + [255];
    assert (front + [b])[..|front|] == front;
    assert front + [b + 1] + [0] == front + [b + 1, 0] && front + [255] + [b + 1] == front + [255, b + 1];
  }

  // ---- the cipher object

  class Ctr {
    const cipher: Block -> Block
    const counter: array<Byte>
    const encryptedCounter: array<Byte>
    var offset: nat

    ghost predicate Valid()
      reads this, counter, encryptedCounter
    {
      counter.Length == 16 && encryptedCounter.Length == 16 && counter != encryptedCounter && offset < 16
    }

    // t bytes have been taken from the stream that starts at iv.
    ghost predicate At(iv: nat, t: nat)
      reads this, counter, encryptedCounter
    {
      && Valid()
      && offset == t % 16
      && counter[..] == CounterBlock(iv, Started(t))
      && (t % 16 != 0 ==> encryptedCounter[..] == cipher(CounterBlock(iv, t / 16)))
    }

    constructor (cipher: Block -> Block, iv: Block)
      ensures Valid() && fresh(counter) && fresh(encryptedCounter)
      ensures At(Value(iv), 0)
    {
      this.cipher := cipher;
      counter := new Byte[16](i requires 0 <= i < 16 => iv[i]);
      encryptedCounter := new Byte[16](_ => 0);
      offset := 0;
      new;
      assert counter[..] == iv;
      FirstBlock(iv);
    }

    method IncrementCounter()
      requires Valid()
      modifies counter
      ensures counter[..] == Increment(old(counter[..]))
    {
      var i := 15;
      ghost var was := counter[..];
      assert was[..16] == was;
      ghost var zeros: seq<Byte> := [];
      while i >= 0
        invariant -1 <= i <= 15 && |zeros| == 15 - i
        invariant counter[..] == was[..i + 1] + zeros
        invariant Increment(was) == Increment(was[..i + 1]) + zeros
      {
        assert was[..i + 1][..i] == was[..i];
        assert was[..i + 1] == was[..i] + [counter[i]];
        counter[i] := if counter[i] == 255 then 0 else counter[i] + 1;
        if counter[i] != 0 {
          assert counter[..] == was[..i] + [counter[i]] + zeros;
          return;
        }
        zeros := [0] + zeros;
        i := i - 1;
      }
    }

    // The next block of the key stream.
    method TakeBlock(ghost iv: nat, ghost k: nat)
      requires Valid() && counter[..] == CounterBlock(iv, k)
      modifies counter, encryptedCounter
      ensures counter[..] == CounterBlock(iv, k + 1)
      ensures encryptedCounter[..] == cipher(CounterBlock(iv, k))
    {
      hide CounterBlock, Increment;
      ghost var was := counter[..];
      var b := cipher(counter[..]);
      forall j | 0 <= j < 16 {
        encryptedCounter[j] := b[j];
      }
      assert encryptedCounter[..] == b && counter[..] == was;
      IncrementCounter();
      NextBlock(iv, k);
    }

    // Enciphers or deciphers the input to out, which may be the input itself, t bytes into the
    // stream from iv.
    method Process(input: array<Byte>, out: array<Byte>, ghost iv: nat, ghost t: nat)
      requires At(iv, t) && input.Length <= out.Length
      requires input != counter && input != encryptedCounter && out != counter && out != encryptedCounter
      modifies this, counter, encryptedCounter, out
      ensures At(iv, t + input.Length)
      ensures out[..input.Length] == Stream(cipher, iv, t, old(input[..]))
      ensures out[input.Length..] == old(out[input.Length..])
    {
      hide Stream, CounterBlock, Increment, KeyByte, Started;
      var n := offset;
      ghost var data, rest, u := input[..], out[input.Length..], t;
      for k := 0 to input.Length
        invariant Valid() && u == t + k && n == u % 16
        invariant counter[..] == CounterBlock(iv, Started(u))
        invariant n != 0 ==> encryptedCounter[..] == cipher(CounterBlock(iv, u / 16))
        invariant forall i :: 0 <= i < k ==> out[i] == Stream(cipher, iv, t, data)[i]
        invariant forall i :: k <= i < input.Length ==> input[i] == data[i]
        invariant out[input.Length..] == rest
      {
        Position(u);
        if n == 0 {
          TakeBlock(iv, u / 16);
        }
        ghost var next, enc := counter[..], encryptedCounter[..];
        assert next == CounterBlock(iv, u / 16 + 1);
        StreamAt(cipher, iv, t, data, k);
        KeyAt(cipher, iv, u);
        out[k] := Mix(input[k], encryptedCounter[n]);
        assert counter[..] == next && encryptedCounter[..] == enc;
        n := (n + 1) % 16;
        u := u + 1;
      }
      offset := n;
    }
  }

  lemma Position(u: nat)
    ensures (u + 1) % 16 == (u % 16 + 1) % 16
    ensures Started(u) == if u % 16 == 0 then u / 16 else u / 16 + 1
    ensures Started(u + 1) == u / 16 + 1
    ensures (u + 1) % 16 != 0 ==> (u + 1) / 16 == u / 16
  {
  }

  lemma KeyAt(cipher: Block -> Block, iv: nat, u: nat)
    ensures KeyByte(cipher, iv, u) == cipher(CounterBlock(iv, u / 16))[u % 16]
  {
  }
}
