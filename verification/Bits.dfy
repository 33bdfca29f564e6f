/** Bytes, numbers made of them, and bitwise exclusive or on non-negative integers. */
module Bits {

  type Byte = b: int | 0 <= b < 256

  function Xor(a: nat, b: nat): nat {
    if a == 0 && b == 0 then 0 else 2 * Xor(a / 2, b / 2) + (a + b) % 2
  }

  // Bit k of a number, the lowest being bit 0.
  predicate Bit(n: nat, k: nat) {
    if k == 0 then n % 2 == 1 else Bit(n / 2, k - 1)
  }

  lemma {:induction false} XorBits(a: nat, b: nat, k: nat)
    ensures Bit(Xor(a, b), k) <==> Bit(a, k) != Bit(b, k)
  {
    hide Xor;
    XorParts(a, b);
    if k > 0 {
      XorBits(a / 2, b / 2, k - 1);
    } else {
      OddSum(a, b);
    }
  }

  lemma OddSum(a: nat, b: nat)
    ensures (a + b) % 2 == 1 <==> (a % 2 == 1) != (b % 2 == 1)
  {
  }

  lemma XorParts(a: nat, b: nat)
    ensures Xor(a, b) / 2 == Xor(a / 2, b / 2) && Xor(a, b) % 2 == (a + b) % 2
  {
  }

  lemma {:induction false} XorTwice(a: nat, b: nat)
    ensures Xor(Xor(a, b), b) == a
  {
    if a != 0 || b != 0 {
      XorTwice(a / 2, b / 2);
      hide Xor;
      XorParts(a, b);
      XorParts(Xor(a, b), b);
      ParityTwice(a, b);
    }
  }

  lemma ParityTwice(a: nat, b: nat)
    ensures ((a + b) % 2 + b) % 2 == a % 2
    ensures forall x: nat :: x % 2 == (a + b) % 2 ==> (x + b) % 2 == a % 2
  {
  }

  lemma {:induction false} XorZero(a: nat)
    ensures Xor(a, 0) == a
  {
    if a != 0 {
      XorZero(a / 2);
    }
  }

  lemma {:induction false} XorBelow(a: nat, b: nat, m: nat)
    requires m in {1, 2, 4, 8, 16, 32, 64, 128, 256} && a < m && b < m
    ensures Xor(a, b) < m
    decreases m
  {
    if m > 1 {
      XorBelow(a / 2, b / 2, m / 2);
    }
  }

  // Numbers as bytes, the most significant first.

  function Pow256(n: nat): nat {
    if n == 0 then 1 else 256 * Pow256(n - 1)
  }

  function Value(s: seq<Byte>): nat {
    if s == [] then 0 else 256 * Value(s[..|s| - 1]) + s[|s| - 1]
  }

  // Byte i counts as its own value times a power of 256 for each byte behind it.
  lemma {:induction false} ValueOfFirst(b: Byte, s: seq<Byte>)
    ensures Value([b] + s) == b * Pow256(|s|) + Value(s)
  {
    if s == [] {
      assert [b] + s == [b];
      assert [b][..0] == [];
    } else {
      var t := s[..|s| - 1];
      assert ([b] + s)[..|s|] == [b] + t;
      ValueOfFirst(b, t);
      assert 256 * (b * Pow256(|t|)) == b * (256 * Pow256(|t|));
    }
  }

  lemma {:induction false} ValueBelow(s: seq<Byte>)
    ensures Value(s) < Pow256(|s|)
  {
    if s != [] {
      ValueBelow(s[..|s| - 1]);
    }
  }
}
