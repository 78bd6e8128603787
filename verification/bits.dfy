/**
 * Unsigned machine integers as bounded naturals, and the bitwise operations
 * the checksum code uses, defined arithmetically: `x >> k` is `x / 2^k`,
 * `x & (2^k - 1)` is `x % 2^k`, `~x` on 32 bits is `0xFFFFFFFF - x`, and
 * exclusive or is `Xor`, defined bit by bit from the least significant bit.
 */
module Bits {

  /** A C# `byte`. */
  type byte = x: int | 0 <= x < 0x100

  /** A C# `uint`. */
  type u32 = x: int | 0 <= x < 0x1_0000_0000

  function Pow2(k: nat): (p: nat)
    ensures p >= 1
  {
    if k == 0 then 1 else 2 * Pow2(k - 1)
  }

  lemma Pow2Of32()
    ensures Pow2(32) == 0x1_0000_0000
  {
    assert Pow2(4) == 0x10;
    assert Pow2(8) == 0x100;
    assert Pow2(12) == 0x1000;
    assert Pow2(16) == 0x1_0000;
    assert Pow2(20) == 0x10_0000;
    assert Pow2(24) == 0x100_0000;
    assert Pow2(28) == 0x1000_0000;
  }

  /** Bitwise exclusive or of two naturals. */
  function Xor(a: nat, b: nat): nat
    decreases a + b
  {
    if a == 0 && b == 0 then 0 else 2 * Xor(a / 2, b / 2) + (if a % 2 == b % 2 then 0 else 1)
  }

  /** The low bit of `Xor(a, b)` is the sum of the low bits modulo 2, and the
      remaining bits are the exclusive or of the remaining bits. */
  lemma XorHalves(a: nat, b: nat)
    ensures Xor(a, b) % 2 == (if a % 2 == b % 2 then 0 else 1)
    ensures Xor(a, b) / 2 == Xor(a / 2, b / 2)
  {
  }

  /** Two naturals with the same low bit and the same upper bits are equal. */
  lemma SameHalves(x: nat, y: nat)
    requires x % 2 == y % 2 && x / 2 == y / 2
    ensures x == y
  {
  }

  lemma {:induction false} XorZero(a: nat)
    ensures Xor(a, 0) == a && Xor(0, a) == a
  {
    if a != 0 {
      XorZero(a / 2);
      XorHalves(a, 0);
      XorHalves(0, a);
      SameHalves(Xor(a, 0), a);
      SameHalves(Xor(0, a), a);
    }
  }

  lemma {:induction false} XorSelf(a: nat)
    ensures Xor(a, a) == 0
  {
    if a != 0 {
      XorSelf(a / 2);
      XorHalves(a, a);
      SameHalves(Xor(a, a), 0);
    }
  }

  lemma {:induction false} XorComm(a: nat, b: nat)
    ensures Xor(a, b) == Xor(b, a)
    decreases a + b
  {
    if a + b != 0 {
      XorComm(a / 2, b / 2);
      XorHalves(a, b);
      XorHalves(b, a);
      SameHalves(Xor(a, b), Xor(b, a));
    }
  }

  lemma {:induction false} XorAssoc(a: nat, b: nat, c: nat)
    ensures Xor(Xor(a, b), c) == Xor(a, Xor(b, c))
    decreases a + b + c
  {
    if a + b + c != 0 {
      var ab, bc := Xor(a, b), Xor(b, c);
      XorAssoc(a / 2, b / 2, c / 2);
      XorHalves(a, b);
      XorHalves(ab, c);
      XorHalves(b, c);
      XorHalves(a, bc);
      assert Xor(ab, c) / 2 == Xor(a, bc) / 2;
      assert Xor(ab, c) % 2 == Xor(a, bc) % 2;
      SameHalves(Xor(ab, c), Xor(a, bc));
    }
  }

  /** Exclusive or stays within `k` bits. */
  lemma {:induction false} XorBound(a: nat, b: nat, k: nat)
    requires a < Pow2(k) && b < Pow2(k)
    ensures Xor(a, b) < Pow2(k)
  {
    if a + b != 0 {
      XorBound(a / 2, b / 2, k - 1);
      XorHalves(a, b);
    }
  }

  /** A value whose low `k` bits are clear does not overlap `a < 2^k`: the
      exclusive or is the sum. */
  lemma {:induction false} XorDisjoint(a: nat, m: nat, k: nat)
    requires a < Pow2(k)
    ensures Xor(a, Pow2(k) * m) == a + Pow2(k) * m
  {
    if k == 0 {
      XorZero(m);
    } else {
      var t := Pow2(k - 1) * m;
      assert Pow2(k) * m == 2 * t;
      XorDisjoint(a / 2, m, k - 1);
      XorHalves(a, 2 * t);
      assert (2 * t) % 2 == 0 && (2 * t) / 2 == t;
      assert Xor(a, 2 * t) / 2 == a / 2 + t;
      assert (a + 2 * t) / 2 == a / 2 + t && (a + 2 * t) % 2 == a % 2;
      SameHalves(Xor(a, 2 * t), a + 2 * t);
    }
  }

  /** Eight halvings are a division by 256. */
  lemma EightHalvings(x: nat)
    ensures x / 2 / 2 / 2 / 2 / 2 / 2 / 2 / 2 == x / 0x100
  {
  }

  /** `Xor` with a value below 256 leaves the bits above the low byte alone. */
  lemma XorHighByte(a: nat, b: nat)
    requires b < 0x100
    ensures Xor(a, b) / 0x100 == a / 0x100
  {
    var a1, b1 := a / 2, b / 2;
    var a2, b2 := a1 / 2, b1 / 2;
    var a3, b3 := a2 / 2, b2 / 2;
    var a4, b4 := a3 / 2, b3 / 2;
    var a5, b5 := a4 / 2, b4 / 2;
    var a6, b6 := a5 / 2, b5 / 2;
    var a7, b7 := a6 / 2, b6 / 2;
    XorHalves(a, b);
    XorHalves(a1, b1);
    XorHalves(a2, b2);
    XorHalves(a3, b3);
    XorHalves(a4, b4);
    XorHalves(a5, b5);
    XorHalves(a6, b6);
    XorHalves(a7, b7);
    EightHalvings(b);
    XorZero(a7 / 2);
    EightHalvings(a);
    EightHalvings(Xor(a, b));
  }
}
