/** Bitwise operations on natural numbers, bit by bit from the least significant. */
module Bits {
  import opened Prelude

  type u8 = x: int | 0 <= x < 256
  type u16 = x: int | 0 <= x < 0x1_0000
  type u32 = x: int | 0 <= x < TWO_32

  function Xor(a: nat, b: nat): nat
    decreases a + b
  {
    if a == 0 && b == 0 then 0 else (a % 2 + b % 2) % 2 + 2 * Xor(a / 2, b / 2)
  }

  function And(a: nat, b: nat): nat
    decreases a + b
  {
    if a == 0 && b == 0 then 0 else (a % 2) * (b % 2) + 2 * And(a / 2, b / 2)
  }

  function Pow2(n: nat): (p: nat)
    ensures p >= 1
  {
    if n == 0 then 1 else 2 * Pow2(n - 1)
  }

  lemma Pow2Values()
    ensures Pow2(8) == 256 && Pow2(32) == TWO_32
  {
    assert Pow2(4) == 16;
    assert Pow2(8) == 16 * Pow2(4);
    assert Pow2(12) == 16 * Pow2(8);
    assert Pow2(16) == 16 * Pow2(12);
    assert Pow2(20) == 16 * Pow2(16);
    assert Pow2(24) == 16 * Pow2(20);
    assert Pow2(28) == 16 * Pow2(24);
    assert Pow2(32) == 16 * Pow2(28);
  }

  lemma {:induction false} XorHalves(a: nat, b: nat)
    ensures Xor(a, b) / 2 == Xor(a / 2, b / 2) && Xor(a, b) % 2 == (a % 2 + b % 2) % 2
  {
    if a == 0 && b == 0 {
      assert Xor(0, 0) == 0;
    }
  }

  lemma {:induction false} XorBound(a: nat, b: nat, n: nat)
    requires a < Pow2(n) && b < Pow2(n)
    ensures Xor(a, b) < Pow2(n)
    decreases n
  {
    if n > 0 {
      XorBound(a / 2, b / 2, n - 1);
      XorHalves(a, b);
    }
  }

  lemma FromHalves(x: nat, y: nat)
    requires x / 2 == y / 2 && x % 2 == y % 2
    ensures x == y
  {
  }

  lemma {:induction false} XorCommutes(a: nat, b: nat)
    ensures Xor(a, b) == Xor(b, a)
    decreases a + b
  {
    if a != 0 || b != 0 {
      XorCommutes(a / 2, b / 2);
    }
  }

  /** Exclusive or with the same number twice changes nothing. */
  lemma {:induction false} XorTwice(a: nat, b: nat)
    ensures Xor(Xor(a, b), b) == a
    decreases a + b
  {
    if a == 0 && b == 0 {
      assert Xor(0, 0) == 0;
    } else {
      XorTwice(a / 2, b / 2);
      TwiceHalves(a, b, Xor(a, b));
    }
  }

  lemma {:induction false} TwiceHalves(a: nat, b: nat, c: nat)
    requires c == Xor(a, b) && Xor(Xor(a / 2, b / 2), b / 2) == a / 2
    ensures Xor(c, b) == a
  {
    hide Xor;
    XorHalves(a, b);
    XorHalves(c, b);
    FromHalves(Xor(c, b), a);
  }

  /** Exclusive or with all ones is the complement. */
  lemma {:induction false} XorOnes(a: nat, n: nat)
    requires a < Pow2(n)
    ensures Xor(a, Pow2(n) - 1) == Pow2(n) - 1 - a
    decreases n
  {
    if n > 0 {
      XorOnes(a / 2, n - 1);
      OnesHalves(a, Pow2(n) - 1, Pow2(n - 1) - 1);
    }
  }

  lemma {:induction false} OnesHalves(a: nat, ones: nat, half: nat)
    requires ones == 2 * half + 1 && a <= ones && Xor(a / 2, half) == half - a / 2
    ensures Xor(a, ones) == ones - a
  {
    hide Xor;
    XorHalves(a, ones);
    FromHalves(Xor(a, ones), ones - a);
  }

  lemma {:induction false} AndOnes(a: nat, n: nat)
    requires a < Pow2(n)
    ensures And(Pow2(n) - 1, a) == a
    decreases n
  {
    if n > 0 {
      AndOnes(a / 2, n - 1);
      assert (Pow2(n) - 1) / 2 == Pow2(n - 1) - 1;
      assert (Pow2(n) - 1) % 2 == 1;
    }
  }

  lemma {:induction false} AndBound(a: nat, b: nat)
    ensures And(a, b) <= b
    decreases a + b
  {
    if a != 0 || b != 0 {
      AndBound(a / 2, b / 2);
    }
  }

  /** Bit `k` of a number. */
  function BitAt(a: nat, k: nat): nat
  {
    if k == 0 then a % 2 else BitAt(a / 2, k - 1)
  }

  /** Bit by bit: exclusive or tells whether two bits differ, and whether both are set. */
  lemma {:induction false} BitByBit(a: nat, b: nat, k: nat)
    ensures BitAt(Xor(a, b), k) == (if BitAt(a, k) == BitAt(b, k) then 0 else 1)
    ensures BitAt(And(a, b), k) == (if BitAt(a, k) == 1 && BitAt(b, k) == 1 then 1 else 0)
    decreases k
  {
    XorHalves(a, b);
    AndHalves(a, b);
    if k > 0 {
      BitByBit(a / 2, b / 2, k - 1);
    }
  }

  lemma {:induction false} AndHalves(a: nat, b: nat)
    ensures And(a, b) / 2 == And(a / 2, b / 2)
    ensures And(a, b) % 2 == (if a % 2 == 1 && b % 2 == 1 then 1 else 0)
  {
  }

  // ───────────── 32-bit words ─────────────

  function Xor32(a: u32, b: u32): u32
  {
    Pow2Values();
    XorBound(a, b, 32);
    Xor(a, b)
  }

  function And32(a: u32, b: u32): u32
  {
    AndBound(a, b);
    And(a, b)
  }

  const ONES: u32 := 0xFFFF_FFFF

  lemma Xor32Twice(a: u32, b: u32)
    ensures Xor32(Xor32(a, b), b) == a
  {
    hide Xor;
    XorTwice(a, b);
  }

  lemma Xor32Ones(a: u32)
    ensures Xor32(a, ONES) == ONES - a && Xor32(ONES, a) == ONES - a
  {
    hide Xor;
    Pow2Values();
    XorOnes(a, 32);
    XorCommutes(ONES, a);
  }

  /** Two words add up to all ones exactly when they are complements. */
  lemma Xor32Complement(a: u32, b: u32)
    ensures Xor32(a, b) == ONES <==> a == ONES - b
  {
    hide Xor32;
    Xor32Twice(a, b);
    Xor32Twice(ONES, b);
    Xor32Ones(b);
  }

  lemma And32Ones(a: u32)
    ensures And32(ONES, a) == a
  {
    Pow2Values();
    AndOnes(a, 32);
  }
}
