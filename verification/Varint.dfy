/** Base-128 varints (Protocol Buffers Encoding, "Base 128 Varints" and "Signed Integers"):
    what the byte strings mean, independently of the loops that read and write them. */
module Varint {
  import opened Prelude

  /** The value denoted by a little-endian group of 7-bit digits; the top bit of each byte is a flag. */
  function Eval(s: bytes): nat
  {
    if s == [] then 0 else s[0] % 128 + 128 * Eval(s[1..])
  }

  /** The shortest digit string of `v`, every byte but the last flagged with 0x80. */
  function Digits(v: nat): (s: bytes)
    ensures |s| >= 1
  {
    if v < 128 then [v] else [128 + v % 128] + Digits(v / 128)
  }

  /** A complete varint: continuation flags on every byte but the last. */
  ghost predicate IsGroup(s: bytes)
  {
    |s| >= 1 && s[|s| - 1] < 128 && forall i :: 0 <= i < |s| - 1 ==> s[i] >= 128
  }

  ghost predicate IsMinimal(s: bytes)
  {
    IsGroup(s) && (|s| > 1 ==> s[|s| - 1] != 0)
  }

  /** Length of the varint at the front of `b`, if one is complete there. */
  function GroupLen(b: bytes): (r: Option<nat>)
    ensures r.Some? ==> 1 <= r.value <= |b| && IsGroup(b[..r.value])
    ensures r.None? ==> forall i :: 0 <= i < |b| ==> b[i] >= 128
  {
    if b == [] then None
    else if b[0] < 128 then Some(1)
    else
      var r := GroupLen(b[1..]);
      if r.None? then None
      else
        assert b[..r.value + 1] == [b[0]] + b[1..][..r.value];
        Some(r.value + 1)
  }

  lemma {:induction false} GroupLenOf(g: bytes, rest: bytes)
    requires IsGroup(g)
    ensures GroupLen(g + rest) == Some(|g|)
  {
    if |g| == 1 {
      assert (g + rest)[0] == g[0];
    } else {
      assert g[0] >= 128;
      assert (g + rest)[1..] == g[1..] + rest;
      GroupLenOf(g[1..], rest);
    }
  }

  /** The encoder's digits are the one minimal varint of their value. */
  lemma {:induction false} DigitsMinimal(v: nat)
    ensures IsMinimal(Digits(v)) && Eval(Digits(v)) == v
  {
    if v >= 128 {
      DigitsMinimal(v / 128);
      var d := Digits(v / 128);
      assert Digits(v) == [128 + v % 128] + d;
      assert Digits(v)[1..] == d;
      assert Digits(v)[|d|] == d[|d| - 1];
    }
  }

  lemma {:induction false} MinimalUnique(s: bytes)
    requires IsMinimal(s)
    ensures s == Digits(Eval(s))
  {
    if |s| > 1 {
      var t := s[1..];
      assert t[|t| - 1] == s[|s| - 1];
      MinimalUnique(t);
      EvalPositive(t);
      assert Eval(s) / 128 == Eval(t) && Eval(s) % 128 == s[0] - 128;
      assert s == [s[0]] + t;
    } else {
      assert Eval(s[1..]) == 0;
    }
  }

  lemma {:induction false} EvalPositive(s: bytes)
    requires IsMinimal(s) && (|s| > 1 || s[0] != 0)
    ensures Eval(s) > 0
  {
    if |s| > 1 {
      assert s[1..][|s| - 2] == s[|s| - 1];
      EvalPositive(s[1..]);
    }
  }

  function Pow128(k: nat): (p: nat)
    ensures p >= 1
  {
    if k == 0 then 1 else 128 * Pow128(k - 1)
  }

  lemma {:induction false} EvalBound(s: bytes)
    ensures Eval(s) < Pow128(|s|)
  {
    if s != [] {
      EvalBound(s[1..]);
    }
  }

  /** Exactly how long the encoding is: k bytes iff the value needs k base-128 digits. */
  lemma {:induction false} DigitsLength(v: nat, k: nat)
    requires k >= 1
    ensures |Digits(v)| <= k <==> v < Pow128(k)
  {
    if v < 128 {
      assert Pow128(k) == 128 * Pow128(k - 1);
    } else if k == 1 {
      assert Pow128(1) == 128 * Pow128(0);
    } else {
      DigitsLength(v / 128, k - 1);
      assert Pow128(k) == 128 * Pow128(k - 1);
    }
  }

  lemma Pow128Values()
    ensures Pow128(1) == 0x80 && Pow128(2) == 0x4000 && Pow128(3) == 0x20_0000
    ensures Pow128(4) == 0x1000_0000 && Pow128(5) == 0x8_0000_0000
    ensures Pow128(6) == 0x400_0000_0000 && Pow128(7) == 0x2_0000_0000_0000 && Pow128(8) == 0x100_0000_0000_0000
    ensures Pow128(9) == TWO_63 && Pow128(10) == 64 * TWO_64
  {
    assert Pow128(0) == 1;
    assert Pow128(1) == 128;
    assert Pow128(2) == 0x4000;
    assert Pow128(3) == 0x20_0000;
    assert Pow128(4) == 0x1000_0000;
    assert Pow128(5) == 0x8_0000_0000;
    assert Pow128(6) == 0x400_0000_0000;
    assert Pow128(7) == 0x2_0000_0000_0000;
    assert Pow128(8) == 0x100_0000_0000_0000;
  }

  lemma {:induction false} Digits64Length(v: nat)
    requires v < TWO_64
    ensures |Digits(v)| <= 10
  {
    Pow128Values();
    DigitsLength(v, 10);
  }

  // ───────────── The 64-bit decoder's acceptance condition ─────────────

  /** What a 64-bit varint read delivers from the front of `b`: the value and the bytes consumed.
      Accepted are the complete groups of at most ten bytes whose value fits 64 bits. */
  function Read64(b: bytes): (r: Option<(nat, nat)>)
    ensures r.Some? ==> r.value.0 < TWO_64 && 1 <= r.value.1 <= |b| && r.value.1 <= 10
  {
    var n := GroupLen(b);
    if n.Some? && n.value <= 10 && Eval(b[..n.value]) < TWO_64
    then Some((Eval(b[..n.value]), n.value))
    else None
  }

  /** Decoding inverts encoding on any suffix, for every uint64. */
  lemma {:induction false} Read64Digits(v: nat, rest: bytes)
    requires v < TWO_64
    ensures Read64(Digits(v) + rest) == Some((v, |Digits(v)|))
  {
    DigitsMinimal(v);
    GroupLenOf(Digits(v), rest);
    Digits64Length(v);
    assert (Digits(v) + rest)[..|Digits(v)|] == Digits(v);
  }

  /** Nothing longer than ten bytes is ever a varint. */
  lemma Read64RejectsLong(b: bytes)
    requires |b| >= 10 && forall i :: 0 <= i < 10 ==> b[i] >= 128
    ensures Read64(b) == None
  {
  }

  // ───────────── The 32-bit decoder's acceptance condition ─────────────

  /** The fifth byte holds bits 28..34: the three that do not fit must be all clear, or all set
      together with bit 31 (a sign extension). */
  predicate FifthOk(x: byte)
  {
    x % 128 < 16 || x % 128 >= 120
  }

  predicate SignBit(g: bytes)
  {
    |g| >= 5 && g[4] % 16 >= 8
  }

  /** A byte past the fifth may only extend: zero bits, or all ones under a set sign bit. */
  predicate ExtensionOk(g: bytes, k: nat)
    requires k < |g|
  {
    g[k] % 128 == 0 || (SignBit(g) && g[k] == if k < 9 then 0xFF else 0x01)
  }

  predicate Fits32(g: bytes)
  {
    && |g| <= 10
    && (|g| >= 5 ==> FifthOk(g[4]))
    && forall k :: 5 <= k < |g| ==> ExtensionOk(g, k)
  }

  function Read32(b: bytes): (r: Option<(nat, nat)>)
    ensures r.Some? ==> r.value.0 < TWO_32 && 1 <= r.value.1 <= |b|
  {
    var n := GroupLen(b);
    if n.Some? && Fits32(b[..n.value])
    then Some((Eval(b[..n.value]) % TWO_32, n.value))
    else None
  }

  /** Which groups the 32-bit reader takes, bit by bit: at most ten bytes; in the fifth the three bits that do not
      fit are clear, or set together with bit 31; behind it only zeros, or ones under a set bit 31. */
  lemma {:induction false} Read32Exactly(b: bytes)
    ensures Read32(b).Some? <==>
      (GroupLen(b).Some? && GroupLen(b).value <= 10 &&
       (GroupLen(b).value >= 5 ==> b[4] / 16 % 8 == 0 || b[4] / 8 % 16 == 15) &&
       forall k :: 5 <= k < GroupLen(b).value ==>
         b[k] % 128 == 0 || (b[4] / 8 % 2 == 1 && b[k] == if k < 9 then 255 else 1))
  {
    hide Eval;
    if GroupLen(b).Some? {
      var n := GroupLen(b).value;
      var g := b[..n];
      assert forall k :: 0 <= k < n ==> g[k] == b[k];
      if n >= 5 {
        FifthBits(b[4]);
        forall k | 5 <= k < n
          ensures ExtensionOk(g, k) <==> b[k] % 128 == 0 || (b[4] / 8 % 2 == 1 && b[k] == if k < 9 then 255 else 1)
        {
        }
      }
    }
  }

  lemma FifthBits(x: byte)
    ensures FifthOk(x) <==> x / 16 % 8 == 0 || x / 8 % 16 == 15
    ensures x % 16 >= 8 <==> x / 8 % 2 == 1
  {
    var flag, bits := x / 128, x % 128;
    Eighths(flag, bits / 8, bits % 8, x);
  }

  lemma Eighths(flag: nat, q: nat, r: nat, x: nat)
    requires q < 16 && r < 8 && x == 128 * flag + 8 * q + r
    ensures x % 128 == 8 * q + r && x / 8 % 16 == q && x / 16 % 8 == q / 2 && x % 16 == 8 * (q % 2) + r
    ensures x / 8 % 2 == q % 2
  {
    assert x / 8 == 16 * flag + q && x / 16 == 8 * flag + q / 2;
  }

  lemma {:induction false} EvalSplit(s: bytes, k: nat)
    requires k <= |s|
    ensures Eval(s) == Eval(s[..k]) + Pow128(k) * Eval(s[k..])
  {
    if k == 0 {
      assert s[..0] == [] && s[0..] == s;
    } else {
      var x, a, p, c := s[0] % 128, Eval(s[1..][..k - 1]), Pow128(k - 1), Eval(s[k..]);
      assert Eval(s[1..]) == a + p * c by {
        EvalSplit(s[1..], k - 1);
        assert s[1..][k - 1..] == s[k..];
      }
      assert Eval(s[..k]) == x + 128 * a by { assert s[..k][1..] == s[1..][..k - 1]; }
      EvalSplitStep(x, a, p, c, Pow128(k));
    }
  }

  lemma EvalSplitStep(x: nat, a: nat, p: nat, c: nat, q: nat)
    requires q == 128 * p
    ensures x + 128 * (a + p * c) == x + 128 * a + q * c
  {
    MulAssoc(128, p, c);
  }

  /** The narrow reader refines the wide one: same bytes consumed, same value modulo 2^32. */
  lemma Read32Refines(b: bytes)
    requires Read32(b).Some?
    ensures Read64(b).Some?
    ensures Read64(b).value.1 == Read32(b).value.1
    ensures Read64(b).value.0 % TWO_32 == Read32(b).value.0
  {
    var g := b[..GroupLen(b).value];
    Pow128Values();
    EvalBound(g);
    if |g| == 10 {
      EvalSplit(g, 9);
      EvalBound(g[..9]);
      assert ExtensionOk(g, 9);
      assert g[9..] == [g[9]] && Eval(g[9..][1..]) == 0;
      assert Eval(g[9..]) == g[9] % 128 <= 1;
    } else {
      Pow128Monotone(|g|, 9);
    }
  }

  lemma {:induction false} Pow128Monotone(j: nat, k: nat)
    requires j <= k
    ensures Pow128(j) <= Pow128(k)
  {
    if j < k {
      Pow128Monotone(j, k - 1);
    }
  }

  /** Every uint32 is read back from its own encoding ... */
  lemma {:induction false} Read32Digits(v: nat, rest: bytes)
    requires v < TWO_32
    ensures Read32(Digits(v) + rest) == Some((v, |Digits(v)|))
  {
    DigitsMinimal(v);
    GroupLenOf(Digits(v), rest);
    Pow128Values();
    DigitsLength(v, 5);
    assert (Digits(v) + rest)[..|Digits(v)|] == Digits(v);
    if |Digits(v)| == 5 {
      DigitsAt(v, 4);
    }
  }

  /** ... and so is every negative int32 sign-extended to 64 bits, as its 32-bit pattern. */
  lemma Read32Negative(v: int, rest: bytes)
    requires -TWO_31 <= v < 0
    ensures Read32(Digits(v + TWO_64) + rest) == Some((v + TWO_32, 10))
  {
    hide GroupLen;
    hide Digits;
    hide Eval;
    var g := Digits(v + TWO_64);
    NegativeDigits(v, g);
    DigitsMinimal(v + TWO_64);
    GroupLenOf(g, rest);
    assert (g + rest)[..|g|] == g;
    assert SignBit(g);
    assert (v + TWO_64) % TWO_32 == v + TWO_32;
  }

  lemma NegativeDigits(v: int, g: bytes)
    requires -TWO_31 <= v < 0 && g == Digits(v + TWO_64)
    ensures |g| == 10 && g[4] >= 248 && g[9] == 1
    ensures forall k :: 5 <= k < 9 ==> g[k] == 255
  {
    Pow128Values();
    DigitsLength(v + TWO_64, 10);
    DigitsLength(v + TWO_64, 9);
    forall k | 4 <= k < 10
      ensures k == 4 ==> g[k] >= 248
      ensures 5 <= k < 9 ==> g[k] == 255
      ensures k == 9 ==> g[k] == 1
    {
      DigitsAt(v + TWO_64, k);
      ShiftedOnes(v, k);
    }
  }

  /** The k-th byte of an encoding: digit k of the value, flagged unless it is the last. */
  lemma {:induction false} DigitsAt(v: nat, k: nat)
    requires k < |Digits(v)|
    ensures Digits(v)[k] % 128 == (v / Pow128(k)) % 128
    ensures k < |Digits(v)| - 1 ==> Digits(v)[k] >= 128
    ensures k == |Digits(v)| - 1 ==> Digits(v)[k] == v / Pow128(k)
  {
    if v >= 128 && k > 0 {
      DigitsAt(v / 128, k - 1);
      DivDiv(v, Pow128(k - 1));
    }
  }

  lemma DivDiv(v: nat, p: nat)
    requires p >= 1
    ensures v / (128 * p) == (v / 128) / p
  {
    var q, r := v / 128, v % 128;
    var a, c := q / p, q % p;
    MulAssoc(128, p, a);
    QuotientUnique(v, 128 * p, a, 128 * c + r);
  }

  lemma MulAssoc(a: int, b: int, c: int)
    ensures a * (b * c) == (a * b) * c
  {
  }

  lemma MulAtLeast(d: int, x: int)
    requires d >= 1
    ensures x >= 1 ==> d * x >= d
    ensures x <= -1 ==> d * x <= -d
  {
  }

  lemma MulMinus(d: int, x: int, y: int)
    ensures d * (x - y) == d * x - d * y
  {
  }

  lemma QuotientUnique(v: nat, d: nat, q: nat, r: nat)
    requires d >= 1 && r < d && v == d * q + r
    ensures v / d == q
  {
    MulMinus(d, q, v / d);
    MulAtLeast(d, q - v / d);
  }

  lemma {:induction false} ShiftedOnes(v: int, k: nat)
    requires -TWO_31 <= v < 0 && 4 <= k < 10
    ensures k == 4 ==> ((v + TWO_64) / Pow128(k)) % 128 >= 120
    ensures 5 <= k < 9 ==> ((v + TWO_64) / Pow128(k)) % 128 == 127
    ensures k == 9 ==> (v + TWO_64) / Pow128(k) == 1
  {
    Pow128Values();
    match k
    case 4 => FourthOnes(v);
    case 5 => BelowMultiple(v, Pow128(5), 0x2000_0000);
    case 6 => BelowMultiple(v, Pow128(6), 0x40_0000);
    case 7 => BelowMultiple(v, Pow128(7), 0x8000);
    case 8 => BelowMultiple(v, Pow128(8), 0x100);
    case 9 => BelowMultiple(v, Pow128(9), 2);
  }

  lemma FourthOnes(v: int)
    requires -TWO_31 <= v < 0
    ensures (v + TWO_64) / 0x1000_0000 % 128 >= 120
  {
    BelowMultiple(v / 0x1000_0000, 128, 0x2000_0000);
  }

  lemma BelowMultiple(v: int, p: nat, q: nat)
    requires v < 0 <= v + p && q >= 1
    ensures (v + p * q) / p == q - 1
  {
    MulMinus(p, q, 1);
    MulAtLeast(p, q);
    QuotientUnique(v + p * q, p, q - 1, p + v);
  }

  // ───────────── Signed values ─────────────

  /** The 64-bit pattern of a signed value. */
  function ToU64(v: int): (u: nat)
    requires -TWO_63 <= v < TWO_63
    ensures u < TWO_64
  {
    if v < 0 then v + TWO_64 else v
  }

  /** Two's complement reading of the low 32 bits. */
  function AsInt32(u: nat): (v: int)
    ensures -TWO_31 <= v < TWO_31
  {
    var low := u % TWO_32;
    if low >= TWO_31 then low - TWO_32 else low
  }

  function AsInt64(u: nat): (v: int)
    requires u < TWO_64
    ensures -TWO_63 <= v < TWO_63 && ToU64(v) == u
  {
    if u >= TWO_63 then u - TWO_64 else u
  }

  /** ZigZag as specified: 0, -1, 1, -2, ... are numbered 0, 1, 2, 3, ... */
  function ZigZag(v: int): (u: nat)
  {
    if v >= 0 then 2 * v else -2 * v - 1
  }

  function UnZigZag(u: nat): (v: int)
  {
    if u % 2 == 1 then -(u / 2) - 1 else u / 2
  }

  /** A bijection between int64 and uint64, both ends included. */
  lemma ZigZagBijection(v: int, u: nat)
    ensures UnZigZag(ZigZag(v)) == v && ZigZag(UnZigZag(u)) == u
    ensures -TWO_63 <= v < TWO_63 <==> ZigZag(v) < TWO_64
  {
  }

  /** In the order 0, -1, 1, -2, 2 and so on: every number is followed by its negative less one, and that by the
      number after it. */
  lemma ZigZagOrder(n: nat)
    ensures ZigZag(0) == 0 && ZigZag(-1 - n) == ZigZag(n) + 1 && ZigZag(n + 1) == ZigZag(-1 - n) + 1
    ensures UnZigZag(0) == 0 && UnZigZag(1) == -1 && UnZigZag(2) == 1 && UnZigZag(3) == -2
    ensures UnZigZag(n + 2) == UnZigZag(n) + if n % 2 == 0 then 1 else -1
  {
  }
}
