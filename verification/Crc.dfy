/** uni_crc32_le: the bitwise register loop, against division of polynomials over GF(2). The
    generator is that of IEEE 802.3 section 3.2.9, reflected; no complement before or after. */
module Crc {
  import opened Prelude
  import opened Bits

  // ───────────── The register loop ─────────────

  const CRCPOLY: nat := 0xEDB8_8320

  function Shift(crc: nat): nat
  {
    Xor(crc / 2, if crc % 2 == 1 then CRCPOLY else 0)
  }

  function ShiftTimes(crc: nat, k: nat): nat
    decreases k
  {
    if k == 0 then crc else ShiftTimes(Shift(crc), k - 1)
  }

  function Crc32(crc: nat, data: bytes): nat
    decreases |data|
  {
    if data == [] then crc else Crc32(ShiftTimes(Xor(crc, data[0]), 8), data[1..])
  }

  method UniCrc32Le(crc0: nat, data: bytes) returns (crc: nat)
    requires crc0 < TWO_32
    ensures crc == Crc32(crc0, data)
    ensures crc < TWO_32
  {
    hide Xor;
    crc := crc0;
    var next := 0;
    assert data[0..] == data;
    while next < |data|
      invariant next <= |data| && crc < TWO_32
      invariant Crc32(crc, data[next..]) == Crc32(crc0, data)
    {
      assert data[next..][1..] == data[next + 1..];
      Pow2Values();
      XorBound(crc, data[next], 32);
      crc := Xor(crc, data[next]);
      ghost var before := crc;
      for i := 0 to 8
        invariant crc < TWO_32 && ShiftTimes(crc, 8 - i) == ShiftTimes(before, 8)
      {
        var mult := if crc % 2 == 1 then CRCPOLY else 0;
        XorBound(crc / 2, mult, 32);
        crc := Xor(crc / 2, mult);
      }
      next := next + 1;
    }
    assert data[next..] == [];
  }

  // ───────────── Polynomials over GF(2) ─────────────

  /** Coefficients, highest degree first. */
  type Poly = seq<bool>

  function Zeros(n: nat): (p: Poly)
    ensures |p| == n && forall i :: 0 <= i < n ==> !p[i]
  {
    seq(n, i => false)
  }

  function Add(p: Poly, q: Poly): (r: Poly)
    requires |p| == |q|
    ensures |r| == |p| && forall i :: 0 <= i < |p| ==> r[i] == (p[i] != q[i])
  {
    seq(|p|, i requires 0 <= i < |p| => p[i] != q[i])
  }

  /** Reflection: the low `n` bits of a register, least significant first, are the coefficients of
      a polynomial of degree below n, highest first. */
  function Coefs(v: nat, n: nat): (p: Poly)
    ensures |p| == n
  {
    if n == 0 then [] else [v % 2 == 1] + Coefs(v / 2, n - 1)
  }

  /** The generator of IEEE 802.3 section 3.2.9: x^32 and the powers of x named here. */
  predicate HasPower(k: nat)
  {
    k in {26, 23, 22, 16, 12, 11, 10, 8, 7, 5, 4, 2, 1, 0}
  }

  /** The generator without its leading x^32. */
  function GLow(): (p: Poly)
    ensures |p| == 32
  {
    seq(32, i requires 0 <= i < 32 => HasPower(31 - i))
  }

  function Bit(b: bool): nat
  {
    if b then 1 else 0
  }

  lemma CoefBefore(v: nat, w: nat, g: Poly, k: nat)
    requires k < |g| && Coefs(w, |g| - k - 1) == g[k + 1..] && v == 2 * w + Bit(g[k])
    ensures Coefs(v, |g| - k) == g[k..]
  {
  }

  lemma FourBefore(v: nat, w: nat, g: Poly, k: nat)
    requires k + 4 <= |g| && Coefs(w, |g| - k - 4) == g[k + 4..]
    requires v == 16 * w + 8 * Bit(g[k + 3]) + 4 * Bit(g[k + 2]) + 2 * Bit(g[k + 1]) + Bit(g[k])
    ensures Coefs(v, |g| - k) == g[k..]
  {
    hide Coefs;
    var a := 2 * w + Bit(g[k + 3]);
    var b := 2 * a + Bit(g[k + 2]);
    var c := 2 * b + Bit(g[k + 1]);
    CoefBefore(a, w, g, k + 3);
    CoefBefore(b, a, g, k + 2);
    CoefBefore(c, b, g, k + 1);
    CoefBefore(v, c, g, k);
  }

  lemma HighHalfReflected()
    ensures Coefs(0xEDB8, 16) == GLow()[16..]
  {
    var g := GLow();
    assert Coefs(0, 0) == g[32..];
    hide Coefs;
    hide GLow;
    PowersAt(28);
    PowersAt(24);
    PowersAt(20);
    PowersAt(16);
    FourBefore(0xE, 0, g, 28);
    FourBefore(0xED, 0xE, g, 24);
    FourBefore(0xEDB, 0xED, g, 20);
    FourBefore(0xEDB8, 0xEDB, g, 16);
  }

  lemma PowersAt(k: nat)
    requires k + 4 <= 32
    ensures GLow()[k] == HasPower(31 - k) && GLow()[k + 1] == HasPower(30 - k)
    ensures GLow()[k + 2] == HasPower(29 - k) && GLow()[k + 3] == HasPower(28 - k)
  {
  }

  /** The register constant is that polynomial, reflected. */
  lemma GeneratorReflected()
    ensures Coefs(CRCPOLY, 32) == GLow()
  {
    hide Coefs;
    hide GLow;
    var g := GLow();
    HighHalfReflected();
    PowersAt(12);
    PowersAt(8);
    PowersAt(4);
    PowersAt(0);
    FourBefore(0xE_DB88, 0xEDB8, g, 12);
    FourBefore(0xED_B883, 0xE_DB88, g, 8);
    FourBefore(0xEDB_8832, 0xED_B883, g, 4);
    FourBefore(CRCPOLY, 0xEDB_8832, g, 0);
    assert g[0..] == g;
  }

  /** The product of `q` and the generator, by Horner's rule. */
  function TimesG(q: Poly): (p: Poly)
    ensures |p| == |q| + 32
  {
    if q == [] then Zeros(32)
    else
      var n := |q| - 1;
      var shifted := TimesG(q[..n]) + [false];
      if q[n] then Add(shifted, Zeros(n) + [true] + GLow()) else shifted
  }

  /** Bytes as coefficients: least significant bit first. */
  function MessageBits(data: bytes): (p: Poly)
    ensures |p| == 8 * |data|
  {
    if data == [] then [] else Coefs(data[0], 8) + MessageBits(data[1..])
  }

  /** `seed`·x^N + message·x^32, for a message of N bits: what the register is fed. */
  function Dividend(seed: Poly, message: Poly): (p: Poly)
    requires |seed| == 32
    ensures |p| == |message| + 32
  {
    Add(seed + Zeros(|message|), message + Zeros(32))
  }

  // ───────────── One register step ─────────────

  /** Multiplying by x modulo the generator. */
  function StepP(c: Poly): (r: Poly)
    requires |c| == 32
    ensures |r| == 32
  {
    StepBy(GLow(), c)
  }

  function StepBy(g: Poly, c: Poly): (r: Poly)
    requires |g| == 32 && |c| == 32
    ensures |r| == 32
  {
    var shifted := c[1..] + [false];
    if c[0] then Add(shifted, g) else shifted
  }

  function StepTimes(c: Poly, k: nat): (r: Poly)
    requires |c| == 32
    ensures |r| == 32
  {
    StepByTimes(GLow(), c, k)
  }

  function StepByTimes(g: Poly, c: Poly, k: nat): (r: Poly)
    requires |g| == 32 && |c| == 32
    ensures |r| == 32
    decreases k
  {
    if k == 0 then c else StepByTimes(g, StepBy(g, c), k - 1)
  }

  /** Taking in one message bit. */
  function Feed(c: Poly, b: bool): (r: Poly)
    requires |c| == 32
    ensures |r| == 32
  {
    StepP(Add(c, [b] + Zeros(31)))
  }

  function FeedAll(c: Poly, bits: Poly): (r: Poly)
    requires |c| == 32
    ensures |r| == 32
    decreases |bits|
  {
    if bits == [] then c else FeedAll(Feed(c, bits[0]), bits[1..])
  }

  lemma {:induction false} CoefsXor(a: nat, b: nat, n: nat)
    ensures Coefs(Xor(a, b), n) == Add(Coefs(a, n), Coefs(b, n))
    decreases n
  {
    if n > 0 {
      assert Xor(a, b) / 2 == Xor(a / 2, b / 2) && Xor(a, b) % 2 == (a % 2 + b % 2) % 2 by { XorHalves(a, b); }
      CoefsXor(a / 2, b / 2, n - 1);
    }
  }

  lemma {:induction false} CoefsHigh(v: nat, n: nat)
    requires v < Pow2(n)
    ensures Coefs(v, n + 1) == Coefs(v, n) + [false]
    decreases n
  {
    if n > 0 {
      CoefsHigh(v / 2, n - 1);
    }
  }

  lemma {:induction false} CoefsInjective(a: nat, b: nat, n: nat)
    requires a < Pow2(n) && b < Pow2(n) && Coefs(a, n) == Coefs(b, n)
    ensures a == b
    decreases n
  {
    if n > 0 {
      assert Coefs(a, n)[0] == Coefs(b, n)[0] && Coefs(a, n)[1..] == Coefs(b, n)[1..];
      CoefsInjective(a / 2, b / 2, n - 1);
    }
  }

  lemma {:induction false} CoefsZero(n: nat)
    ensures Coefs(0, n) == Zeros(n)
  {
    if n > 0 {
      CoefsZero(n - 1);
    }
  }

  lemma {:induction false} HalfShifts(crc: nat)
    requires crc < TWO_32
    ensures Coefs(crc / 2, 32) == Coefs(crc, 32)[1..] + [false]
  {
    Pow2Values();
    CoefsHigh(crc, 32);
    assert Coefs(crc, 33)[1..] == Coefs(crc / 2, 32);
  }

  lemma AddZeros(p: Poly, n: nat)
    requires |p| == n
    ensures Add(p, Zeros(n)) == p
  {
  }

  /** A register shift is multiplication by x modulo the generator. */
  lemma {:induction false} ShiftIsStep(crc: nat)
    requires crc < TWO_32
    ensures Coefs(Shift(crc), 32) == StepP(Coefs(crc, 32)) && Shift(crc) < TWO_32
  {
    Pow2Values();
    var mult := if crc % 2 == 1 then CRCPOLY else 0;
    CoefsXor(crc / 2, mult, 32);
    XorBound(crc / 2, mult, 32);
    HalfShifts(crc);
    CoefsZero(32);
    AddZeros(Coefs(crc / 2, 32), 32);
    GeneratorReflected();
    assert Coefs(crc, 32)[0] == (crc % 2 == 1);
  }

  lemma {:induction false} ShiftTimesIsStepTimes(crc: nat, k: nat)
    requires crc < TWO_32
    ensures Coefs(ShiftTimes(crc, k), 32) == StepTimes(Coefs(crc, 32), k) && ShiftTimes(crc, k) < TWO_32
    decreases k
  {
    hide Shift;
    hide Coefs;
    hide StepBy;
    if k > 0 {
      ShiftIsStep(crc);
      ShiftTimesIsStepTimes(Shift(crc), k - 1);
    }
  }

  // ───────────── A byte at a time is a bit at a time ─────────────

  lemma StepLinear(c: Poly, d: Poly)
    requires |c| == 32 && |d| == 32
    ensures StepP(Add(c, d)) == Add(StepP(c), StepP(d))
  {
  }

  lemma FirstApart(c: Poly, b: bool, bs: Poly)
    requires |c| == 32 && |bs| < 32
    ensures Add(c, [b] + bs + Zeros(31 - |bs|)) ==
      Add(Add(c, [b] + Zeros(31)), [false] + bs + Zeros(31 - |bs|))
  {
  }

  lemma StepLater(g: Poly, bs: Poly)
    requires |g| == 32 && |bs| < 32
    ensures StepBy(g, [false] + bs + Zeros(31 - |bs|)) == bs + Zeros(32 - |bs|)
  {
  }

  lemma FeedFirst(c: Poly, b: bool, bs: Poly)
    requires |c| == 32 && |bs| < 32
    ensures StepP(Add(c, [b] + bs + Zeros(31 - |bs|))) == Add(Feed(c, b), bs + Zeros(32 - |bs|))
  {
    hide Add;
    hide StepBy;
    FirstApart(c, b, bs);
    StepLinear(Add(c, [b] + Zeros(31)), [false] + bs + Zeros(31 - |bs|));
    StepLater(GLow(), bs);
  }

  lemma StepTimesFirst(c: Poly, k: nat)
    requires |c| == 32
    ensures StepTimes(c, 0) == c && StepTimes(c, k + 1) == StepTimes(StepP(c), k)
  {
    hide StepBy;
  }

  lemma {:induction false} FeedAllFirst(c: Poly, b: bool, bs: Poly)
    requires |c| == 32
    ensures FeedAll(c, []) == c && FeedAll(c, [b] + bs) == FeedAll(Feed(c, b), bs)
  {
    hide Feed;
    assert ([b] + bs)[1..] == bs;
  }

  /** Bits already added to the register's top are taken in by plain steps. */
  lemma {:induction false} StepsFeed(c: Poly, bits: Poly)
    requires |c| == 32 && |bits| <= 32
    ensures StepTimes(Add(c, bits + Zeros(32 - |bits|)), |bits|) == FeedAll(c, bits)
    decreases |bits|
  {
    hide StepTimes;
    hide FeedAll;
    hide Feed;
    hide StepP;
    hide Add;
    if bits == [] {
      StepTimesFirst(c, 0);
      FeedAllFirst(c, false, []);
      AddZeros(c, 32);
      assert bits + Zeros(32) == Zeros(32);
    } else {
      var b, bs := bits[0], bits[1..];
      assert bits == [b] + bs;
      StepTimesFirst(Add(c, [b] + bs + Zeros(31 - |bs|)), |bs|);
      FeedAllFirst(c, b, bs);
      FeedFirst(c, b, bs);
      StepsFeed(Feed(c, b), bs);
    }
  }

  lemma {:induction false} CoefsPad(v: nat, n: nat, m: nat)
    requires v < Pow2(n)
    ensures Coefs(v, n + m) == Coefs(v, n) + Zeros(m)
    decreases n
  {
    if n > 0 {
      CoefsPad(v / 2, n - 1, m);
    } else {
      CoefsZero(m);
    }
  }

  lemma {:induction false} XorByte(crc: nat, b: byte)
    requires crc < TWO_32
    ensures Xor(crc, b) < TWO_32
    ensures Coefs(Xor(crc, b), 32) == Add(Coefs(crc, 32), Coefs(b, 8) + Zeros(24))
  {
    Pow2Values();
    XorBound(crc, b, 32);
    CoefsXor(crc, b, 32);
    CoefsPad(b, 8, 24);
  }

  lemma {:induction false} ByteFeeds(crc: nat, b: byte)
    requires crc < TWO_32
    ensures Coefs(ShiftTimes(Xor(crc, b), 8), 32) == FeedAll(Coefs(crc, 32), Coefs(b, 8))
    ensures ShiftTimes(Xor(crc, b), 8) < TWO_32
  {
    XorByte(crc, b);
    ShiftTimesIsStepTimes(Xor(crc, b), 8);
    StepsFeed(Coefs(crc, 32), Coefs(b, 8));
  }

  lemma {:induction false} FeedAllConcat(c: Poly, a: Poly, b: Poly)
    requires |c| == 32
    ensures FeedAll(c, a + b) == FeedAll(FeedAll(c, a), b)
    decreases |a|
  {
    if a == [] {
      assert a + b == b;
    } else {
      assert (a + b)[1..] == a[1..] + b;
      FeedAllConcat(Feed(c, a[0]), a[1..], b);
    }
  }

  /** The register after the data is the register fed the message bit by bit. */
  lemma {:induction false} Crc32Feeds(crc: nat, data: bytes)
    requires crc < TWO_32
    ensures Coefs(Crc32(crc, data), 32) == FeedAll(Coefs(crc, 32), MessageBits(data))
    ensures Crc32(crc, data) < TWO_32
    decreases |data|
  {
    if data != [] {
      ByteFeeds(crc, data[0]);
      Crc32Feeds(ShiftTimes(Xor(crc, data[0]), 8), data[1..]);
      FeedAllConcat(Coefs(crc, 32), Coefs(data[0], 8), MessageBits(data[1..]));
    }
  }

  // ───────────── Division ─────────────

  lemma {:induction false} TimesGSnoc(q: Poly, t: bool)
    ensures TimesG(q + [t]) ==
      if t then Add(TimesG(q) + [false], Zeros(|q|) + [true] + GLow()) else TimesG(q) + [false]
  {
    assert (q + [t])[..|q|] == q;
  }

  lemma DividendSnoc(seed: Poly, message: Poly, b: bool)
    requires |seed| == 32
    ensures Dividend(seed, message + [b]) == Add(Dividend(seed, message) + [false], Zeros(|message|) + [b] + Zeros(32))
  {
  }

  /** Feeding divides: the register is the remainder, with an explicit quotient. */
  lemma {:induction false} FeedDivides(seed: Poly, message: Poly) returns (q: Poly)
    requires |seed| == 32
    ensures |q| == |message|
    ensures Dividend(seed, message) == Add(TimesG(q), Zeros(|message|) + FeedAll(seed, message))
    decreases |message|
  {
    if message == [] {
      q := [];
      assert Dividend(seed, []) == seed;
      assert Add(Zeros(32), [] + seed) == seed;
    } else {
      var n := |message| - 1;
      var m, b := message[..n], message[n];
      assert message == m + [b];
      q := FeedDivides(seed, m);
      DivideOneMore(seed, m, b, q);
      q := q + [FeedAll(seed, m)[0] != b];
    }
  }

  lemma {:induction false} FeedOneMore(seed: Poly, m: Poly, b: bool)
    requires |seed| == 32
    ensures FeedAll(seed, m + [b]) == StepBy(GLow(), Add(FeedAll(seed, m), [b] + Zeros(31)))
  {
    FeedAllConcat(seed, m, [b]);
    assert [b][1..] == [];
  }

  lemma {:induction false} DivideOneMore(seed: Poly, m: Poly, b: bool, q: Poly)
    requires |seed| == 32 && |q| == |m|
    requires Dividend(seed, m) == Add(TimesG(q), Zeros(|m|) + FeedAll(seed, m))
    ensures Dividend(seed, m + [b]) ==
      Add(TimesG(q + [FeedAll(seed, m)[0] != b]), Zeros(|m| + 1) + FeedAll(seed, m + [b]))
  {
    var r := FeedAll(seed, m);
    DividendSnoc(seed, m, b);
    TimesGSnoc(q, r[0] != b);
    FeedOneMore(seed, m, b);
    DivideStep(GLow(), Dividend(seed, m), TimesG(q), r, b, |m|);
  }

  lemma DivideStep(g: Poly, dividend: Poly, product: Poly, r: Poly, b: bool, n: nat)
    requires |g| == 32 && |r| == 32 && |dividend| == |product| == n + 32
    requires dividend == Add(product, Zeros(n) + r)
    ensures Add(dividend + [false], Zeros(n) + [b] + Zeros(32)) ==
      Add(if r[0] != b then Add(product + [false], Zeros(n) + [true] + g) else product + [false],
          Zeros(n + 1) + StepBy(g, Add(r, [b] + Zeros(31))))
  {
    var c := Add(r, [b] + Zeros(31));
    var lhs := Add(dividend + [false], Zeros(n) + [b] + Zeros(32));
    var next := if c[0] then Add(product + [false], Zeros(n) + [true] + g) else product + [false];
    var rhs := Add(next, Zeros(n + 1) + StepBy(g, c));
    assert c[0] == (r[0] != b);
    forall i | 0 <= i < n + 33
      ensures lhs[i] == rhs[i]
    {
      DividendAt(dividend, product, r, n, i);
      ProductAt(g, product, c[0], n, i);
      if i > n {
        StepAt(g, r, b, i - n - 1);
      }
    }
  }

  /** The dividend moved up one place, coefficient by coefficient. */
  lemma DividendAt(dividend: Poly, product: Poly, r: Poly, n: nat, i: nat)
    requires |r| == 32 && |dividend| == |product| == n + 32 && dividend == Add(product, Zeros(n) + r) && i < n + 33
    ensures (dividend + [false])[i] ==
      if i < n then product[i] else if i < n + 32 then product[i] != r[i - n] else false
  {
  }

  lemma ProductAt(g: Poly, product: Poly, t: bool, n: nat, i: nat)
    requires |g| == 32 && |product| == n + 32 && i < n + 33
    ensures (if t then Add(product + [false], Zeros(n) + [true] + g) else product + [false])[i] ==
      ((product + [false])[i] != (t && (i == n || (i > n && g[i - n - 1]))))
  {
  }

  lemma StepAt(g: Poly, r: Poly, b: bool, j: nat)
    requires |g| == 32 && |r| == 32 && j < 32
    ensures StepBy(g, Add(r, [b] + Zeros(31)))[j] == ((j < 31 && r[j + 1]) != ((r[0] != b) && g[j]))
  {
    var c := Add(r, [b] + Zeros(31));
    assert c[0] == (r[0] != b);
    if j < 31 {
      assert c[j + 1] == r[j + 1];
    }
  }

  /** Quotient and remainder are unique: a nonzero multiple of the generator has degree 32 or more. */
  lemma {:induction false} RemainderUnique(q1: Poly, r1: Poly, q2: Poly, r2: Poly)
    requires |q1| == |q2| && |r1| == 32 && |r2| == 32
    requires Add(TimesG(q1), Zeros(|q1|) + r1) == Add(TimesG(q2), Zeros(|q2|) + r2)
    ensures q1 == q2 && r1 == r2
  {
    var n := |q1|;
    forall i | 0 <= i < n
      ensures TimesG(q1)[i] == TimesG(q2)[i]
    {
      assert Add(TimesG(q1), Zeros(n) + r1)[i] == Add(TimesG(q2), Zeros(n) + r2)[i];
    }
    QuotientUnique(q1, q2);
    forall i | 0 <= i < 32
      ensures r1[i] == r2[i]
    {
      assert Add(TimesG(q1), Zeros(n) + r1)[n + i] == Add(TimesG(q2), Zeros(n) + r2)[n + i];
    }
  }

  lemma {:induction false} TimesGAt(p: Poly, t: bool, i: nat)
    requires i <= |p|
    ensures TimesG(p + [t])[i] == if i < |p| then TimesG(p)[i] else (TimesG(p)[i] != t)
  {
    TimesGSnoc(p, t);
  }

  /** The leading coefficients of two products agree, as many as the factors have. */
  ghost predicate SameHead(q1: Poly, q2: Poly)
  {
    |q1| == |q2| && forall i {:trigger TimesG(q1)[i]} :: 0 <= i < |q1| ==> TimesG(q1)[i] == TimesG(q2)[i]
  }

  lemma SameHeadShorter(p1: Poly, t1: bool, p2: Poly, t2: bool)
    requires |p1| == |p2| && SameHead(p1 + [t1], p2 + [t2])
    ensures SameHead(p1, p2)
  {
    forall i | 0 <= i < |p1|
      ensures TimesG(p1)[i] == TimesG(p2)[i]
    {
      TimesGAt(p1, t1, i);
      TimesGAt(p2, t2, i);
    }
  }

  lemma SameHeadLast(p: Poly, t1: bool, t2: bool)
    requires SameHead(p + [t1], p + [t2])
    ensures t1 == t2
  {
    TimesGAt(p, t1, |p|);
    TimesGAt(p, t2, |p|);
    assert TimesG(p + [t1])[|p|] == TimesG(p + [t2])[|p|];
  }

  lemma {:induction false} QuotientUnique(q1: Poly, q2: Poly)
    requires SameHead(q1, q2)
    ensures q1 == q2
    decreases |q1|
  {
    hide TimesG;
    if q1 != [] {
      var n := |q1| - 1;
      var p1, p2, t1, t2 := q1[..n], q2[..n], q1[n], q2[n];
      assert q1 == p1 + [t1] && q2 == p2 + [t2];
      SameHeadShorter(p1, t1, p2, t2);
      QuotientUnique(p1, p2);
      SameHeadLast(p1, t1, t2);
    }
  }

  /** `r` is the remainder of `p` modulo the generator. */
  ghost predicate IsRemainder(p: Poly, r: Poly)
    requires |p| >= 32
  {
    |r| == 32 && exists q: Poly {:trigger TimesG(q)} :: |q| == |p| - 32 && p == Add(TimesG(q), Zeros(|q|) + r)
  }

  /** What the loop computes: the remainder of seed·x^N + message·x^32, and nothing else. */
  lemma {:induction false} CrcIsRemainder(seed: nat, data: bytes, r: Poly)
    requires seed < TWO_32
    ensures IsRemainder(Dividend(Coefs(seed, 32), MessageBits(data)), r) <==> r == Coefs(Crc32(seed, data), 32)
  {
    var p := Dividend(Coefs(seed, 32), MessageBits(data));
    Crc32Feeds(seed, data);
    var q := FeedDivides(Coefs(seed, 32), MessageBits(data));
    assert IsRemainder(p, Coefs(Crc32(seed, data), 32));
    if IsRemainder(p, r) {
      var q' :| |q'| == |p| - 32 && p == Add(TimesG(q'), Zeros(|q'|) + r);
      RemainderUnique(q, Coefs(Crc32(seed, data), 32), q', r);
    }
  }

  // ───────────── Use as a checksum ─────────────

  /** The checksum of a concatenation, piece by piece. */
  lemma {:induction false} Crc32Concat(seed: nat, a: bytes, b: bytes)
    ensures Crc32(seed, a + b) == Crc32(Crc32(seed, a), b)
    decreases |a|
  {
    if a == [] {
      assert a + b == b;
    } else {
      assert (a + b)[1..] == a[1..] + b;
      Crc32Concat(ShiftTimes(Xor(seed, a[0]), 8), a[1..], b);
    }
  }

  /** The generator's constant term. */
  lemma LowestTerm()
    ensures GLow()[31]
  {
  }

  /** Undoing a step: the bit shifted out is the one the constant term brings back. */
  function UnstepBy(g: Poly, r: Poly): (c: Poly)
    requires |g| == 32 && |r| == 32
    ensures |c| == 32
  {
    [r[31]] + (if r[31] then Add(r, g) else r)[..31]
  }

  lemma UnstepOfStep(g: Poly, c: Poly)
    requires |g| == 32 && |c| == 32 && g[31]
    ensures UnstepBy(g, StepBy(g, c)) == c
  {
  }

  lemma StepOfUnstep(g: Poly, r: Poly)
    requires |g| == 32 && |r| == 32 && g[31]
    ensures StepBy(g, UnstepBy(g, r)) == r
  {
  }

  lemma StepInjective(c: Poly, d: Poly)
    requires |c| == 32 && |d| == 32 && StepP(c) == StepP(d)
    ensures c == d
  {
    LowestTerm();
    UnstepOfStep(GLow(), c);
    UnstepOfStep(GLow(), d);
  }

  lemma {:induction false} FeedAllInjective(c: Poly, d: Poly, bits: Poly)
    requires |c| == 32 && |d| == 32 && FeedAll(c, bits) == FeedAll(d, bits)
    ensures c == d
    decreases |bits|
  {
    if bits != [] {
      FeedAllInjective(Feed(c, bits[0]), Feed(d, bits[0]), bits[1..]);
      var e := [bits[0]] + Zeros(31);
      StepInjective(Add(c, e), Add(d, e));
      AddCancels(c, d, e);
    }
  }

  lemma AddCancels(c: Poly, d: Poly, e: Poly)
    requires |c| == |d| == |e| && Add(c, e) == Add(d, e)
    ensures c == d
  {
    forall i | 0 <= i < |c|
      ensures c[i] == d[i]
    {
      assert Add(c, e)[i] == Add(d, e)[i];
    }
  }

  /** For fixed data the checksum is a bijection of the seed: one-to-one ... */
  lemma {:induction false} SeedInjective(s: nat, t: nat, data: bytes)
    requires s < TWO_32 && t < TWO_32 && Crc32(s, data) == Crc32(t, data)
    ensures s == t
  {
    Crc32Feeds(s, data);
    Crc32Feeds(t, data);
    FeedAllInjective(Coefs(s, 32), Coefs(t, 32), MessageBits(data));
    Pow2Values();
    CoefsInjective(s, t, 32);
  }

  function FromCoefs(p: Poly): (v: nat)
    ensures v < Pow2(|p|)
  {
    if p == [] then 0 else (if p[0] then 1 else 0) + 2 * FromCoefs(p[1..])
  }

  lemma {:induction false} FromCoefsInverse(p: Poly)
    ensures Coefs(FromCoefs(p), |p|) == p
    decreases |p|
  {
    if p != [] {
      FromCoefsInverse(p[1..]);
      assert p == [p[0]] + p[1..];
    }
  }

  lemma {:induction false} Unfeed(r: Poly, bits: Poly) returns (c: Poly)
    requires |r| == 32
    ensures |c| == 32 && FeedAll(c, bits) == r
    decreases |bits|
  {
    if bits == [] {
      c := r;
    } else {
      var d := Unfeed(r, bits[1..]);
      var e := [bits[0]] + Zeros(31);
      LowestTerm();
      StepOfUnstep(GLow(), d);
      c := Add(UnstepBy(GLow(), d), e);
      assert Add(c, e) == UnstepBy(GLow(), d);
    }
  }

  /** ... and onto. */
  lemma SeedSurjective(r: nat, data: bytes) returns (s: nat)
    requires r < TWO_32
    ensures s < TWO_32 && Crc32(s, data) == r
  {
    Pow2Values();
    var c := Unfeed(Coefs(r, 32), MessageBits(data));
    s := FromCoefs(c);
    FromCoefsInverse(c);
    Crc32Feeds(s, data);
    CoefsInjective(Crc32(s, data), r, 32);
  }

  /** Changing one byte of the data always changes the checksum. */
  lemma {:induction false} ByteChangeDetected(seed: nat, a: bytes, x: byte, y: byte, b: bytes)
    requires seed < TWO_32 && x != y
    ensures Crc32(seed, a + [x] + b) != Crc32(seed, a + [y] + b)
  {
    var s := Crc32(seed, a);
    Crc32Feeds(seed, a);
    Crc32Concat(seed, a + [x], b);
    Crc32Concat(seed, a + [y], b);
    Crc32Concat(seed, a, [x]);
    Crc32Concat(seed, a, [y]);
    OneByte(s, x);
    OneByte(s, y);
    Crc32Feeds(s, [x]);
    Crc32Feeds(s, [y]);
    if Crc32(seed, a + [x] + b) == Crc32(seed, a + [y] + b) {
      SeedInjective(Crc32(s, [x]), Crc32(s, [y]), b);
      ByteInjective(s, x, y);
    }
  }

  lemma {:induction false} OneByte(s: nat, x: byte)
    ensures Crc32(s, [x]) == ShiftTimes(Xor(s, x), 8)
  {
    assert [x][1..] == [];
  }

  lemma {:induction false} ByteInjective(s: nat, x: byte, y: byte)
    requires s < TWO_32 && Crc32(s, [x]) == Crc32(s, [y])
    ensures x == y
  {
    OneByte(s, x);
    OneByte(s, y);
    ByteFeeds(s, x);
    ByteFeeds(s, y);
    BitsInjective(Coefs(s, 32), Coefs(x, 8), Coefs(y, 8));
    Pow2Values();
    CoefsInjective(x, y, 8);
  }

  /** Up to 32 message bits can be told apart by the register alone. */
  lemma {:induction false} BitsInjective(c: Poly, a: Poly, b: Poly)
    requires |c| == 32 && |a| == |b| <= 32 && FeedAll(c, a) == FeedAll(c, b)
    ensures a == b
  {
    StepsFeed(c, a);
    StepsFeed(c, b);
    var p, q := a + Zeros(32 - |a|), b + Zeros(32 - |b|);
    StepTimesInjective(Add(c, p), Add(c, q), |a|);
    AddCommutes(c, p);
    AddCommutes(c, q);
    AddCancels(p, q, c);
    assert a == p[..|a|] && b == q[..|a|];
  }

  lemma StepTimesInjective(c: Poly, d: Poly, k: nat)
    requires |c| == 32 && |d| == 32 && StepTimes(c, k) == StepTimes(d, k)
    ensures c == d
  {
    LowestTerm();
    StepByTimesInjective(GLow(), c, d, k);
  }

  lemma {:induction false} StepByTimesInjective(g: Poly, c: Poly, d: Poly, k: nat)
    requires |g| == 32 && g[31] && |c| == 32 && |d| == 32 && StepByTimes(g, c, k) == StepByTimes(g, d, k)
    ensures c == d
    decreases k
  {
    if k > 0 {
      StepByTimesInjective(g, StepBy(g, c), StepBy(g, d), k - 1);
      UnstepOfStep(g, c);
      UnstepOfStep(g, d);
    }
  }

  lemma AddCommutes(p: Poly, q: Poly)
    requires |p| == |q|
    ensures Add(p, q) == Add(q, p)
  {
  }
}
