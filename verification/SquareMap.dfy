/** control_math.hpp: squareMap, stretching the stick's disc onto the square. Its square root is
    modelled as the exact one: a number `r` with r >= 0 and r·r == x·x + y·y. */
module SquareMap {
  import opened ControlMath

  const CORE: real := 0.001

  function MaxNorm(x: real, y: real): (m: real)
    ensures m >= Abs(x) && m >= Abs(y) && (m == Abs(x) || m == Abs(y))
  {
    if Abs(x) > Abs(y) then Abs(x) else Abs(y)
  }

  predicate Root(r: real, x: real, y: real)
  {
    r >= 0.0 && r * r == x * x + y * y
  }

  /** squareMap with `r` for its square root. */
  function Square(x: real, y: real, r: real): (real, real)
  {
    var m := MaxNorm(x, y);
    if m > CORE then ScaleBy(x, y, r / m) else (x, y)
  }

  function ScaleBy(x: real, y: real, scale: real): (real, real)
  {
    (Clampf(x * scale, -1.0, 1.0), Clampf(y * scale, -1.0, 1.0))
  }

  /** The stick's range: the unit disc. */
  predicate InDisc(x: real, y: real, r: real)
  {
    Root(r, x, y) && r <= 1.0
  }

  // ───────────── Products ─────────────

  lemma TimesLess(a: real, b: real, s: real)
    requires a < b && s > 0.0
    ensures a * s < b * s
  {
  }

  lemma SquareLess(a: real, b: real)
    requires 0.0 <= a < b
    ensures a * a < b * b
  {
    calc {
      a * a;
    <= { Monotone(a, b, a); }
      b * a;
    ==
      a * b;
    < { TimesLess(a, b, b); }
      b * b;
    }
  }

  lemma SquareOrder(a: real, b: real)
    requires a >= 0.0 && b >= 0.0
    ensures a * a < b * b <==> a < b
    ensures a * a == b * b <==> a == b
  {
    if a < b {
      SquareLess(a, b);
    } else if b < a {
      SquareLess(b, a);
    }
  }

  lemma CancelFactor(a: real, b: real, c: real)
    requires c > 0.0 && a * c == b * c
    ensures a == b
  {
  }

  lemma FactorAtLeastOne(s: real, m: real, r: real)
    requires 0.0 < m <= r && s * m == r
    ensures s >= 1.0
  {
  }

  lemma FourFold(a: real, s: real)
    ensures (a * a) * (s * s) == (a * s) * (a * s)
  {
  }

  lemma AbsTimes(a: real, s: real)
    requires s >= 0.0
    ensures Abs(a * s) == Abs(a) * s
  {
    if a < 0.0 {
      assert (-a) * s == -(a * s);
    }
  }

  lemma AbsSquared(a: real)
    ensures a * a == Abs(a) * Abs(a) >= 0.0
  {
    if a < 0.0 {
      assert a * a == (-a) * (-a);
    }
  }

  // ───────────── Norms ─────────────

  lemma RootUnique(a: real, b: real, x: real, y: real)
    requires Root(a, x, y) && Root(b, x, y)
    ensures a == b
  {
    SquareOrder(a, b);
  }

  lemma RootScales(r: real, x: real, y: real, s: real, r': real, x': real, y': real)
    requires Root(r, x, y) && s >= 0.0 && r' == r * s && x' == x * s && y' == y * s
    ensures Root(r', x', y')
  {
    FourFold(r, s);
    FourFold(x, s);
    FourFold(y, s);
    Distribute(x * x, y * y, s * s);
    Monotone(0.0, r, s);
  }

  lemma Distribute(a: real, b: real, s: real)
    ensures (a + b) * s == a * s + b * s
  {
  }

  /** The Euclidean norm is at least the larger coordinate. */
  lemma NormAtLeast(x: real, y: real, r: real)
    requires Root(r, x, y)
    ensures r >= MaxNorm(x, y)
  {
    AbsSquared(x);
    AbsSquared(y);
    SquareOrder(r, MaxNorm(x, y));
  }

  lemma ScaledNorm(x: real, y: real, s: real, x': real, y': real)
    requires s >= 0.0 && x' == x * s && y' == y * s
    ensures MaxNorm(x', y') == s * MaxNorm(x, y)
  {
    AbsTimes(x, s);
    AbsTimes(y, s);
    LargerScales(Abs(x), Abs(y), s, Abs(x'), Abs(y'));
  }

  lemma LargerScales(a: real, b: real, s: real, a': real, b': real)
    requires s >= 0.0 && a' == a * s && b' == b * s
    ensures (if a' > b' then a' else b') == s * (if a > b then a else b)
  {
    if a > b {
      Monotone(b, a, s);
    } else {
      Monotone(a, b, s);
    }
  }

  // ───────────── The map on the disc ─────────────

  /** On the disc, outside the core: the clamps never act, the point moves out along its ray, and
      its larger coordinate becomes its Euclidean norm. */
  lemma Stretches(x: real, y: real, r: real) returns (s: real, u: real, v: real)
    requires InDisc(x, y, r) && MaxNorm(x, y) > CORE
    ensures s >= 1.0 && s * MaxNorm(x, y) == r
    ensures Square(x, y, r) == (u, v) && u == x * s && v == y * s
    ensures MaxNorm(u, v) == r <= 1.0
  {
    hide Square;
    hide MaxNorm;
    s, u, v := StretchesAlong(x, y, r);
  }

  /** (u, v) lies on the ray of (x, y), as many times as far out as `r` is larger than `m`. */
  predicate Along(x: real, y: real, m: real, r: real, s: real, u: real, v: real)
  {
    s >= 1.0 && s * m == r && u == x * s && v == y * s
  }

  lemma StretchesAlong(x: real, y: real, r: real) returns (s: real, u: real, v: real)
    requires InDisc(x, y, r) && MaxNorm(x, y) > CORE
    ensures Along(x, y, MaxNorm(x, y), r, s, u, v) && Square(x, y, r) == (u, v) && MaxNorm(u, v) == r <= 1.0
  {
    hide Root;
    hide Square;
    hide MaxNorm;
    hide ScaleBy;
    NormAtLeast(x, y, r);
    s := Outside(x, y, r);
    u, v := StretchBy(x, y, r, MaxNorm(x, y), s);
  }

  lemma Outside(x: real, y: real, r: real) returns (s: real)
    requires MaxNorm(x, y) > CORE
    ensures Square(x, y, r) == ScaleBy(x, y, s) && s * MaxNorm(x, y) == r
  {
    hide ScaleBy;
    hide MaxNorm;
    s := r / MaxNorm(x, y);
    QuotientTimes(r, MaxNorm(x, y));
  }

  lemma StretchBy(x: real, y: real, r: real, m: real, s: real) returns (u: real, v: real)
    requires m == MaxNorm(x, y) && 0.0 < m <= r <= 1.0 && s * m == r
    ensures s >= 1.0 && u == x * s && v == y * s
    ensures ScaleBy(x, y, s) == (u, v)
    ensures MaxNorm(u, v) == r
  {
    hide MaxNorm;
    hide ScaleBy;
    u, v := x * s, y * s;
    StretchedNorm(x, y, s, u, v, m, r);
    FactorAtLeastOne(s, m, r);
    Unclamped(x, y, s, u, v);
  }

  lemma StretchedNorm(x: real, y: real, s: real, u: real, v: real, m: real, r: real)
    requires m == MaxNorm(x, y) && 0.0 < m <= r && s * m == r && u == x * s && v == y * s
    ensures MaxNorm(u, v) == r
  {
    hide MaxNorm;
    FactorAtLeastOne(s, m, r);
    ScaledNorm(x, y, s, u, v);
  }

  lemma Unclamped(x: real, y: real, s: real, u: real, v: real)
    requires u == x * s && v == y * s && MaxNorm(u, v) <= 1.0
    ensures ScaleBy(x, y, s) == (u, v)
  {
  }

  /** The disc goes into the square, and outside the core the larger coordinate of the result is
      the Euclidean norm of the stick. */
  lemma DiscToSquare(x: real, y: real, r: real)
    requires InDisc(x, y, r)
    ensures MaxNorm(Square(x, y, r).0, Square(x, y, r).1) <= 1.0
    ensures MaxNorm(x, y) > 0.001 ==> MaxNorm(Square(x, y, r).0, Square(x, y, r).1) == r
    ensures MaxNorm(x, y) <= 0.001 ==> Square(x, y, r) == (x, y)
  {
    hide Root;
    hide InDisc;
    hide Square;
    hide MaxNorm;
    if MaxNorm(x, y) > CORE {
      var s, u, v := Stretches(x, y, r);
    } else {
      CoreStays(x, y, r);
    }
  }

  /** Whatever comes in, what goes out is in the square. */
  lemma AlwaysInSquare(x: real, y: real, r: real)
    ensures MaxNorm(Square(x, y, r).0, Square(x, y, r).1) <= 1.0
  {
    if MaxNorm(x, y) > CORE {
      var s := Outside(x, y, r);
    } else {
      CoreStays(x, y, r);
    }
  }

  lemma CoreStays(x: real, y: real, r: real)
    requires MaxNorm(x, y) <= CORE
    ensures Square(x, y, r) == (x, y)
  {
  }

  /** No two stick positions give the same command. */
  lemma Injective(x1: real, y1: real, r1: real, x2: real, y2: real, r2: real)
    requires InDisc(x1, y1, r1) && InDisc(x2, y2, r2)
    requires Square(x1, y1, r1) == Square(x2, y2, r2)
    ensures x1 == x2 && y1 == y2 && r1 == r2
  {
    hide Root;
    hide Square;
    hide MaxNorm;
    OutsideStaysOutside(x1, y1, r1);
    OutsideStaysOutside(x2, y2, r2);
    if MaxNorm(x1, y1) > CORE {
      var s1, u1, v1 := Stretches(x1, y1, r1);
      var s2, u2, v2 := Stretches(x2, y2, r2);
      InjectiveOutside(x1, y1, x2, y2, r1, s1, s2, u1, v1);
    } else {
      CoreStays(x1, y1, r1);
      CoreStays(x2, y2, r2);
      RootUnique(r1, r2, x1, y1);
    }
  }

  lemma OutsideStaysOutside(x: real, y: real, r: real)
    requires InDisc(x, y, r)
    ensures MaxNorm(x, y) > CORE <==> MaxNorm(Square(x, y, r).0, Square(x, y, r).1) > CORE
  {
    hide Root;
    hide Square;
    hide MaxNorm;
    if MaxNorm(x, y) <= CORE {
      CoreStays(x, y, r);
    }
    if MaxNorm(x, y) > CORE {
      var s, u, v := Stretches(x, y, r);
      NormAtLeast(x, y, r);
    }
  }

  lemma InjectiveOutside(x1: real, y1: real, x2: real, y2: real, r: real,
                         s1: real, s2: real, u: real, v: real)
    requires Root(r, x1, y1) && Root(r, x2, y2) && r > 0.0 && s1 >= 1.0 && s2 >= 1.0
    requires u == x1 * s1 && u == x2 * s2 && v == y1 * s1 && v == y2 * s2
    ensures x1 == x2 && y1 == y2
  {
    SameStretch(x1, y1, r, s1, u, v, x2, y2, s2);
    CancelFactor(x1, x2, s1);
    CancelFactor(y1, y2, s1);
  }

  lemma SameStretch(x1: real, y1: real, r: real, s1: real, u: real, v: real,
                    x2: real, y2: real, s2: real)
    requires Root(r, x1, y1) && Root(r, x2, y2) && r > 0.0 && s1 >= 1.0 && s2 >= 1.0
    requires u == x1 * s1 && u == x2 * s2 && v == y1 * s1 && v == y2 * s2
    ensures s1 == s2
  {
    hide Root;
    RootScales(r, x1, y1, s1, r * s1, u, v);
    RootScales(r, x2, y2, s2, r * s2, u, v);
    RootUnique(r * s1, r * s2, u, v);
    assert s1 * r == s2 * r;
    CancelFactor(s1, s2, r);
  }

  // ───────────── What is reached ─────────────

  ghost predicate Reached(u: real, v: real)
  {
    exists x: real, y: real, r: real {:trigger Square(x, y, r)} :: InDisc(x, y, r) && Square(x, y, r) == (u, v)
  }

  /** The square points reached, exactly: the core, and those for which stepping back along the ray
      stays outside the core. */
  lemma ReachedExactly(u: real, v: real, root: real)
    requires Root(root, u, v) && MaxNorm(u, v) <= 1.0
    ensures Reached(u, v) <==> MaxNorm(u, v) <= 0.001 || MaxNorm(u, v) * MaxNorm(u, v) > 0.001 * root
  {
    hide Root;
    if MaxNorm(u, v) <= CORE {
      CoreInDisc(u, v, root);
      assert Square(u, v, root) == (u, v);
    } else {
      if MaxNorm(u, v) * MaxNorm(u, v) > CORE * root {
        StepBack(u, v, root);
      }
      if Reached(u, v) {
        var x, y, r :| InDisc(x, y, r) && Square(x, y, r) == (u, v);
        ReachedOnlyIf(x, y, r, u, v, root);
      }
    }
  }

  lemma RootAtMost(x: real, y: real, r: real, n: real)
    requires Root(r, x, y) && MaxNorm(x, y) <= n
    ensures r * r <= 2.0 * (n * n)
  {
    AbsSquared(x);
    AbsSquared(y);
    SquareAtMost(Abs(x), n);
    SquareAtMost(Abs(y), n);
  }

  lemma SquareAtMost(a: real, b: real)
    requires 0.0 <= a <= b
    ensures a * a <= b * b
  {
    SquareOrder(a, b);
  }

  lemma CoreInDisc(u: real, v: real, root: real)
    requires Root(root, u, v) && MaxNorm(u, v) <= CORE
    ensures root <= 1.0
  {
    RootAtMost(u, v, root, CORE);
    SquareOrder(1.0, root);
  }

  lemma ReachedOnlyIf(x: real, y: real, r: real, u: real, v: real, root: real)
    requires InDisc(x, y, r) && Square(x, y, r) == (u, v) && Root(root, u, v) && MaxNorm(u, v) > CORE
    ensures MaxNorm(u, v) * MaxNorm(u, v) > CORE * root
  {
    hide Root;
    hide Square;
    hide MaxNorm;
    hide Along;
    OutsideStaysOutside(x, y, r);
    NormAtLeast(u, v, root);
    var s, u', v' := StretchesAlong(x, y, r);
    StretchedFar(x, y, r, s, u, v, root, MaxNorm(x, y), MaxNorm(u, v));
  }

  lemma StretchedFar(x: real, y: real, r: real, s: real, u: real, v: real, root: real,
                     m: real, n: real)
    requires Root(r, x, y) && Along(x, y, m, r, s, u, v) && Root(root, u, v)
    requires m > CORE && n == r && root >= n > 0.0
    ensures n * n > CORE * root
  {
    hide Root;
    ImageRoot(x, y, r, s, u, v, root);
    FarFromCore(m, s, r, root, n);
  }

  lemma ImageRoot(x: real, y: real, r: real, s: real, u: real, v: real, root: real)
    requires Root(r, x, y) && s >= 1.0 && u == x * s && v == y * s && Root(root, u, v)
    ensures root == r * s
  {
    RootScales(r, x, y, s, r * s, u, v);
    RootUnique(root, r * s, u, v);
  }

  lemma FarFromCore(m: real, s: real, r: real, root: real, n: real)
    requires m > CORE && s * m == r && root == r * s && root > 0.0 && n == r
    ensures n * n > CORE * root
  {
    assert m * (r * s) == r * (s * m);
    TimesLess(CORE, m, root);
  }

  /** The stick position behind a command: back along the ray by MaxNorm / root. */
  lemma StepBack(u: real, v: real, root: real)
    requires Root(root, u, v) && CORE < MaxNorm(u, v) <= 1.0
    requires MaxNorm(u, v) * MaxNorm(u, v) > CORE * root
    ensures Reached(u, v)
  {
    hide Root;
    var n := MaxNorm(u, v);
    NormAtLeast(u, v, root);
    var k := Ratio(n, root);
    BackIsOutside(n, root, k);
    BackWithin(u, v, n, root, k, u * k, v * k);
    BackReaches(u, v, n, k, u * k, v * k);
  }

  lemma Ratio(n: real, root: real) returns (k: real)
    requires n > 0.0 && root > 0.0
    ensures k > 0.0 && n == root * k
  {
    k := n / root;
  }

  lemma BackWithin(u: real, v: real, n: real, root: real, k: real, x: real, y: real)
    requires Root(root, u, v) && n == MaxNorm(u, v) <= 1.0 && k > 0.0 && n == root * k
    requires x == u * k && y == v * k
    ensures InDisc(x, y, n) && MaxNorm(x, y) == n * k
  {
    RootScales(root, u, v, k, n, x, y);
    ScaledNorm(u, v, k, x, y);
  }

  lemma BackReaches(u: real, v: real, n: real, k: real, x: real, y: real)
    requires InDisc(x, y, n) && MaxNorm(x, y) == n * k > CORE && n > 0.0 && x == u * k && y == v * k
    ensures Reached(u, v)
  {
    hide Root;
    hide Square;
    hide MaxNorm;
    hide Along;
    var s, u', v' := StretchesAlong(x, y, n);
    Undone(u, v, n, k, x, y, s, MaxNorm(x, y), u', v');
  }

  lemma Undone(u: real, v: real, n: real, k: real, x: real, y: real, s: real, m: real, u': real, v': real)
    requires x == u * k && y == v * k && m == n * k && n > 0.0
    requires Along(x, y, m, n, s, u', v')
    ensures u' == u && v' == v
  {
    Undo(n, k, s, m);
    UndoTimes(u, k, s, x);
    UndoTimes(v, k, s, y);
  }

  lemma BackIsOutside(n: real, root: real, k: real)
    requires root > 0.0 && n == root * k && n * n > CORE * root
    ensures n * k > CORE
  {
    assert (n * k) * root == n * (root * k);
    if n * k <= CORE {
      Monotone(n * k, CORE, root);
    }
  }

  lemma Undo(n: real, k: real, s: real, m: real)
    requires s * m == n && m == n * k && n > 0.0
    ensures k * s == 1.0
  {
    assert (k * s) * n == s * (n * k);
    CancelFactor(k * s, 1.0, n);
  }

  lemma UndoTimes(u: real, k: real, s: real, x: real)
    requires k * s == 1.0 && x == u * k
    ensures x * s == u
  {
    assert x * s == u * (k * s);
  }

  /** In particular every square point whose larger coordinate exceeds sqrt(2)·CORE is reached, the
      corners included. */
  lemma CornersReached(u: real, v: real, root: real)
    requires Root(root, u, v) && MaxNorm(u, v) <= 1.0
    requires MaxNorm(u, v) * MaxNorm(u, v) > 2.0 * (CORE * CORE)
    ensures Reached(u, v)
  {
    hide Root;
    var n := MaxNorm(u, v);
    SquareOrder(CORE, n);
    NormAtLeast(u, v, root);
    RootAtMost(u, v, root, n);
    FarEnough(n, root);
    StepBack(u, v, root);
  }

  lemma FarEnough(n: real, root: real)
    requires n * n > 2.0 * (CORE * CORE) && root * root <= 2.0 * (n * n) && root >= 0.0
    ensures n * n > CORE * root
  {
    if root <= 2.0 * CORE {
    } else {
      TimesLess(2.0 * CORE, root, root);
    }
  }
}
