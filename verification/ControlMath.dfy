/** control_math.hpp and mixer.hpp: the shaping of the stick into motor commands. Floats are
    modelled as reals. */
module ControlMath {

  function Abs(x: real): (r: real)
    ensures r >= 0.0 && (r == x || r == -x)
  {
    if x < 0.0 then -x else x
  }

  function Clampf(v: real, lo: real, hi: real): real
  {
    if v < lo then lo else if v > hi then hi else v
  }

  /** [dz..1] is stretched onto [0..1], symmetrically. */
  function Deadzone(v: real, dz: real): real
    requires dz != 1.0
  {
    if Abs(v) <= dz then 0.0
    else (if v > 0.0 then 1.0 else -1.0) * (Abs(v) - dz) / (1.0 - dz)
  }

  /** At most `step`, a rate times dt, toward the target. */
  function SlewBy(target: real, current: real, step: real): real
  {
    var diff := target - current;
    if diff > step then current + step
    else if diff < -step then current - step
    else target
  }

  /** Asymmetric rate limit: `up` away from zero, `dn` back toward it; a rate of 0 or less is off. */
  function Ramp(target: real, current: real, up: real, dn: real, dt: real): real
  {
    RampOver(target * current < 0.0, target, current, up, dn, up * dt, dn * dt)
  }

  /** The same with the products taken: `u` and `d` are the largest rise and fall of a tick. */
  function RampOver(reversing: bool, target: real, current: real, up: real, dn: real, u: real, d: real): real
  {
    if reversing then
      var zeroed := if dn > 0.0 then SlewBy(0.0, current, d) else 0.0;
      if zeroed != 0.0 then zeroed else Approach(target, 0.0, up, dn, u, d)
    else Approach(target, current, up, dn, u, d)
  }

  function Approach(target: real, current: real, up: real, dn: real, u: real, d: real): real
  {
    var away := Abs(target) > Abs(current);
    if (if away then up else dn) <= 0.0 then target
    else SlewBy(target, current, if away then u else d)
  }

  function MixArcade(fwd: real, turn: real, gain: real): (real, real)
  {
    (Clampf(fwd + turn * gain, -1.0, 1.0), Clampf(fwd - turn * gain, -1.0, 1.0))
  }

  function Expo(x: real, e0: real): real
  {
    var e := Clampf(e0, 0.0, 1.0);
    (1.0 - e) * x + e * x * x * x
  }

  /** mixerFor(type).mix: 1 is expo, anything else linear. */
  function Mix(mixType: int, fwd: real, turn: real, gain: real, expoFwd: real, expoTurn: real): (real, real)
  {
    if mixType == 1 then MixArcade(Expo(fwd, expoFwd), Expo(turn, expoTurn), gain)
    else MixArcade(fwd, turn, gain)
  }

  // ───────────── Symmetry ─────────────

  /** The deadzone is odd exactly when it is not negative. */
  lemma DeadzoneOdd(dz: real)
    requires dz != 1.0
    ensures (forall v: real {:trigger Deadzone(v, dz)} :: Deadzone(-v, dz) == -Deadzone(v, dz)) <==> dz >= 0.0
  {
    if dz >= 0.0 {
      forall v: real
        ensures Deadzone(-v, dz) == -Deadzone(v, dz)
      {
        DeadzoneOddAt(v, dz);
      }
    } else {
      assert Deadzone(0.0, dz) == -1.0 * (0.0 - dz) / (1.0 - dz);
      NegativeQuotient(dz);
      assert Deadzone(-0.0, dz) != -Deadzone(0.0, dz);
    }
  }

  lemma NegativeQuotient(dz: real)
    requires dz < 0.0
    ensures -1.0 * (0.0 - dz) / (1.0 - dz) < 0.0
  {
  }

  lemma DeadzoneOddAt(v: real, dz: real)
    requires dz != 1.0 && dz >= 0.0
    ensures Deadzone(-v, dz) == -Deadzone(v, dz)
  {
    if Abs(v) > dz {
      NegateQuotient(Abs(v) - dz, 1.0 - dz);
    }
  }

  lemma NegateQuotient(x: real, y: real)
    requires y != 0.0
    ensures -1.0 * x / y == -(1.0 * x / y)
  {
  }

  lemma ExpoOdd(x: real, e: real)
    ensures Expo(-x, e) == -Expo(x, e)
  {
    var f := Clampf(e, 0.0, 1.0);
    assert f * (-x) * (-x) * (-x) == -(f * x * x * x);
    assert (1.0 - f) * (-x) == -((1.0 - f) * x);
  }

  /** Turning the other way exchanges the wheels. */
  lemma MixMirror(mixType: int, fwd: real, turn: real, gain: real, expoFwd: real, expoTurn: real)
    ensures Mix(mixType, fwd, -turn, gain, expoFwd, expoTurn).0 == Mix(mixType, fwd, turn, gain, expoFwd, expoTurn).1
    ensures Mix(mixType, fwd, -turn, gain, expoFwd, expoTurn).1 == Mix(mixType, fwd, turn, gain, expoFwd, expoTurn).0
  {
    ExpoOdd(turn, expoTurn);
    NegateTimes(turn, gain);
    NegateTimes(Expo(turn, expoTurn), gain);
  }

  lemma NegateTimes(x: real, y: real)
    ensures (-x) * y == -(x * y)
  {
  }

  // ───────────── Shapes ─────────────

  /** Dead up to dz, then strictly increasing from 0 to exactly 1 at full stick. */
  lemma DeadzoneShape(dz: real, v: real, w: real)
    requires 0.0 <= dz < 1.0 && 0.0 <= v <= w
    ensures Deadzone(v, dz) == 0.0 <==> v <= dz
    ensures dz <= v < w ==> Deadzone(v, dz) < Deadzone(w, dz)
    ensures Deadzone(1.0, dz) == 1.0
  {
    QuotientOrder(v - dz, w - dz, 1.0 - dz);
    QuotientOrder(0.0, v - dz, 1.0 - dz);
    QuotientOrder(0.0, w - dz, 1.0 - dz);
  }

  /** Between the edge of the dead zone and full stick the output is the share of the way travelled. */
  lemma DeadzoneLine(dz: real, t: real)
    requires 0.0 <= dz < 1.0 && 0.0 <= t
    ensures Deadzone(dz + t * (1.0 - dz), dz) == t && Deadzone(-dz - t * (1.0 - dz), dz) == -t
  {
    var travel := t * (1.0 - dz);
    Monotone(0.0, t, 1.0 - dz);
    ShareOf(t, 1.0 - dz, travel);
    DeadzoneOddAt(dz + travel, dz);
    if travel > 0.0 {
      assert Abs(dz + travel) - dz == travel;
    }
  }

  lemma ShareOf(t: real, way: real, travel: real)
    requires way > 0.0 && travel == t * way
    ensures 1.0 * travel / way == t && (travel == 0.0 <==> t == 0.0)
  {
  }

  lemma QuotientOrder(a: real, b: real, c: real)
    requires c > 0.0
    ensures a < b ==> 1.0 * a / c < 1.0 * b / c
    ensures 1.0 * 0.0 / c == 0.0 && 1.0 * c / c == 1.0
  {
  }

  /** The kart turns toward the stick: left of centre the right wheel gets more, right of centre the
      left one, and straight ahead both get the same. */
  lemma TurnsTowardStick(fwd: real, turn: real, gain: real)
    requires gain > 0.0
    ensures turn == 0.0 ==> MixArcade(fwd, turn, gain).0 == MixArcade(fwd, turn, gain).1 == Clampf(fwd, -1.0, 1.0)
    ensures turn < 0.0 && Abs(fwd) < 1.0 ==> MixArcade(fwd, turn, gain).0 < MixArcade(fwd, turn, gain).1
    ensures turn > 0.0 && Abs(fwd) < 1.0 ==> MixArcade(fwd, turn, gain).0 > MixArcade(fwd, turn, gain).1
  {
    ProductSign(turn, gain);
  }

  /** The wheels share the throttle and split the turn: as long as neither saturates, their sum is twice the throttle
      and their difference twice the turn times the gain; a wheel past full scale stays there. */
  lemma WheelsSplit(fwd: real, turn: real, gain: real)
    ensures var (l, r) := MixArcade(fwd, turn, gain);
      (Abs(fwd + turn * gain) <= 1.0 && Abs(fwd - turn * gain) <= 1.0 ==>
         l + r == 2.0 * fwd && l - r == 2.0 * (turn * gain)) &&
      (fwd + turn * gain >= 1.0 ==> l == 1.0) && (fwd + turn * gain <= -1.0 ==> l == -1.0) &&
      (fwd - turn * gain >= 1.0 ==> r == 1.0) && (fwd - turn * gain <= -1.0 ==> r == -1.0)
  {
  }

  /** Type 1 bends both axes by the curve (1 - e)·x + e·x·x·x, with e kept within 0 and 1; any other number is the
      linear mixer. */
  lemma MixTypes(mixType: int, fwd: real, turn: real, gain: real, expoFwd: real, expoTurn: real)
    ensures mixType != 1 ==>
      Mix(mixType, fwd, turn, gain, expoFwd, expoTurn) == MixArcade(fwd, turn, gain)
    ensures mixType == 1 && 0.0 <= expoFwd <= 1.0 && 0.0 <= expoTurn <= 1.0 ==>
      Mix(mixType, fwd, turn, gain, expoFwd, expoTurn) ==
        MixArcade(fwd - expoFwd * (fwd - fwd * fwd * fwd), turn - expoTurn * (turn - turn * turn * turn), gain)
  {
    if 0.0 <= expoFwd <= 1.0 && 0.0 <= expoTurn <= 1.0 {
      ExpoBend(fwd, expoFwd);
      ExpoBend(turn, expoTurn);
    }
  }

  lemma ExpoBend(x: real, e: real)
    requires 0.0 <= e <= 1.0
    ensures Expo(x, e) == x - e * (x - x * x * x)
  {
    Cubed(e, x, x * x * x, e * x * x * x);
    Bend(x, e, x * x * x);
  }

  lemma Bend(x: real, e: real, cube: real)
    ensures (1.0 - e) * x + e * cube == x - e * (x - cube)
  {
  }

  /** The expo curve keeps the sign and the end points, and never exceeds the stick. */
  lemma ExpoShape(x: real, e: real)
    requires 0.0 <= x <= 1.0
    ensures 0.0 <= Expo(x, e) <= x
    ensures Expo(1.0, e) == 1.0
    ensures e <= 0.0 ==> Expo(x, e) == x
    ensures e >= 1.0 ==> Expo(x, e) == x * x * x
  {
    var f := Clampf(e, 0.0, 1.0);
    var cube, part := x * x * x, f * x * x * x;
    CubeAtMost(x, cube);
    Cubed(f, x, cube, part);
    Blend(f, x, cube, part);
    assert f * 1.0 * 1.0 * 1.0 == f;
  }

  lemma Cubed(f: real, x: real, cube: real, part: real)
    requires cube == x * x * x && part == f * x * x * x
    ensures part == f * cube
  {
    assert f * x * x * x == f * (x * x * x);
  }

  lemma CubeAtMost(x: real, cube: real)
    requires 0.0 <= x <= 1.0 && cube == x * x * x
    ensures 0.0 <= cube <= x
  {
    var square := x * x;
    ScaledWithin(x, 1.0, x, x, square);
    ScaledWithin(x, x, square, square, cube);
  }

  lemma Blend(f: real, a: real, b: real, fb: real)
    requires 0.0 <= f <= 1.0 && 0.0 <= b <= a && fb == f * b
    ensures 0.0 <= (1.0 - f) * a + fb <= a
  {
    var fa := f * a;
    ScaledWithin(f, a, b, fa, fb);
    assert (1.0 - f) * a == a - fa;
  }

  /** A share of something is no more than the same share of something larger. */
  lemma ScaledWithin(f: real, a: real, b: real, fa: real, fb: real)
    requires 0.0 <= f <= 1.0 && 0.0 <= b <= a && fa == f * a && fb == f * b
    ensures 0.0 <= fb <= fa <= a
  {
    Monotone(0.0, b, f);
    Monotone(b, a, f);
    Monotone(f, 1.0, a);
  }

  // ───────────── Bounds ─────────────

  lemma MixBounded(mixType: int, fwd: real, turn: real, gain: real, expoFwd: real, expoTurn: real)
    ensures Abs(Mix(mixType, fwd, turn, gain, expoFwd, expoTurn).0) <= 1.0
    ensures Abs(Mix(mixType, fwd, turn, gain, expoFwd, expoTurn).1) <= 1.0
  {
  }

  predicate Between(x: real, a: real, b: real)
  {
    a <= x <= b || b <= x <= a
  }

  lemma ProductSign(x: real, y: real)
    ensures x > 0.0 && y > 0.0 ==> x * y > 0.0
    ensures x < 0.0 && y > 0.0 ==> x * y < 0.0
    ensures x > 0.0 && y < 0.0 ==> x * y < 0.0
    ensures x < 0.0 && y < 0.0 ==> x * y > 0.0
    ensures x == 0.0 || y == 0.0 ==> x * y == 0.0
  {
  }

  /** The command never leaves the interval between where it is and where it is going. */
  lemma RampBetween(target: real, current: real, up: real, dn: real, dt: real)
    requires dt > 0.0
    ensures Between(Ramp(target, current, up, dn, dt), current, target)
  {
    ProductSign(target, current);
    ProductSign(up, dt);
    ProductSign(dn, dt);
    BetweenOver(target * current < 0.0, target, current, up, dn, up * dt, dn * dt);
  }

  lemma BetweenOver(reversing: bool, target: real, current: real,
                    up: real, dn: real, u: real, d: real)
    requires reversing ==> Opposite(target, current)
    requires (up > 0.0 ==> u > 0.0) && (dn > 0.0 ==> d > 0.0)
    ensures Between(RampOver(reversing, target, current, up, dn, u, d), current, target)
  {
  }

  // ───────────── Convergence ─────────────

  /** The command after `n` ticks toward a fixed target. */
  function RampTicks(target: real, current: real, up: real, dn: real, dt: real, n: nat): real
    decreases n
  {
    if n == 0 then current else RampTicks(target, Ramp(target, current, up, dn, dt), up, dn, dt, n - 1)
  }

  predicate Opposite(x: real, y: real)
  {
    (x > 0.0 && y < 0.0) || (x < 0.0 && y > 0.0)
  }

  /** One tick with the products out of the way: `u` and `d` are its largest rise and fall. */
  function RampBy(target: real, current: real, u: real, d: real): real
  {
    if Opposite(target, current) then
      var zeroed := SlewBy(0.0, current, d);
      if zeroed != 0.0 then zeroed else SlewBy(target, 0.0, u)
    else SlewBy(target, current, if Abs(target) > Abs(current) then u else d)
  }

  function RampByTicks(target: real, current: real, u: real, d: real, n: nat): real
    decreases n
  {
    if n == 0 then current else RampByTicks(target, RampBy(target, current, u, d), u, d, n - 1)
  }

  lemma RampAsBy(target: real, current: real, up: real, dn: real, dt: real)
    requires up > 0.0 && dn > 0.0
    ensures Ramp(target, current, up, dn, dt) == RampBy(target, current, up * dt, dn * dt)
  {
    ProductSign(target, current);
    OverAsBy(target, current, up, dn, up * dt, dn * dt);
  }

  lemma OverAsBy(target: real, current: real, up: real, dn: real, u: real, d: real)
    requires up > 0.0 && dn > 0.0
    ensures RampOver(Opposite(target, current), target, current, up, dn, u, d) == RampBy(target, current, u, d)
  {
    assert Opposite(target, current) ==> Abs(target) > Abs(0.0);
  }

  lemma {:induction false} RampTicksAsBy(target: real, current: real, up: real, dn: real, dt: real, n: nat)
    requires up > 0.0 && dn > 0.0
    ensures RampTicks(target, current, up, dn, dt, n) == RampByTicks(target, current, up * dt, dn * dt, n)
    decreases n
  {
    if n > 0 {
      RampAsBy(target, current, up, dn, dt);
      RampTicksAsBy(target, Ramp(target, current, up, dn, dt), up, dn, dt, n - 1);
    }
  }

  /** One tick, case by case. */
  lemma RampCases(target: real, current: real, u: real, d: real)
    requires u > 0.0 && d > 0.0
    ensures Opposite(target, current) && Abs(current) > d ==>
      RampBy(target, current, u, d) == if current > 0.0 then current - d else current + d
    ensures Opposite(target, current) && Abs(current) <= d ==>
      RampBy(target, current, u, d) == if Abs(target) <= u then target else if target > 0.0 then u else -u
    ensures !Opposite(target, current) && Abs(target) > Abs(current) ==>
      RampBy(target, current, u, d) ==
        if Abs(target) - Abs(current) <= u then target
        else if target > 0.0 then current + u else current - u
    ensures !Opposite(target, current) && Abs(target) <= Abs(current) ==>
      RampBy(target, current, u, d) ==
        if Abs(current) - Abs(target) <= d then target
        else if current > 0.0 then current - d else current + d
  {
  }

  /** Does the tick that ends a fall spend only what is left of itself on the rise? Of a tick that may
      fall by `d` or rise by `u`, the fall of |current| takes |current| / d and the rise to |next|
      takes |next| / u; together they take at most one tick (here without the divisions). */
  predicate OneTickOfWork(current: real, next: real, u: real, d: real)
  {
    Abs(current) * u + Abs(next) * d <= u * d
  }

  lemma ReversalBy(target: real, current: real, u: real, d: real)
    requires u > 0.0 && d > 0.0 && Opposite(target, current) && Abs(current) <= d
    ensures OneTickOfWork(current, RampBy(target, current, u, d), u, d) <==> Abs(target) * d <= u * (d - Abs(current))
  {
    hide RampBy;
    RampCases(target, current, u, d);
    var next := RampBy(target, current, u, d);
    assert Abs(next) == if Abs(target) <= u then Abs(target) else u;
    WorkOf(Abs(target), Abs(current), Abs(next), u, d);
  }

  lemma WorkOf(t: real, c: real, n: real, u: real, d: real)
    requires u > 0.0 && d > 0.0 && t > 0.0 && c > 0.0 && n == if t <= u then t else u
    ensures c * u + n * d <= u * d <==> t * d <= u * (d - c)
  {
    assert u * (d - c) == u * d - c * u;
    ProductSign(c, u);
    if t > u {
      assert t * d >= u * d by {
        Monotone(u, t, d);
      }
    }
  }

  /** It does exactly when the target is no farther than the rest of the tick reaches: otherwise the
      tick that reaches zero goes on to rise for a full `dt`. */
  lemma ReversalShare(target: real, current: real, up: real, dn: real, dt: real)
    requires up > 0.0 && dn > 0.0 && dt > 0.0 && Opposite(target, current) && Abs(current) <= dn * dt
    ensures OneTickOfWork(current, Ramp(target, current, up, dn, dt), up * dt, dn * dt) <==>
      Abs(target) * (dn * dt) <= (up * dt) * (dn * dt - Abs(current))
  {
    hide OneTickOfWork;
    hide Ramp;
    hide RampBy;
    ProductSign(up, dt);
    ProductSign(dn, dt);
    RampAsBy(target, current, up, dn, dt);
    ReversalBy(target, current, up * dt, dn * dt);
  }

  /** From half a fall below zero to full ahead: one tick and a half of work in one tick. */
  lemma ReversalOverspends()
    ensures Ramp(1.0, -0.01, 10.0, 10.0, 0.002) == 0.02
    ensures !OneTickOfWork(-0.01, Ramp(1.0, -0.01, 10.0, 10.0, 0.002), 10.0 * 0.002, 10.0 * 0.002)
  {
    assert 10.0 * 0.002 == 0.02;
  }

  lemma CrossingBy(target: real, current: real, u: real, d: real)
    requires u > 0.0 && d > 0.0 && Opposite(RampBy(target, current, u, d), current)
    ensures Opposite(target, current) && Abs(current) <= d
  {
    RampCases(target, current, u, d);
  }

  lemma ProgressBy(target: real, current: real, u: real, d: real)
    requires u > 0.0 && d > 0.0 && current != target
    ensures Abs(target - RampBy(target, current, u, d)) < Abs(target - current)
  {
    RampCases(target, current, u, d);
  }

  /** Away from the target every tick gets strictly closer to it. */
  lemma RampProgress(target: real, current: real, up: real, dn: real, dt: real)
    requires up > 0.0 && dn > 0.0 && dt > 0.0 && current != target
    ensures Abs(target - Ramp(target, current, up, dn, dt)) < Abs(target - current)
  {
    ProductSign(up, dt);
    ProductSign(dn, dt);
    RampAsBy(target, current, up, dn, dt);
    ProgressBy(target, current, up * dt, dn * dt);
  }

  /** The command changes sign only from within one tick's fall of zero, and only to reverse. */
  lemma RampCrossing(target: real, current: real, up: real, dn: real, dt: real)
    requires up > 0.0 && dn > 0.0 && dt > 0.0
    requires Opposite(Ramp(target, current, up, dn, dt), current)
    ensures Opposite(target, current) && Abs(current) <= dn * dt
  {
    ProductSign(up, dt);
    ProductSign(dn, dt);
    RampAsBy(target, current, up, dn, dt);
    CrossingBy(target, current, up * dt, dn * dt);
  }

  /** What is left of `x` after falling by `fallen`. */
  function Left(x: real, fallen: real): real
  {
    if x > fallen then x - fallen else 0.0
  }

  /** Toward 0 a tick falls by `dn`·dt, and never past it. */
  lemma RampToZero(current: real, up: real, dn: real, dt: real)
    requires dn > 0.0 && dt > 0.0
    ensures Abs(Ramp(0.0, current, up, dn, dt)) == Left(Abs(current), dn * dt)
  {
    ProductSign(0.0, current);
    ProductSign(dn, dt);
  }

  /** `k` steps of length `x`, summed one by one. */
  function Steps(k: nat, x: real): (r: real)
    ensures x >= 0.0 ==> r >= 0.0
  {
    if k == 0 then 0.0 else Steps(k - 1, x) + x
  }

  lemma {:induction false} StepsProduct(k: nat, x: real)
    ensures Steps(k, x) == k as real * x
  {
    if k > 0 {
      StepsProduct(k - 1, x);
      assert k as real * x == (k - 1) as real * x + x;
    }
  }

  lemma {:induction false} ArrivedBy(target: real, u: real, d: real, n: nat)
    requires u > 0.0 && d > 0.0
    ensures RampByTicks(target, target, u, d, n) == target
    decreases n
  {
    RampCases(target, target, u, d);
    if n > 0 {
      ArrivedBy(target, u, d, n - 1);
    }
  }

  lemma {:induction false} LongerBy(target: real, current: real, u: real, d: real, n: nat, more: nat)
    requires u > 0.0 && d > 0.0 && RampByTicks(target, current, u, d, n) == target
    ensures RampByTicks(target, current, u, d, n + more) == target
    decreases n
  {
    if n == 0 {
      ArrivedBy(target, u, d, more);
    } else {
      LongerBy(target, RampBy(target, current, u, d), u, d, n - 1, more);
    }
  }

  /** Between zero and the target only the rise matters. */
  lemma {:induction false} ClimbsBy(target: real, current: real, u: real, d: real, rises: nat)
    requires u > 0.0 && d > 0.0 && Between(current, 0.0, target)
    requires Abs(target) - Abs(current) <= Steps(rises, u)
    ensures RampByTicks(target, current, u, d, rises) == target
    decreases rises
  {
    RampCases(target, current, u, d);
    if rises > 0 {
      ClimbsBy(target, RampBy(target, current, u, d), u, d, rises - 1);
    }
  }

  /** One tick of falling: there, past zero on the target's side, or one fall nearer to zero. */
  lemma FallsBy(target: real, current: real, u: real, d: real)
    requires u > 0.0 && d > 0.0 && !Between(current, 0.0, target)
    ensures var next := RampBy(target, current, u, d);
      (Between(next, 0.0, target) || (!Between(next, 0.0, target) && Abs(next) == Abs(current) - d))
  {
    RampCases(target, current, u, d);
  }

  /** `falls` ticks are enough to fall to zero, `rises` to climb from zero to the target; together
      they are enough from anywhere. */
  lemma {:induction false} ConvergesBy(target: real, current: real, u: real, d: real, falls: nat, rises: nat)
    requires u > 0.0 && d > 0.0 && Abs(current) <= Steps(falls, d) && Abs(target) <= Steps(rises, u)
    ensures RampByTicks(target, current, u, d, falls + rises) == target
    decreases falls
  {
    if Between(current, 0.0, target) {
      ClimbsBy(target, current, u, d, rises);
      LongerBy(target, current, u, d, rises, falls);
    } else {
      var next := RampBy(target, current, u, d);
      FallsBy(target, current, u, d);
      if Between(next, 0.0, target) {
        ClimbsBy(target, next, u, d, rises);
        LongerBy(target, next, u, d, rises, falls - 1);
      } else {
        ConvergesBy(target, next, u, d, falls - 1, rises);
      }
    }
  }

  /** The least whole number of steps covering a distance. */
  function Ceil(x: real): (n: nat)
    requires x >= 0.0
    ensures n as real >= x && n as real < x + 1.0
  {
    if x.Floor as real == x then x.Floor else x.Floor + 1
  }

  /** ceil(distance / (rate·dt)). */
  function TicksFor(distance: real, rate: real, dt: real): nat
    requires distance >= 0.0 && rate > 0.0 && dt > 0.0
  {
    ProductSign(rate, dt);
    QuotientTimes(distance, rate * dt);
    Ceil(distance / (rate * dt))
  }

  /** The time to settle: ceil(|current| / (dn·dt)) + ceil(|target| / (up·dt)) ticks, and the last
      of them lands exactly on the target. */
  lemma {:induction false} RampSettles(target: real, current: real, up: real, dn: real, dt: real)
    requires up > 0.0 && dn > 0.0 && dt > 0.0
    ensures RampTicks(target, current, up, dn, dt,
                      TicksFor(Abs(current), dn, dt) + TicksFor(Abs(target), up, dt)) == target
  {
    hide RampTicks;
    hide RampByTicks;
    var falls, rises := TicksFor(Abs(current), dn, dt), TicksFor(Abs(target), up, dt);
    ProductSign(up, dt);
    ProductSign(dn, dt);
    TicksCover(Abs(current), dn, dt);
    TicksCover(Abs(target), up, dt);
    ConvergesBy(target, current, up * dt, dn * dt, falls, rises);
    RampTicksAsBy(target, current, up, dn, dt, falls + rises);
  }

  lemma {:induction false} TicksCover(distance: real, rate: real, dt: real)
    requires distance >= 0.0 && rate > 0.0 && dt > 0.0
    ensures distance <= Steps(TicksFor(distance, rate, dt), rate * dt)
  {
    ProductSign(rate, dt);
    CeilCovers(distance, rate * dt);
  }

  lemma CeilCovers(x: real, step: real)
    requires x >= 0.0 && step > 0.0
    ensures x / step >= 0.0 && x <= Steps(Ceil(x / step), step)
  {
    QuotientTimes(x, step);
    StepsCover(x / step, Ceil(x / step), step);
  }

  lemma {:induction false} StepsCover(q: real, n: nat, step: real)
    requires q <= n as real && step > 0.0
    ensures q * step <= Steps(n, step)
  {
    Monotone(q, n as real, step);
    StepsProduct(n, step);
  }

  lemma QuotientTimes(x: real, y: real)
    requires y > 0.0
    ensures x / y * y == x
    ensures x >= 0.0 ==> x / y >= 0.0
  {
  }

  lemma Monotone(x: real, y: real, z: real)
    requires x <= y && z >= 0.0
    ensures x * z <= y * z
  {
  }
}
