/** What the driver can count on, tick by tick and exactly: the START button, the Stop causes, the automatic
    disarm, the motor channels and the telemetry, in terms of the inputs of the run and in numbers. */
module ControlLaws {
  import opened ControlMath
  import opened Controller
  import opened ControlRuns

  // ───────────── The Stop causes ─────────────

  /** Nothing in the way: a calibrated pad that has reported within 750 ms, its stop not pressed. */
  predicate Healthy(pad: Pad, now: int)
  {
    pad.connected && now - pad.lastReportUs <= 750000 && !pad.estop && pad.calibrated
  }

  /** Each cause, and which of them counts when several apply. */
  lemma StopMeans(pad: Pad, now: int)
    ensures StopOf(pad, now) == NoStop <==> Healthy(pad, now)
    ensures StopOf(pad, now) == PadLost <==> !pad.connected
    ensures StopOf(pad, now) == PadStale <==> pad.connected && now - pad.lastReportUs > 750000
    ensures StopOf(pad, now) == EStop <==> pad.connected && now - pad.lastReportUs <= 750000 && pad.estop
    ensures StopOf(pad, now) == NotCalibrated <==>
      pad.connected && now - pad.lastReportUs <= 750000 && !pad.estop && !pad.calibrated
  {
  }

  /** What a logged Disarm says of the pad at the tick that disarmed. */
  lemma DisarmMeans(run: seq<Tick>, k: nat, m: nat) returns (t: nat)
    requires Runnable(run) && k <= |run| && m < |Events(run, k)| && Events(run, k)[m].Disarm?
    ensures t < k && After(run, t).armed && !After(run, t + 1).armed && |Events(run, t)| == m
    ensures var cause, pad, now := Events(run, k)[m].cause, run[t].pad, run[t].now;
      (cause == PadLost <==> !pad.connected) &&
      (cause == PadStale <==> pad.connected && now - pad.lastReportUs > 750000) &&
      (cause == EStop <==> pad.connected && now - pad.lastReportUs <= 750000 && pad.estop) &&
      (cause == NotCalibrated <==>
         pad.connected && now - pad.lastReportUs <= 750000 && !pad.estop && !pad.calibrated) &&
      (cause == NoStop <==> Healthy(pad, now))
  {
    t := DisarmCause(run, k, m);
    StopMeans(run[t].pad, run[t].now);
  }

  // ───────────── The START button ─────────────

  /** The press going on before tick `k` counts from tick `j`: its first tick with a clock other than 0, the value
      that stands for no press. */
  ghost predicate CountsFrom(run: seq<Tick>, j: nat, k: nat)
    requires k <= |run|
  {
    j < k && Held(run, j, k) && run[j].now != 0 && forall i :: 0 <= i < j && Held(run, i, k) ==> run[i].now == 0
  }

  /** At tick `m` the press counted from `j` has lasted longer than `arm_hold_ms`. */
  predicate Long(run: seq<Tick>, j: nat, m: nat)
    requires j < |run| && m < |run|
  {
    run[m].now - run[j].now > run[m].cfg.armHoldMs * 1000
  }

  ghost predicate LongBefore(run: seq<Tick>, j: nat, k: nat)
    requires j < |run| && k <= |run|
  {
    exists m :: j < m < k && Long(run, j, m)
  }

  /** Tick `k` is the first of its START press at which the press is long enough. */
  ghost predicate Completes(run: seq<Tick>, k: nat)
    requires k < |run|
  {
    run[k].pad.start && exists j :: CountsFrom(run, j, k) && Long(run, j, k) && !LongBefore(run, j, k)
  }

  lemma CountsFromOne(run: seq<Tick>, i: nat, j: nat, k: nat)
    requires k <= |run| && CountsFrom(run, i, k) && CountsFrom(run, j, k)
    ensures i == j
  {
  }

  /** What the controller keeps of the press: when it began, and whether it has toggled. */
  ghost predicate Pressed(run: seq<Tick>, k: nat, counting: bool, j: nat)
    requires Runnable(run) && k <= |run|
  {
    var s := After(run, k);
    if counting then CountsFrom(run, j, k) && s.holdStart == run[j].now && (s.latch <==> LongBefore(run, j, k))
    else s.holdStart == 0 && !s.latch && forall i :: 0 <= i < k && Held(run, i, k) ==> run[i].now == 0
  }

  lemma {:induction false} PressState(run: seq<Tick>, k: nat) returns (counting: bool, j: nat)
    requires Runnable(run) && k <= |run|
    ensures Pressed(run, k, counting, j)
    decreases k
  {
    if k == 0 {
      counting, j := false, 0;
    } else {
      hide After;
      hide Pressed;
      var i := k - 1;
      counting, j := PressState(run, i);
      if !run[i].pad.start {
        PressOver(run, i, counting, j);
        counting := false;
      } else if counting {
        PressGoesOn(run, i, j);
      } else {
        PressBegins(run, i, j);
        counting, j := run[i].now != 0, i;
      }
    }
  }

  /** The START button in one tick. */
  lemma HoldTick(run: seq<Tick>, i: nat)
    requires Runnable(run) && i < |run|
    ensures var s, next, t := After(run, i), After(run, i + 1), run[i];
      if !t.pad.start then next.holdStart == 0 && !next.latch
      else if s.holdStart == 0 then next.holdStart == t.now && next.latch == s.latch
      else next.holdStart == s.holdStart &&
           next.latch == (s.latch || t.now - s.holdStart > t.cfg.armHoldMs * 1000)
  {
    hide ModeOf;
    hide Active;
    hide RampL;
    hide RampR;
  }

  /** A press up to tick `i` included is one up to tick `i`. */
  lemma HeldShorter(run: seq<Tick>, i: nat)
    requires i < |run|
    ensures forall h :: 0 <= h < i && Held(run, h, i + 1) ==> Held(run, h, i) && run[i].pad.start
    ensures forall h :: 0 <= h < i && Held(run, h, i) && run[i].pad.start ==> Held(run, h, i + 1)
    ensures Held(run, i, i + 1) <==> run[i].pad.start
  {
    hide Held;
    HeldOneMore(run, i, i);
    forall h | 0 <= h < i && Held(run, h, i + 1)
      ensures Held(run, h, i) && run[i].pad.start
    {
      HeldOneMore(run, h, i);
    }
    forall h | 0 <= h < i && Held(run, h, i) && run[i].pad.start
      ensures Held(run, h, i + 1)
    {
      HeldOneMore(run, h, i);
    }
  }

  lemma HeldOneMore(run: seq<Tick>, h: nat, i: nat)
    requires h <= i < |run|
    ensures Held(run, h, i + 1) <==> Held(run, h, i) && run[i].pad.start
    ensures Held(run, i, i)
  {
    if Held(run, h, i + 1) {
      assert run[i].pad.start;
      forall m | h <= m < i
        ensures run[m].pad.start
      {
      }
    }
  }

  lemma LongShorter(run: seq<Tick>, j: nat, i: nat)
    requires j < i < |run|
    ensures LongBefore(run, j, i + 1) <==> LongBefore(run, j, i) || Long(run, j, i)
    ensures !LongBefore(run, i, i + 1)
  {
  }

  lemma PressOver(run: seq<Tick>, i: nat, counting: bool, j: nat)
    requires Runnable(run) && i < |run| && Pressed(run, i, counting, j) && !run[i].pad.start
    ensures Pressed(run, i + 1, false, j)
  {
    hide After;
    HoldTick(run, i);
    HeldShorter(run, i);
  }

  lemma PressBegins(run: seq<Tick>, i: nat, j: nat)
    requires Runnable(run) && i < |run| && Pressed(run, i, false, j) && run[i].pad.start
    ensures Pressed(run, i + 1, run[i].now != 0, i)
  {
    hide After;
    hide Held;
    HoldTick(run, i);
    HeldShorter(run, i);
  }

  lemma PressGoesOn(run: seq<Tick>, i: nat, j: nat)
    requires Runnable(run) && i < |run| && Pressed(run, i, true, j) && run[i].pad.start
    ensures Pressed(run, i + 1, true, j)
  {
    hide After;
    hide Held;
    HoldTick(run, i);
    HeldShorter(run, i);
    LongShorter(run, j, i);
  }

  lemma CompletesExactly(run: seq<Tick>, k: nat)
    requires Runnable(run) && k < |run|
    ensures HoldDoneAt(run, k) <==> Completes(run, k)
  {
    hide After;
    var counting, j := PressState(run, k);
    if counting {
      forall i | CountsFrom(run, i, k)
        ensures i == j
      {
        CountsFromOne(run, i, j, k);
      }
    }
  }

  predicate CentredStick(pad: Pad)
  {
    -0.08 < pad.x < 0.08 && -0.08 < pad.y < 0.08
  }

  /** The arming rule, exactly. A tick that completes a START press toggles: it disarms an armed kart, and arms a
      disarmed one if the stick is centred. Any other tick leaves the kart as it was, and one with anything in
      the way disarms it. */
  lemma {:induction false} ArmedExactly(run: seq<Tick>, k: nat)
    requires Runnable(run) && k < |run|
    ensures ArmedIn(run, k) <==>
      (Healthy(run[k].pad, run[k].now) &&
       if Completes(run, k) then !After(run, k).armed && CentredStick(run[k].pad) else After(run, k).armed)
  {
    hide After;
    hide Completes;
    hide HoldDone;
    CompletesExactly(run, k);
    StopMeans(run[k].pad, run[k].now);
  }

  /** A held START disarms: on the tick that completes the press the kart brakes, ends up disarmed, and logs
      one Disarm, with no cause if nothing was in the way. */
  lemma HoldDisarms(run: seq<Tick>, k: nat)
    requires Runnable(run) && k < |run| && After(run, k).armed && Completes(run, k)
    ensures !ArmedIn(run, k) && !After(run, k + 1).armed && OutAt(run, k).dynBrake
    ensures Events(run, k + 1) == Events(run, k) + [Disarm(StopAt(run, k))]
    ensures StopAt(run, k) == NoStop <==> Healthy(run[k].pad, run[k].now)
  {
    hide Completes;
    hide RampL;
    hide RampR;
    hide Idle;
    hide HoldDone;
    ArmedExactly(run, k);
    StopMeans(run[k].pad, run[k].now);
  }

  // ───────────── The automatic disarm ─────────────

  /** The stick leaves the dead zone by less than a thousandth of its way, on both axes. */
  predicate StickIdle(cfg: Config, pad: Pad)
  {
    var edge := cfg.thrDeadzone + 0.001 * (1.0 - cfg.thrDeadzone);
    -edge < pad.x < edge && -edge < pad.y < edge
  }

  lemma IdleAxis(v: real, dz: real)
    requires 0.0 <= dz < 1.0
    ensures Abs(Deadzone(v, dz)) < 0.001 <==> Abs(v) < dz + 0.001 * (1.0 - dz)
  {
    if Abs(v) > dz {
      var travel, way := Abs(v) - dz, 1.0 - dz;
      QuotientTimes(travel, way);
      DeadzoneSize(v, dz, travel / way);
      QuotientBelow(travel / way, 0.001, way, travel);
    }
  }

  lemma DeadzoneSize(v: real, dz: real, q: real)
    requires 0.0 <= dz < 1.0 && Abs(v) > dz && q == (Abs(v) - dz) / (1.0 - dz) && q >= 0.0
    ensures Abs(Deadzone(v, dz)) == q
  {
    if v < 0.0 {
      NegateQuotient(Abs(v) - dz, 1.0 - dz);
    }
  }

  lemma QuotientBelow(q: real, limit: real, d: real, x: real)
    requires d > 0.0 && q * d == x
    ensures q < limit <==> x < limit * d
  {
    if q >= limit {
      Monotone(limit, q, d);
    } else {
      StrictlyMonotone(q, limit, d);
    }
  }

  lemma StrictlyMonotone(a: real, b: real, d: real)
    requires a < b && d > 0.0
    ensures a * d < b * d
  {
  }

  lemma IdleExactly(cfg: Config, pad: Pad)
    requires Usable(cfg)
    ensures Idle(cfg, pad) <==> StickIdle(cfg, pad)
  {
    hide Deadzone;
    IdleAxis(pad.x, cfg.thrDeadzone);
    IdleAxis(pad.y, cfg.thrDeadzone);
  }

  /** The kart was armed, or driven with A held and the stick off centre. */
  predicate Activity(run: seq<Tick>, j: nat)
    requires Runnable(run) && j < |run|
  {
    ArmedIn(run, j) && (!After(run, j).armed || (run[j].pad.drive && !StickIdle(run[j].cfg, run[j].pad)))
  }

  lemma ActivityExactly(run: seq<Tick>, k: nat)
    requires Runnable(run) && k < |run|
    ensures Activity(run, k) <==> ArmsAt(run, k) || ActiveAt(run, k)
  {
    hide After;
    hide Idle;
    hide StickIdle;
    IdleExactly(run[k].cfg, run[k].pad);
  }

  /** While armed, the clock is the time of the latest activity. */
  lemma {:induction false} LatestActivity(run: seq<Tick>, k: nat) returns (j: nat)
    requires Runnable(run) && k < |run| && ArmedIn(run, k)
    ensures j <= k && Activity(run, j) && (forall m :: j < m <= k ==> !Activity(run, m))
    ensures After(run, k + 1).lastAct == run[j].now
    decreases k
  {
    hide ModeOf;
    hide RampL;
    hide RampR;
    hide Idle;
    hide StickIdle;
    ActivityExactly(run, k);
    if Activity(run, k) {
      j := k;
    } else {
      var i := Before(run, k);
      j := LatestActivity(run, i);
    }
  }

  /** The automatic disarm, exactly: at the end of a tick the kart is armed iff it was armed in the tick and its
      latest activity is not more than `disarm_s` ago. */
  lemma ArmedAfterExactly(run: seq<Tick>, k: nat) returns (j: nat)
    requires Runnable(run) && k < |run|
    ensures ArmedIn(run, k) ==>
      j <= k && Activity(run, j) && (forall m :: j < m <= k ==> !Activity(run, m)) &&
      (After(run, k + 1).armed <==> run[k].now - run[j].now <= run[k].cfg.disarmS * 1000000)
    ensures !ArmedIn(run, k) ==> !After(run, k + 1).armed
  {
    hide ModeOf;
    hide RampL;
    hide RampR;
    hide Idle;
    hide AfterStart;
    hide Activity;
    j := 0;
    if ArmedIn(run, k) {
      j := LatestActivity(run, k);
    }
  }

  // ───────────── Channels and telemetry ─────────────

  function Turned(inv: int, v: real): real
  {
    if inv == 0 then v else -v
  }

  /** What the two driver channels get: the command of the wheel each is wired to, turned round if that wheel is
      inverted, and the ceiling in steps of 4095. */
  lemma ChannelsExactly(run: seq<Tick>, k: nat)
    requires Runnable(run) && k < |run|
    ensures var cfg, out, tel := run[k].cfg, OutAt(run, k), TelAt(run, k);
      (cfg.swapLr == 0 ==> out.outL == Turned(cfg.invL, tel.outL) && out.outR == Turned(cfg.invR, tel.outR)) &&
      (cfg.swapLr != 0 ==> out.outL == Turned(cfg.invR, tel.outR) && out.outR == Turned(cfg.invL, tel.outL))
    ensures var frac, cap := run[k].cfg.dutyCapFrac, OutAt(run, k).cap;
      (0.0 <= frac <= 1.0 ==> cap as real <= 4095.0 * frac < cap as real + 1.0) &&
      (frac > 1.0 ==> cap == 4095) && (frac < 0.0 ==> cap == 0)
  {
    hide RampL;
    hide RampR;
    hide Idle;
    hide AfterStart;
    hide After;
  }

  /** A rate of the command, times the ceiling in force (5 percent at least), is the configured percentage of full duty
      a second. */
  lemma RateExactly(cfg: Config, pctS: int)
    ensures var frac := cfg.dutyCapFrac;
      Rate(cfg, pctS) * (if frac < 0.05 then 0.05 else if frac > 1.0 then 1.0 else frac) == pctS as real / 100.0
  {
    InverseCancels(pctS as real / 100.0,
                   if cfg.dutyCapFrac < 0.05 then 0.05 else if cfg.dutyCapFrac > 1.0 then 1.0 else cfg.dutyCapFrac);
  }

  /** What the page is told of a tick: armed or not, why not, the stick behind the dead zone, the commands, what
      the brake does. */
  lemma {:induction false} TelemetryMeans(run: seq<Tick>, k: nat)
    requires Runnable(run) && k < |run|
    ensures var tel, pad, cfg := TelAt(run, k), run[k].pad, run[k].cfg;
      (tel.state == Run <==> ArmedIn(run, k)) && tel.stop == StopAt(run, k) && tel.start == pad.start &&
      tel.armed == After(run, k + 1).armed &&
      (tel.mode == Dynamic <==> OutAt(run, k).dynBrake) &&
      (tel.mode == Driving <==> ArmedIn(run, k) && pad.drive && !StickIdle(cfg, pad)) &&
      (ArmedIn(run, k) && pad.drive ==>
         tel.fwd == Deadzone(pad.y, cfg.thrDeadzone) && tel.turn == Deadzone(pad.x, cfg.thrDeadzone)) &&
      (!ArmedIn(run, k) || !pad.drive ==> tel.fwd == 0.0 && tel.turn == 0.0 && tel.outL == 0.0 && tel.outR == 0.0)
    ensures !OutAt(run, k).dynBrake ==>
      TelAt(run, k).outL == After(run, k + 1).lastL && TelAt(run, k).outR == After(run, k + 1).lastR
  {
    hide RampL;
    hide RampR;
    hide Idle;
    hide StickIdle;
    hide AfterStart;
    hide Deadzone;
    IdleExactly(run[k].cfg, run[k].pad);
  }
}
