/** Whole runs of the controller: any configuration, gamepad state and clock value at every tick. */
module ControlRuns {
  import opened ControlMath
  import opened Controller

  datatype Tick = Tick(cfg: Config, pad: Pad, now: int)

  predicate Runnable(run: seq<Tick>)
  {
    forall k :: 0 <= k < |run| ==> Usable(run[k].cfg)
  }

  /** The loop state after the first `k` ticks since power-up. */
  function After(run: seq<Tick>, k: nat): Loop
    requires Runnable(run) && k <= |run|
  {
    if k == 0 then Initial()
    else Next(run[k - 1].cfg, After(run, k - 1), run[k - 1].pad, run[k - 1].now)
  }

  function StopAt(run: seq<Tick>, k: nat): Stop
    requires k < |run|
  {
    StopOf(run[k].pad, run[k].now)
  }

  predicate ArmsAt(run: seq<Tick>, k: nat)
    requires Runnable(run) && k < |run|
  {
    Arms(run[k].cfg, After(run, k), run[k].pad, run[k].now)
  }

  predicate HoldDoneAt(run: seq<Tick>, k: nat)
    requires Runnable(run) && k < |run|
  {
    HoldDone(run[k].cfg, After(run, k), run[k].pad, run[k].now)
  }

  predicate ActiveAt(run: seq<Tick>, k: nat)
    requires Runnable(run) && k < |run|
  {
    Active(run[k].cfg, After(run, k), run[k].pad, run[k].now)
  }

  /** Armed inside tick `k`, when the motors get their command. */
  predicate ArmedIn(run: seq<Tick>, k: nat)
    requires Runnable(run) && k < |run|
  {
    AfterStart(run[k].cfg, After(run, k), run[k].pad, run[k].now).armed
  }

  function OutAt(run: seq<Tick>, k: nat): Outputs
    requires Runnable(run) && k < |run|
  {
    OutputsOf(run[k].cfg, After(run, k), run[k].pad, run[k].now)
  }

  function TelAt(run: seq<Tick>, k: nat): Telemetry
    requires Runnable(run) && k < |run|
  {
    TelemetryOf(run[k].cfg, After(run, k), run[k].pad, run[k].now)
  }

  /** No Stop cause at ticks `i` to `k`. */
  predicate Unblocked(run: seq<Tick>, i: nat, k: nat)
    requires k <= |run|
  {
    forall m :: i <= m < k ==> StopAt(run, m) == NoStop
  }

  /** START held at ticks `i` to `k`. */
  predicate Held(run: seq<Tick>, i: nat, k: nat)
    requires k <= |run|
  {
    forall m :: i <= m < k ==> run[m].pad.start
  }

  // ───────────── The dead man ─────────────

  /** Armed after every tick from `j` up to `k`. */
  predicate ArmedThrough(run: seq<Tick>, j: nat, k: nat)
    requires Runnable(run) && k <= |run|
  {
    forall m :: j < m <= k ==> After(run, m).armed
  }

  /** Armed means an arming tick, and armed ever since with nothing in the way. */
  lemma {:induction false} ArmedSince(run: seq<Tick>, k: nat) returns (j: nat)
    requires Runnable(run) && k < |run| && ArmedIn(run, k)
    ensures j <= k && ArmsAt(run, j) && Unblocked(run, j, k + 1) && ArmedThrough(run, j, k)
    decreases k
  {
    if ArmsAt(run, k) {
      j := k;
    } else {
      var i := Before(run, k);
      j := ArmedSince(run, i);
    }
  }

  lemma Before(run: seq<Tick>, k: nat) returns (i: nat)
    requires Runnable(run) && k < |run| && ArmedIn(run, k) && !ArmsAt(run, k)
    ensures i + 1 == k && ArmedIn(run, i) && StopAt(run, k) == NoStop && After(run, k).armed
  {
    hide ModeOf;
    hide Active;
    hide RampL;
    hide RampR;
    assert k != 0;
    i := k - 1;
  }

  /** A tick that does not brake: a live, calibrated pad with no stop pressed, A held, and an
      earlier arming, with the kart armed after every tick since and none of them blocking. */
  lemma DeadMan(run: seq<Tick>, k: nat) returns (j: nat)
    requires Runnable(run) && k < |run| && !OutAt(run, k).dynBrake
    ensures var pad := run[k].pad;
      (pad.connected && pad.calibrated && !pad.estop && pad.drive && run[k].now - pad.lastReportUs <= PAD_HB_TIMEOUT_US)
    ensures j <= k && ArmsAt(run, j) && Unblocked(run, j, k + 1) && ArmedThrough(run, j, k)
  {
    j := ArmedSince(run, k);
    assert StopAt(run, k) == NoStop;
  }

  /** Releasing A, any Stop cause, or not being armed brakes on that very tick; so does an idle
      stick once both commands have run down. Nothing else does. */
  lemma BrakesExactly(run: seq<Tick>, k: nat)
    requires Runnable(run) && k < |run|
    ensures StopAt(run, k) != NoStop ==> !ArmedIn(run, k)
    ensures OutAt(run, k).dynBrake <==>
      (!ArmedIn(run, k) || !run[k].pad.drive ||
       (Idle(run[k].cfg, run[k].pad) && Abs(TelAt(run, k).outL) <= 0.0001 && Abs(TelAt(run, k).outR) <= 0.0001))
  {
    hide RampL;
    hide RampR;
    hide Idle;
  }

  /** A braking tick leaves both ramp memories at 0, and its reported commands below the residue. */
  lemma {:induction false} BrakingForgets(run: seq<Tick>, k: nat)
    requires Runnable(run) && k < |run| && OutAt(run, k).dynBrake
    ensures After(run, k + 1).lastL == 0.0 && After(run, k + 1).lastR == 0.0
    ensures Abs(OutAt(run, k).outL) <= 0.0001 && Abs(OutAt(run, k).outR) <= 0.0001
  {
    hide RampL;
    hide RampR;
    hide Idle;
    BrakesExactly(run, k);
  }

  /** One wheel running down toward 0 arrives within a tick iff its memory is within one fall of it,
      or the fall is not limited at all. */
  lemma RunDown(current: real, up: real, dn: real, dt: real)
    requires dt > 0.0
    ensures Ramp(0.0, current, up, dn, dt) == 0.0 <==> dn <= 0.0 || Abs(current) <= dn * dt
  {
    ProductSign(0.0, current);
    ProductSign(dn, dt);
  }

  lemma RateSign(cfg: Config, pctS: int)
    ensures Rate(cfg, pctS) <= 0.0 <==> pctS <= 0
  {
    var floor := if CapFrac(cfg) < 0.05 then 0.05 else CapFrac(cfg);
    var inv := 1.0 / floor;
    QuotientTimes(1.0, floor);
    ProductSign(inv, floor);
    ProductSign(pctS as real / 100.0, inv);
  }

  /** When a braking tick really reports 0 on both channels: it is not driving, or the fall is not
      limited, or both memories were within one tick's fall of 0. Otherwise a residue remains. */
  lemma {:induction false} ResidueExactly(run: seq<Tick>, k: nat)
    requires Runnable(run) && k < |run| && OutAt(run, k).dynBrake
    ensures var cfg, s, out := run[k].cfg, After(run, k), OutAt(run, k);
      (out.outL == 0.0 && out.outR == 0.0 <==>
       (!ArmedIn(run, k) || !run[k].pad.drive || cfg.decelPctS <= 0 ||
        (Abs(s.lastL) <= Rate(cfg, cfg.decelPctS) * CTRL_DT_S && Abs(s.lastR) <= Rate(cfg, cfg.decelPctS) * CTRL_DT_S)))
  {
    hide Ramp;
    hide Rate;
    hide Mix;
    hide Deadzone;
    hide AfterStart;
    var cfg, s := run[k].cfg, After(run, k);
    RunDown(s.lastL, Rate(cfg, cfg.accelPctS), Rate(cfg, cfg.decelPctS), CTRL_DT_S);
    RunDown(s.lastR, Rate(cfg, cfg.accelPctS), Rate(cfg, cfg.decelPctS), CTRL_DT_S);
    RateSign(cfg, cfg.decelPctS);
  }

  // ───────────── Bounds ─────────────

  lemma TargetsBounded(cfg: Config, pad: Pad)
    requires Usable(cfg)
    ensures Abs(Targets(cfg, pad).0) <= 1.0 && Abs(Targets(cfg, pad).1) <= 1.0
  {
    hide Deadzone;
    hide Mix;
    MixBounded(cfg.mixType, Deadzone(pad.y, cfg.thrDeadzone), Deadzone(pad.x, cfg.thrDeadzone),
               cfg.turnGain, cfg.expoFwd, cfg.expoTurn);
  }

  lemma StepBounded(cfg: Config, s: Loop, pad: Pad)
    requires Usable(cfg) && Abs(s.lastL) <= 1.0 && Abs(s.lastR) <= 1.0
    ensures Abs(RampL(cfg, s, pad)) <= 1.0 && Abs(RampR(cfg, s, pad)) <= 1.0
  {
    hide Ramp;
    hide Rate;
    hide Targets;
    TargetsBounded(cfg, pad);
    RampBetween(Targets(cfg, pad).0, s.lastL, Rate(cfg, cfg.accelPctS), Rate(cfg, cfg.decelPctS), CTRL_DT_S);
    RampBetween(Targets(cfg, pad).1, s.lastR, Rate(cfg, cfg.accelPctS), Rate(cfg, cfg.decelPctS), CTRL_DT_S);
  }

  lemma {:induction false} MemoryBounded(run: seq<Tick>, k: nat)
    requires Runnable(run) && k <= |run|
    ensures Abs(After(run, k).lastL) <= 1.0 && Abs(After(run, k).lastR) <= 1.0
    decreases k
  {
    hide RampL;
    hide RampR;
    if k > 0 {
      MemoryBounded(run, k - 1);
      StepBounded(run[k - 1].cfg, After(run, k - 1), run[k - 1].pad);
    }
  }

  /** No channel is ever commanded beyond full scale, and the cap stays within the PWM's range. */
  lemma CommandBounded(run: seq<Tick>, k: nat)
    requires Runnable(run) && k < |run|
    ensures Abs(OutAt(run, k).outL) <= 1.0 && Abs(OutAt(run, k).outR) <= 1.0
    ensures 0 <= OutAt(run, k).cap <= PWM_MAX
  {
    hide RampL;
    hide RampR;
    MemoryBounded(run, k);
    StepBounded(run[k].cfg, After(run, k), run[k].pad);
  }

  // ───────────── Automatic disarm ─────────────

  /** While armed, the activity clock is the time of an arming or driving tick since. */
  lemma {:induction false} ActivityClock(run: seq<Tick>, k: nat) returns (j: nat)
    requires Runnable(run) && k < |run| && After(run, k + 1).armed
    ensures j <= k && (ArmsAt(run, j) || ActiveAt(run, j)) && After(run, k + 1).lastAct == run[j].now
    decreases k
  {
    hide ModeOf;
    hide RampL;
    hide RampR;
    hide Idle;
    if ArmsAt(run, k) || ActiveAt(run, k) {
      j := k;
    } else {
      var i := Before(run, k);
      j := ActivityClock(run, i);
    }
  }

  /** Armed at the end of a tick: armed or driven within `disarm_s` of it. */
  lemma RecentlyActive(run: seq<Tick>, k: nat) returns (j: nat)
    requires Runnable(run) && k < |run| && After(run, k + 1).armed
    ensures j <= k && (ArmsAt(run, j) || ActiveAt(run, j))
    ensures run[k].now - run[j].now <= run[k].cfg.disarmS * 1000000
  {
    hide ModeOf;
    hide RampL;
    hide RampR;
    hide Idle;
    j := ActivityClock(run, k);
  }

  // ───────────── Arming ─────────────

  /** A running hold was started by a tick of the same, uninterrupted press. */
  lemma {:induction false} HoldSince(run: seq<Tick>, k: nat) returns (j: nat)
    requires Runnable(run) && k <= |run| && After(run, k).holdStart != 0
    ensures j < k && Held(run, j, k) && After(run, k).holdStart == run[j].now
    decreases k
  {
    hide ModeOf;
    hide RampL;
    hide RampR;
    hide Idle;
    var i := k - 1;
    if After(run, i).holdStart == 0 {
      j := i;
    } else {
      j := HoldSince(run, i);
    }
  }

  /** Arming rises only on a centred, unblocked tick that closes an uninterrupted START press of
      more than `arm_hold_ms`. */
  lemma ArmingNeedsHold(run: seq<Tick>, k: nat) returns (j: nat)
    requires Runnable(run) && k < |run| && !After(run, k).armed && ArmedIn(run, k)
    ensures Abs(run[k].pad.x) < 0.08 && Abs(run[k].pad.y) < 0.08 && StopAt(run, k) == NoStop
    ensures j < k && Held(run, j, k + 1) && run[k].now - run[j].now > run[k].cfg.armHoldMs * 1000
  {
    j := HoldSince(run, k);
  }

  /** The latch lasts as long as the press. */
  lemma {:induction false} LatchHolds(run: seq<Tick>, i: nat, j: nat)
    requires Runnable(run) && i <= j < |run| && After(run, i).latch && Held(run, i, j)
    ensures After(run, j).latch
    decreases j
  {
    hide ModeOf;
    hide RampL;
    hide RampR;
    hide Idle;
    hide Active;
    if i < j {
      LatchHolds(run, i, j - 1);
    }
  }

  /** One press toggles at most once: after its toggle, the rest of the press does nothing, and in
      particular cannot arm. */
  lemma {:induction false} OneTogglePerPress(run: seq<Tick>, i: nat, j: nat)
    requires Runnable(run) && i < j < |run| && HoldDoneAt(run, i) && Held(run, i, j)
    ensures !HoldDoneAt(run, j)
    ensures !After(run, j).armed ==> !ArmedIn(run, j)
  {
    hide ModeOf;
    hide RampL;
    hide RampR;
    hide Idle;
    hide Active;
    assert After(run, i + 1).latch;
    LatchHolds(run, i + 1, j);
  }

  // ───────────── The event log ─────────────

  /** What the host pushes during the first `k` ticks. */
  function Events(run: seq<Tick>, k: nat): seq<Event>
    requires Runnable(run) && k <= |run|
  {
    if k == 0 then [] else Events(run, k - 1) + Edge(After(run, k - 1).armed, TelAt(run, k - 1))
  }

  /** The control task, for any number of ticks: its state and its pushes are those of the run. */
  method ControlTask(esp: EspController, run: seq<Tick>)
    requires Runnable(run) && esp.ctrl.State() == Initial() && !esp.evArmed && esp.pushed == []
    modifies esp`evArmed, esp`pushed, esp.ctrl
    ensures esp.ctrl.State() == After(run, |run|)
    ensures esp.pushed == Events(run, |run|)
  {
    hide Next;
    hide TelemetryOf;
    for k := 0 to |run|
      invariant esp.ctrl.State() == After(run, k) && esp.evArmed == After(run, k).armed
      invariant esp.pushed == Events(run, k)
    {
      esp.TickOnce(run[k].pad, run[k].cfg, run[k].now);
      assert After(run, k + 1) == Next(run[k].cfg, After(run, k), run[k].pad, run[k].now);
    }
  }

  predicate Alternates(es: seq<Event>)
  {
    forall m :: 0 <= m < |es| ==> (es[m].Arm? <==> m % 2 == 0)
  }

  lemma NothingAlternates()
    ensures Alternates([])
  {
  }

  /** An edge of the armed flag is the event that is due. */
  lemma EdgeIsDue(es: seq<Event>, wasArmed: bool, tel: Telemetry)
    requires Alternates(es) && (|es| % 2 == 1 <==> wasArmed)
    ensures var next := es + Edge(wasArmed, tel);
      Alternates(next) && (|next| % 2 == 1 <==> tel.armed)
  {
  }

  /** Arm, Disarm, Arm, ...: strictly alternating, and the last one tells whether it is armed. */
  lemma {:induction false} EventsAlternate(run: seq<Tick>, k: nat)
    requires Runnable(run) && k <= |run|
    ensures Alternates(Events(run, k))
    ensures |Events(run, k)| % 2 == 1 <==> After(run, k).armed
    decreases k
  {
    hide Next;
    hide Alternates;
    hide Edge;
    if k > 0 {
      EventsAlternate(run, k - 1);
      EdgeIsDue(Events(run, k - 1), After(run, k - 1).armed, TelAt(run, k - 1));
    } else {
      NothingAlternates();
    }
  }

  /** Every Disarm carries the Stop cause of the tick that disarmed. */
  lemma {:induction false} DisarmCause(run: seq<Tick>, k: nat, m: nat) returns (t: nat)
    requires Runnable(run) && k <= |run| && m < |Events(run, k)| && Events(run, k)[m].Disarm?
    ensures t < k && After(run, t).armed && !After(run, t + 1).armed
    ensures Events(run, k)[m].cause == StopAt(run, t)
    ensures |Events(run, t)| == m
    decreases k
  {
    hide Next;
    if m < |Events(run, k - 1)| {
      t := DisarmCause(run, k - 1, m);
    } else {
      t := k - 1;
    }
  }

  // ───────────── Mirror symmetry ─────────────

  /** The same kart seen in a mirror: its wheels, and the channels they hang on, change places. */
  function MirrorConfig(cfg: Config): Config
  {
    cfg.(invL := cfg.invR, invR := cfg.invL, swapLr := if cfg.swapLr != 0 then 0 else 1)
  }

  function MirrorPad(pad: Pad): Pad
  {
    pad.(x := -pad.x)
  }

  function MirrorLoop(s: Loop): Loop
  {
    s.(lastL := s.lastR, lastR := s.lastL)
  }

  function MirrorTick(t: Tick): Tick
  {
    Tick(MirrorConfig(t.cfg), MirrorPad(t.pad), t.now)
  }

  function Mirror(run: seq<Tick>): (r: seq<Tick>)
    ensures |r| == |run| && forall k :: 0 <= k < |run| ==> r[k] == MirrorTick(run[k])
  {
    seq(|run|, k requires 0 <= k < |run| => MirrorTick(run[k]))
  }

  lemma MirrorTargets(cfg: Config, pad: Pad)
    requires Usable(cfg)
    ensures Idle(MirrorConfig(cfg), MirrorPad(pad)) == Idle(cfg, pad)
    ensures Targets(MirrorConfig(cfg), MirrorPad(pad)) == (Targets(cfg, pad).1, Targets(cfg, pad).0)
  {
    hide Deadzone;
    hide Mix;
    DeadzoneOddAt(pad.x, cfg.thrDeadzone);
    MixMirror(cfg.mixType, Deadzone(pad.y, cfg.thrDeadzone), Deadzone(pad.x, cfg.thrDeadzone),
              cfg.turnGain, cfg.expoFwd, cfg.expoTurn);
  }

  lemma MirrorRamps(cfg: Config, s: Loop, pad: Pad)
    requires Usable(cfg)
    ensures RampL(MirrorConfig(cfg), MirrorLoop(s), MirrorPad(pad)) == RampR(cfg, s, pad)
    ensures RampR(MirrorConfig(cfg), MirrorLoop(s), MirrorPad(pad)) == RampL(cfg, s, pad)
  {
    hide Ramp;
    hide Targets;
    MirrorTargets(cfg, pad);
    assert Rate(MirrorConfig(cfg), cfg.accelPctS) == Rate(cfg, cfg.accelPctS);
    assert Rate(MirrorConfig(cfg), cfg.decelPctS) == Rate(cfg, cfg.decelPctS);
  }

  lemma MirrorStep(cfg: Config, s: Loop, pad: Pad, now: int)
    requires Usable(cfg)
    ensures Next(MirrorConfig(cfg), MirrorLoop(s), MirrorPad(pad), now) == MirrorLoop(Next(cfg, s, pad, now))
    ensures OutputsOf(MirrorConfig(cfg), MirrorLoop(s), MirrorPad(pad), now) == OutputsOf(cfg, s, pad, now)
  {
    hide RampL;
    hide RampR;
    hide Idle;
    MirrorTargets(cfg, pad);
    MirrorRamps(cfg, s, pad);
  }

  lemma {:induction false} MirrorState(run: seq<Tick>, k: nat)
    requires Runnable(run) && k <= |run|
    ensures After(Mirror(run), k) == MirrorLoop(After(run, k))
    decreases k
  {
    hide Next;
    if k > 0 {
      MirrorState(run, k - 1);
      MirrorStep(run[k - 1].cfg, After(run, k - 1), run[k - 1].pad, run[k - 1].now);
    }
  }

  /** Every tick of the mirrored run gives the same channel outputs, the same braking and the same
      arming, for either mixer. */
  lemma MirrorSymmetry(run: seq<Tick>, k: nat)
    requires Runnable(run) && k < |run|
    ensures OutAt(Mirror(run), k) == OutAt(run, k)
    ensures TelAt(Mirror(run), k).armed == TelAt(run, k).armed
  {
    hide Next;
    hide OutputsOf;
    MirrorState(run, k);
    MirrorState(run, k + 1);
    MirrorStep(run[k].cfg, After(run, k), run[k].pad, run[k].now);
  }

  // ───────────── Slopes in real duty ─────────────

  /** The rates are in real duty per second whatever the cap, within its configured range. */
  lemma RateInRealDuty(cfg: Config, pctS: int)
    requires 0.05 <= cfg.dutyCapFrac <= 1.0
    ensures Rate(cfg, pctS) * CapFrac(cfg) == pctS as real / 100.0
  {
    assert CapFrac(cfg) == cfg.dutyCapFrac;
    InverseCancels(pctS as real / 100.0, cfg.dutyCapFrac);
  }

  lemma RatePositive(cfg: Config, pctS: int)
    requires pctS > 0
    ensures Rate(cfg, pctS) > 0.0
  {
    InverseCancels(pctS as real / 100.0, if CapFrac(cfg) < 0.05 then 0.05 else CapFrac(cfg));
  }

  lemma InverseCancels(a: real, c: real)
    requires c > 0.0
    ensures a * (1.0 / c) * c == a
    ensures a > 0.0 ==> a * (1.0 / c) > 0.0
  {
    QuotientTimes(1.0, c);
    assert a * (1.0 / c) * c == a * ((1.0 / c) * c);
    var inv := 1.0 / c;
    ProductSign(inv, c);
    ProductSign(a, inv);
  }

  /** How far a tick moves the applied duty: `next`, `memory` and `target` are commands, `cap` times
      a command is the duty, `accel` and `decel` the configured slopes of it; a tick is 2 ms. */
  predicate MovesAtSlope(target: real, memory: real, next: real, cap: real, accel: real, decel: real)
  {
    Moves(target, memory, next, cap * Abs(next), cap * Abs(memory), accel * 0.002, decel * 0.002)
  }

  /** From size `before` to size `after`: at most `rise` up and `fall` down, and exactly that much
      while the target is not reached; through zero only from within `fall` of it. */
  predicate Moves(target: real, memory: real, next: real, after: real, before: real, rise: real, fall: real)
  {
    after - before <= rise &&
    (if Opposite(next, memory) then before <= fall else before - after <= fall) &&
    (next != target && !Opposite(target, memory) ==>
      if Abs(target) > Abs(memory) then after - before == rise else before - after == fall)
  }

  lemma MovesScale(target: real, memory: real, next: real, after: real, before: real, u: real, d: real,
                   cap: real, dutyAfter: real, dutyBefore: real, rise: real, fall: real)
    requires cap > 0.0 && Moves(target, memory, next, after, before, u, d)
    requires dutyAfter == cap * after && dutyBefore == cap * before && rise == cap * u && fall == cap * d
    ensures Moves(target, memory, next, dutyAfter, dutyBefore, rise, fall)
  {
    ScaledDifference(cap, after, before, u, dutyAfter, dutyBefore, rise);
    ScaledDifference(cap, before, after, d, dutyBefore, dutyAfter, fall);
    ScaledDifference(cap, before, 0.0, d, dutyBefore, 0.0, fall);
  }

  lemma ScaledDifference(c: real, a: real, b: real, step: real, ca: real, cb: real, cstep: real)
    requires c > 0.0 && ca == c * a && cb == c * b && cstep == c * step
    ensures a - b <= step ==> ca - cb <= cstep
    ensures a - b == step ==> ca - cb == cstep
  {
    assert ca - cb == c * (a - b);
    if a - b < step {
      Monotone(a - b, step, c);
    }
  }

  lemma RampMoves(target: real, memory: real, u: real, d: real)
    requires u > 0.0 && d > 0.0
    ensures var next := RampBy(target, memory, u, d);
      Moves(target, memory, next, Abs(next), Abs(memory), u, d)
  {
    RampCases(target, memory, u, d);
  }

  /** A driving tick moves the duty of each wheel at accel_pct_s and decel_pct_s percent a second,
      exactly so while the target is not reached, whatever the cap. */
  lemma RealDutySlope(cfg: Config, s: Loop, pad: Pad)
    requires Usable(cfg) && 0.05 <= cfg.dutyCapFrac <= 1.0 && cfg.accelPctS > 0 && cfg.decelPctS > 0
    ensures MovesAtSlope(Targets(cfg, pad).0, s.lastL, RampL(cfg, s, pad), CapFrac(cfg),
                         cfg.accelPctS as real / 100.0, cfg.decelPctS as real / 100.0)
    ensures MovesAtSlope(Targets(cfg, pad).1, s.lastR, RampR(cfg, s, pad), CapFrac(cfg),
                         cfg.accelPctS as real / 100.0, cfg.decelPctS as real / 100.0)
  {
    hide Targets;
    hide Rate;
    hide Ramp;
    hide MovesAtSlope;
    hide RampBy;
    RateInRealDuty(cfg, cfg.accelPctS);
    RateInRealDuty(cfg, cfg.decelPctS);
    RatePositive(cfg, cfg.accelPctS);
    RatePositive(cfg, cfg.decelPctS);
    WheelSlope(Targets(cfg, pad).0, s.lastL, Rate(cfg, cfg.accelPctS), Rate(cfg, cfg.decelPctS), CapFrac(cfg),
               cfg.accelPctS as real / 100.0, cfg.decelPctS as real / 100.0);
    WheelSlope(Targets(cfg, pad).1, s.lastR, Rate(cfg, cfg.accelPctS), Rate(cfg, cfg.decelPctS), CapFrac(cfg),
               cfg.accelPctS as real / 100.0, cfg.decelPctS as real / 100.0);
  }

  lemma WheelSlope(target: real, memory: real, up: real, dn: real, cap: real,
                   accel: real, decel: real)
    requires up > 0.0 && dn > 0.0 && cap > 0.0 && up * cap == accel && dn * cap == decel
    ensures MovesAtSlope(target, memory, Ramp(target, memory, up, dn, CTRL_DT_S), cap, accel, decel)
  {
    hide Ramp;
    hide RampBy;
    hide Moves;
    hide MovesAtSlope;
    var u, d := up * CTRL_DT_S, dn * CTRL_DT_S;
    var next := Ramp(target, memory, up, dn, CTRL_DT_S);
    RampAsBy(target, memory, up, dn, CTRL_DT_S);
    TickOf(up, cap, accel, u);
    TickOf(dn, cap, decel, d);
    RampMoves(target, memory, u, d);
    MovesInDuty(target, memory, next, u, d, cap, accel, decel);
  }

  lemma MovesInDuty(target: real, memory: real, next: real, u: real, d: real, cap: real, accel: real, decel: real)
    requires cap > 0.0 && Moves(target, memory, next, Abs(next), Abs(memory), u, d)
    requires cap * u == accel * CTRL_DT_S && cap * d == decel * CTRL_DT_S
    ensures MovesAtSlope(target, memory, next, cap, accel, decel)
  {
    MovesScale(target, memory, next, Abs(next), Abs(memory), u, d, cap, cap * Abs(next), cap * Abs(memory),
               accel * CTRL_DT_S, decel * CTRL_DT_S);
  }

  lemma TickOf(rate: real, cap: real, slope: real, tick: real)
    requires rate > 0.0 && rate * cap == slope && tick == rate * CTRL_DT_S
    ensures tick > 0.0 && cap * tick == slope * CTRL_DT_S
  {
    assert cap * (rate * CTRL_DT_S) == (rate * cap) * CTRL_DT_S;
  }

  // ───────────── A held stick ─────────────

  /** Ticks `i` to `k`, armed with A held, the stick off centre and still, the settings unchanged. */
  predicate Steady(run: seq<Tick>, i: nat, k: nat, cfg: Config, x: real, y: real)
    requires Runnable(run) && k <= |run|
  {
    forall m :: i <= m < k ==>
      run[m].cfg == cfg && run[m].pad.x == x && run[m].pad.y == y && ActiveAt(run, m)
  }

  lemma {:induction false} SteadyRamps(run: seq<Tick>, i: nat, n: nat, cfg: Config, pad: Pad)
    requires Runnable(run) && i + n <= |run| && Usable(cfg) && Steady(run, i, i + n, cfg, pad.x, pad.y)
    ensures After(run, i + n).lastL ==
      RampTicks(Targets(cfg, pad).0, After(run, i).lastL,
                Rate(cfg, cfg.accelPctS), Rate(cfg, cfg.decelPctS), CTRL_DT_S, n)
    ensures After(run, i + n).lastR ==
      RampTicks(Targets(cfg, pad).1, After(run, i).lastR,
                Rate(cfg, cfg.accelPctS), Rate(cfg, cfg.decelPctS), CTRL_DT_S, n)
    decreases n
  {
    hide Ramp;
    hide Rate;
    hide Targets;
    hide Idle;
    hide AfterStart;
    hide Next;
    hide ActiveAt;
    if n > 0 {
      SteadyTick(run, i, cfg, pad);
      SteadyRamps(run, i + 1, n - 1, cfg, pad);
    }
  }

  lemma SteadyTick(run: seq<Tick>, i: nat, cfg: Config, pad: Pad)
    requires Runnable(run) && i < |run| && run[i].cfg == cfg && run[i].pad.x == pad.x && run[i].pad.y == pad.y
    requires ActiveAt(run, i)
    ensures After(run, i + 1).lastL ==
      Ramp(Targets(cfg, pad).0, After(run, i).lastL, Rate(cfg, cfg.accelPctS), Rate(cfg, cfg.decelPctS), CTRL_DT_S)
    ensures After(run, i + 1).lastR ==
      Ramp(Targets(cfg, pad).1, After(run, i).lastR, Rate(cfg, cfg.accelPctS), Rate(cfg, cfg.decelPctS), CTRL_DT_S)
  {
    hide Ramp;
    hide Rate;
    hide Mix;
    hide Deadzone;
    hide AfterStart;
  }

  function SettleTicks(cfg: Config, target: real, memory: real): nat
    requires cfg.accelPctS > 0 && cfg.decelPctS > 0
  {
    RatePositive(cfg, cfg.accelPctS);
    RunDownTicks(cfg, memory) + TicksFor(Abs(target), Rate(cfg, cfg.accelPctS), CTRL_DT_S)
  }

  /** Hold the stick, and after ceil(|memory| / fall) + ceil(|target| / rise) ticks the command of
      a wheel is exactly what the stick asks for, whatever it was. */
  lemma HeldStickSettles(run: seq<Tick>, i: nat, n: nat, cfg: Config, pad: Pad)
    requires Runnable(run) && i + n <= |run| && Usable(cfg) && Steady(run, i, i + n, cfg, pad.x, pad.y)
    requires cfg.accelPctS > 0 && cfg.decelPctS > 0
    ensures n == SettleTicks(cfg, Targets(cfg, pad).0, After(run, i).lastL) ==>
      After(run, i + n).lastL == Targets(cfg, pad).0
    ensures n == SettleTicks(cfg, Targets(cfg, pad).1, After(run, i).lastR) ==>
      After(run, i + n).lastR == Targets(cfg, pad).1
  {
    hide Rate;
    hide Targets;
    hide RampTicks;
    hide Steady;
    hide TicksFor;
    hide After;
    RatePositive(cfg, cfg.accelPctS);
    RatePositive(cfg, cfg.decelPctS);
    var up, dn := Rate(cfg, cfg.accelPctS), Rate(cfg, cfg.decelPctS);
    RampSettles(Targets(cfg, pad).0, After(run, i).lastL, up, dn, CTRL_DT_S);
    RampSettles(Targets(cfg, pad).1, After(run, i).lastR, up, dn, CTRL_DT_S);
    SteadyRamps(run, i, n, cfg, pad);
  }

  // ───────────── The freewheel ─────────────

  /** Ticks `i` to `k`, armed with A held and the stick idle, the settings unchanged. */
  predicate Resting(run: seq<Tick>, i: nat, k: nat, cfg: Config)
    requires Runnable(run) && k <= |run|
  {
    forall m :: i <= m < k ==>
      run[m].cfg == cfg && Drives(cfg, After(run, m), run[m].pad, run[m].now) && Idle(cfg, run[m].pad)
  }

  /** The largest fall of a tick. */
  function Fall(cfg: Config): real
  {
    Rate(cfg, cfg.decelPctS) * CTRL_DT_S
  }

  predicate Slow(x: real)
  {
    x <= 0.0001
  }

  /** Of two memories of size `l` and `r`, this is what `s` keeps after falling by `fallen`, unless the
      brake came in between. */
  predicate RunDownTo(s: Loop, l: real, r: real, fallen: real)
  {
    (Abs(s.lastL) == Left(l, fallen) && Abs(s.lastR) == Left(r, fallen)) ||
    (s.lastL == 0.0 && s.lastR == 0.0 && Slow(Left(l, fallen)) && Slow(Left(r, fallen)))
  }

  lemma RestTick(run: seq<Tick>, i: nat, cfg: Config)
    requires Runnable(run) && i < |run| && Resting(run, i, i + 1, cfg) && cfg.decelPctS > 0
    ensures var s, next := After(run, i), After(run, i + 1);
      var l, r := Left(Abs(s.lastL), Fall(cfg)), Left(Abs(s.lastR), Fall(cfg));
      (OutAt(run, i).dynBrake == (Slow(l) && Slow(r)) &&
       if OutAt(run, i).dynBrake then next.lastL == 0.0 && next.lastR == 0.0
       else Abs(next.lastL) == l && Abs(next.lastR) == r)
  {
    hide Ramp;
    hide Rate;
    hide Mix;
    hide Deadzone;
    hide AfterStart;
    hide Left;
    var s, up, dn := After(run, i), Rate(cfg, cfg.accelPctS), Rate(cfg, cfg.decelPctS);
    RatePositive(cfg, cfg.decelPctS);
    RampToZero(s.lastL, up, dn, CTRL_DT_S);
    RampToZero(s.lastR, up, dn, CTRL_DT_S);
  }

  lemma RunDownStep(s: Loop, next: Loop, l: real, r: real, fallen: real, d: real, brakes: bool)
    requires d > 0.0 && fallen >= 0.0 && RunDownTo(s, l, r, fallen)
    requires brakes == (Slow(Left(Abs(s.lastL), d)) && Slow(Left(Abs(s.lastR), d)))
    requires if brakes then next.lastL == 0.0 && next.lastR == 0.0
      else Abs(next.lastL) == Left(Abs(s.lastL), d) && Abs(next.lastR) == Left(Abs(s.lastR), d)
    ensures RunDownTo(next, l, r, fallen + d)
    ensures brakes <==> Slow(Left(l, fallen + d)) && Slow(Left(r, fallen + d))
  {
  }

  lemma {:induction false} RestingMemories(run: seq<Tick>, i: nat, n: nat, cfg: Config)
    requires Runnable(run) && i + n <= |run| && Resting(run, i, i + n, cfg) && cfg.decelPctS > 0
    ensures RunDownTo(After(run, i + n), Abs(After(run, i).lastL), Abs(After(run, i).lastR), Steps(n, Fall(cfg)))
    ensures n > 0 ==> (OutAt(run, i + n - 1).dynBrake <==>
      Slow(Left(Abs(After(run, i).lastL), Steps(n, Fall(cfg)))) &&
      Slow(Left(Abs(After(run, i).lastR), Steps(n, Fall(cfg)))))
    decreases n
  {
    hide OutputsOf;
    hide Next;
    hide Drives;
    hide Idle;
    hide Fall;
    hide Left;
    hide Slow;
    if n > 0 {
      var j := n - 1;
      RestingMemories(run, i, j, cfg);
      RestTick(run, i + j, cfg);
      FallPositive(cfg);
      RunDownStep(After(run, i + j), After(run, i + n), Abs(After(run, i).lastL), Abs(After(run, i).lastR),
                  Steps(j, Fall(cfg)), Fall(cfg), OutAt(run, i + j).dynBrake);
    } else {
      NothingFallen(After(run, i));
    }
  }

  lemma NothingFallen(s: Loop)
    ensures RunDownTo(s, Abs(s.lastL), Abs(s.lastR), 0.0)
  {
  }

  lemma FallPositive(cfg: Config)
    requires cfg.decelPctS > 0
    ensures Fall(cfg) > 0.0
  {
    RatePositive(cfg, cfg.decelPctS);
    ProductSign(Rate(cfg, cfg.decelPctS), CTRL_DT_S);
  }

  /** Without a limit to the fall, an idle tick brakes at once. */
  lemma UnlimitedFall(run: seq<Tick>, i: nat, cfg: Config)
    requires Runnable(run) && i < |run| && Resting(run, i, i + 1, cfg) && cfg.decelPctS <= 0
    ensures OutAt(run, i).dynBrake
  {
    hide Ramp;
    hide Rate;
    hide Mix;
    hide Deadzone;
    hide AfterStart;
    var s, up, dn := After(run, i), Rate(cfg, cfg.accelPctS), Rate(cfg, cfg.decelPctS);
    RateSign(cfg, cfg.decelPctS);
    RunDown(s.lastL, up, dn, CTRL_DT_S);
    RunDown(s.lastR, up, dn, CTRL_DT_S);
  }

  /** `n` falls of at most `d` bring a memory down to the threshold. */
  predicate RanDown(memory: real, n: nat, d: real)
  {
    Abs(memory) - n as real * d <= 0.0001
  }

  lemma {:induction false} RanDownBySteps(memory: real, n: nat, d: real)
    ensures RanDown(memory, n, d) <==> Slow(Left(Abs(memory), Steps(n, d)))
  {
    StepsProduct(n, d);
  }

  /** Let go of the stick with A held, and the kart freewheels while both commands run down: the n-th
      idle tick brakes iff neither memory exceeds n falls by more than the threshold, or the fall is
      not limited at all. */
  lemma {:induction false} Freewheel(run: seq<Tick>, i: nat, n: nat, cfg: Config)
    requires Runnable(run) && 0 < n && i + n <= |run| && Resting(run, i, i + n, cfg)
    ensures OutAt(run, i + n - 1).dynBrake <==>
      (cfg.decelPctS <= 0 ||
       (RanDown(After(run, i).lastL, n, Fall(cfg)) && RanDown(After(run, i).lastR, n, Fall(cfg))))
  {
    hide OutputsOf;
    hide Next;
    hide Drives;
    hide Idle;
    hide Fall;
    hide Left;
    hide Slow;
    hide RanDown;
    if cfg.decelPctS > 0 {
      RestingMemories(run, i, n, cfg);
      RanDownBySteps(After(run, i).lastL, n, Fall(cfg));
      RanDownBySteps(After(run, i).lastR, n, Fall(cfg));
    } else {
      UnlimitedFall(run, i + n - 1, cfg);
    }
  }

  /** How many ticks a memory takes to run down. */
  function RunDownTicks(cfg: Config, memory: real): nat
    requires cfg.decelPctS > 0
  {
    RatePositive(cfg, cfg.decelPctS);
    TicksFor(Abs(memory), Rate(cfg, cfg.decelPctS), CTRL_DT_S)
  }

  lemma {:induction false} RunDownCovers(cfg: Config, memory: real, n: nat)
    requires cfg.decelPctS > 0 && n >= RunDownTicks(cfg, memory)
    ensures Slow(Left(Abs(memory), Steps(n, Fall(cfg))))
  {
    hide TicksFor;
    hide Rate;
    RatePositive(cfg, cfg.decelPctS);
    FallPositive(cfg);
    TicksCover(Abs(memory), Rate(cfg, cfg.decelPctS), CTRL_DT_S);
    StepsGrow(RunDownTicks(cfg, memory), n, Fall(cfg));
  }

  /** So after ceil(|memory| / fall) idle ticks, for the larger of the two memories, it brakes and
      both are 0. */
  lemma FreewheelEnds(run: seq<Tick>, i: nat, n: nat, cfg: Config)
    requires Runnable(run) && 0 < n && i + n <= |run| && Resting(run, i, i + n, cfg) && cfg.decelPctS > 0
    requires n >= RunDownTicks(cfg, After(run, i).lastL) && n >= RunDownTicks(cfg, After(run, i).lastR)
    ensures OutAt(run, i + n - 1).dynBrake && After(run, i + n).lastL == 0.0 && After(run, i + n).lastR == 0.0
  {
    hide OutputsOf;
    hide Next;
    hide Drives;
    hide Idle;
    hide RunDownTicks;
    hide Left;
    hide Slow;
    RunDownCovers(cfg, After(run, i).lastL, n);
    RunDownCovers(cfg, After(run, i).lastR, n);
    RestingMemories(run, i, n, cfg);
    BrakingForgets(run, i + n - 1);
  }

  lemma {:induction false} StepsGrow(k: nat, n: nat, x: real)
    requires k <= n && x >= 0.0
    ensures Steps(k, x) <= Steps(n, x)
    decreases n
  {
    if k < n {
      StepsGrow(k, n - 1, x);
    }
  }

  /** The residue is real: armed by a held START, driven for a tick just off centre, and with the stick
      back at the centre the braking tick still reports the last sliver of the run-down. */
  lemma ResidueRun(run: seq<Tick>, cfg: Config)
    requires cfg == Config(1.0, 0.06, 1.0, 0, 0.5, 0.6, 200, 100, 0, 0, 0, 1000, 30)
    requires run == [Tick(cfg, Pad(0.0, 0.0, true, true, false, true, false, 1), 1),
                     Tick(cfg, Pad(0.0, 0.0, true, true, false, true, false, 2000000), 2000000),
                     Tick(cfg, Pad(0.0609635, 0.0609635, true, true, false, false, true, 2002000), 2002000),
                     Tick(cfg, Pad(0.0, 0.0, true, true, false, false, true, 2004000), 2004000)]
    ensures Runnable(run) && !OutAt(run, 2).dynBrake
    ensures OutAt(run, 3) == Outputs(true, 0.00005, 0.0, PWM_MAX)
  {
    assert After(run, 1) == Loop(false, 1, 0, false, 0.0, 0.0);
    assert After(run, 2) == Loop(true, 1, 2000000, true, 0.0, 0.0);
    ResidueTicks(run[2].pad, run[3].pad, cfg);
    assert After(run, 3) == Loop(true, 0, 2002000, false, 0.00205, 0.0);
  }

  lemma ResidueTicks(pad2: Pad, pad3: Pad, cfg: Config)
    requires cfg == Config(1.0, 0.06, 1.0, 0, 0.5, 0.6, 200, 100, 0, 0, 0, 1000, 30)
    requires pad2.x == pad2.y == 0.0609635 && pad3.x == pad3.y == 0.0
    ensures !Idle(cfg, pad2) && Idle(cfg, pad3)
    ensures forall s: Loop {:trigger RampL(cfg, s, pad2)} :: s.lastL == 0.0 && s.lastR == 0.0 ==>
      RampL(cfg, s, pad2) == 0.00205 && RampR(cfg, s, pad2) == 0.0
    ensures forall s: Loop {:trigger RampL(cfg, s, pad3)} :: s.lastL == 0.00205 && s.lastR == 0.0 ==>
      RampL(cfg, s, pad3) == 0.00005 && RampR(cfg, s, pad3) == 0.0
  {
    hide Ramp;
    hide Rate;
    hide Targets;
    hide Idle;
    ResidueTargets(pad2, pad3, cfg);
    ResidueRates(cfg);
    ResidueRamps();
  }

  lemma ResidueTargets(pad2: Pad, pad3: Pad, cfg: Config)
    requires cfg == Config(1.0, 0.06, 1.0, 0, 0.5, 0.6, 200, 100, 0, 0, 0, 1000, 30)
    requires pad2.x == pad2.y == 0.0609635 && pad3.x == pad3.y == 0.0
    ensures !Idle(cfg, pad2) && Idle(cfg, pad3)
    ensures Targets(cfg, pad2) == (0.00205, 0.0) && Targets(cfg, pad3) == (0.0, 0.0)
  {
    assert Deadzone(0.0609635, 0.06) == 0.001025;
    assert Deadzone(0.0, 0.06) == 0.0;
  }

  lemma ResidueRates(cfg: Config)
    requires cfg.dutyCapFrac == 1.0
    ensures Rate(cfg, 100) == 1.0 && Rate(cfg, 200) == 2.0
  {
  }

  lemma ResidueRamps()
    ensures Ramp(0.0, 0.0, 2.0, 1.0, CTRL_DT_S) == 0.0
    ensures Ramp(0.00205, 0.0, 2.0, 1.0, CTRL_DT_S) == 0.00205
    ensures Ramp(0.0, 0.00205, 2.0, 1.0, CTRL_DT_S) == 0.00005
  {
  }
}
