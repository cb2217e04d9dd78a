/** controller_core.cpp and the edge logging of controller.cpp: one tick of the 500 Hz control loop,
    and the host that records the arming edges. A tick is atomic; floats are reals. */
module Controller {
  import opened ControlMath

  const ARM_CENTER_MAX: real := 0.08
  const PAD_HB_TIMEOUT_US: int := 750000
  const CTRL_DT_S: real := 0.002
  const PWM_MAX: int := 4095

  /** KartConfig, without the LED settings. */
  datatype Config = Config(
    dutyCapFrac: real, thrDeadzone: real, turnGain: real, mixType: int, expoFwd: real, expoTurn: real,
    accelPctS: int, decelPctS: int, invL: int, invR: int, swapLr: int, armHoldMs: int, disarmS: int)

  /** What clampAll leaves of the dead zone (0..0.30): in particular not 1, where deadzone divides
      by zero. */
  predicate Usable(cfg: Config)
  {
    0.0 <= cfg.thrDeadzone < 1.0
  }

  datatype Pad = Pad(x: real, y: real, connected: bool, calibrated: bool, estop: bool, start: bool,
                     drive: bool, lastReportUs: int)

  datatype Stop = NoStop | PadLost | PadStale | EStop | NotCalibrated
  datatype RunState = Lockout | Run
  datatype BrakeMode = Driving | Dynamic | Coast

  datatype Outputs = Outputs(dynBrake: bool, outL: real, outR: real, cap: int)

  datatype Telemetry = Telemetry(state: RunState, stop: Stop, fwd: real, turn: real, outL: real, outR: real,
                                 mode: BrakeMode, armed: bool, start: bool)

  /** The loop state. `lastL`, `lastR` are the ramp memories; `holdStart` 0 means no press. */
  datatype Loop = Loop(armed: bool, holdStart: int, lastAct: int, latch: bool, lastL: real, lastR: real)

  // ───────────── One tick, as functions ─────────────

  /** Why the kart will not drive: the first cause that applies. */
  function StopOf(pad: Pad, now: int): Stop
  {
    if !pad.connected then PadLost
    else if now - pad.lastReportUs > PAD_HB_TIMEOUT_US then PadStale
    else if pad.estop then EStop
    else if !pad.calibrated then NotCalibrated
    else NoStop
  }

  predicate Centred(pad: Pad)
  {
    Abs(pad.x) < ARM_CENTER_MAX && Abs(pad.y) < ARM_CENTER_MAX
  }

  /** A START press has just lasted long enough. */
  predicate HoldDone(cfg: Config, s: Loop, pad: Pad, now: int)
  {
    pad.start && s.holdStart != 0 && !s.latch && now - s.holdStart > cfg.armHoldMs * 1000
  }

  /** The tick arms. */
  predicate Arms(cfg: Config, s: Loop, pad: Pad, now: int)
  {
    HoldDone(cfg, s, pad, now) && !s.armed && StopOf(pad, now) == NoStop && Centred(pad)
  }

  /** The state once the Stop causes and START have had their say. */
  function AfterStart(cfg: Config, s: Loop, pad: Pad, now: int): Loop
  {
    var free := s.armed && StopOf(pad, now) == NoStop;
    if Arms(cfg, s, pad, now) then s.(armed := true, latch := true, lastAct := now)
    else if HoldDone(cfg, s, pad, now) then s.(armed := false, latch := true)
    else if pad.start then s.(armed := free, holdStart := if s.holdStart == 0 then now else s.holdStart)
    else s.(armed := free, holdStart := 0, latch := false)
  }

  function Idle(cfg: Config, pad: Pad): bool
    requires Usable(cfg)
  {
    Abs(Deadzone(pad.y, cfg.thrDeadzone)) < 0.001 && Abs(Deadzone(pad.x, cfg.thrDeadzone)) < 0.001
  }

  /** The commands the stick asks for. */
  function Targets(cfg: Config, pad: Pad): (real, real)
    requires Usable(cfg)
  {
    if Idle(cfg, pad) then (0.0, 0.0)
    else Mix(cfg.mixType, Deadzone(pad.y, cfg.thrDeadzone), Deadzone(pad.x, cfg.thrDeadzone),
             cfg.turnGain, cfg.expoFwd, cfg.expoTurn)
  }

  function CapFrac(cfg: Config): real
  {
    Clampf(cfg.dutyCapFrac, 0.0, 1.0)
  }

  /** The ceiling, in steps of the PWM. */
  function Cap(cfg: Config): int
  {
    (PWM_MAX as real * CapFrac(cfg)).Floor
  }

  /** Percent of full duty per second, as a rate of the command. */
  function Rate(cfg: Config, pctS: int): real
  {
    var floor := if CapFrac(cfg) < 0.05 then 0.05 else CapFrac(cfg);
    pctS as real / 100.0 * (1.0 / floor)
  }

  function RampL(cfg: Config, s: Loop, pad: Pad): real
    requires Usable(cfg)
  {
    Ramp(Targets(cfg, pad).0, s.lastL, Rate(cfg, cfg.accelPctS), Rate(cfg, cfg.decelPctS), CTRL_DT_S)
  }

  function RampR(cfg: Config, s: Loop, pad: Pad): real
    requires Usable(cfg)
  {
    Ramp(Targets(cfg, pad).1, s.lastR, Rate(cfg, cfg.accelPctS), Rate(cfg, cfg.decelPctS), CTRL_DT_S)
  }

  /** The commands are on their way to the motors: armed and A held. */
  predicate Drives(cfg: Config, s: Loop, pad: Pad, now: int)
  {
    AfterStart(cfg, s, pad, now).armed && pad.drive
  }

  function WheelL(cfg: Config, s: Loop, pad: Pad, now: int): real
    requires Usable(cfg)
  {
    if Drives(cfg, s, pad, now) then RampL(cfg, s, pad) else 0.0
  }

  function WheelR(cfg: Config, s: Loop, pad: Pad, now: int): real
    requires Usable(cfg)
  {
    if Drives(cfg, s, pad, now) then RampR(cfg, s, pad) else 0.0
  }

  function ModeOf(cfg: Config, s: Loop, pad: Pad, now: int): BrakeMode
    requires Usable(cfg)
  {
    if !Drives(cfg, s, pad, now) then Dynamic
    else if !Idle(cfg, pad) then Driving
    else if Abs(RampL(cfg, s, pad)) > 0.0001 || Abs(RampR(cfg, s, pad)) > 0.0001 then Coast
    else Dynamic
  }

  /** Driving activity: it postpones the automatic disarm. */
  predicate Active(cfg: Config, s: Loop, pad: Pad, now: int)
    requires Usable(cfg)
  {
    Drives(cfg, s, pad, now) && !Idle(cfg, pad)
  }

  function Next(cfg: Config, s: Loop, pad: Pad, now: int): Loop
    requires Usable(cfg)
  {
    var a := AfterStart(cfg, s, pad, now);
    var lastAct := if Active(cfg, s, pad, now) then now else a.lastAct;
    var braking := ModeOf(cfg, s, pad, now) == Dynamic;
    Loop(a.armed && now - lastAct <= cfg.disarmS * 1000000, a.holdStart, lastAct, a.latch,
         if braking then 0.0 else RampL(cfg, s, pad), if braking then 0.0 else RampR(cfg, s, pad))
  }

  function Signed(inv: int, v: real): real
  {
    if inv != 0 then -v else v
  }

  function OutputsOf(cfg: Config, s: Loop, pad: Pad, now: int): Outputs
    requires Usable(cfg)
  {
    var l, r := Signed(cfg.invL, WheelL(cfg, s, pad, now)), Signed(cfg.invR, WheelR(cfg, s, pad, now));
    var swap := cfg.swapLr != 0;
    Outputs(ModeOf(cfg, s, pad, now) == Dynamic, if swap then r else l, if swap then l else r,
            Cap(cfg))
  }

  function TelemetryOf(cfg: Config, s: Loop, pad: Pad, now: int): Telemetry
    requires Usable(cfg)
  {
    var drives := Drives(cfg, s, pad, now);
    Telemetry(if AfterStart(cfg, s, pad, now).armed then Run else Lockout, StopOf(pad, now),
              if drives then Deadzone(pad.y, cfg.thrDeadzone) else 0.0,
              if drives then Deadzone(pad.x, cfg.thrDeadzone) else 0.0,
              WheelL(cfg, s, pad, now), WheelR(cfg, s, pad, now),
              ModeOf(cfg, s, pad, now), Next(cfg, s, pad, now).armed, pad.start)
  }

  // ───────────── The controller ─────────────

  class KartController {
    var cfg: Config
    var pad: Pad
    var tel: Telemetry
    var armed: bool
    var holdStartUs: int
    var lastActUs: int
    var startLatch: bool
    var lastL: real
    var lastR: real

    ghost function State(): Loop
      reads this
    {
      Loop(armed, holdStartUs, lastActUs, startLatch, lastL, lastR)
    }

    constructor (defaults: Config)
      ensures State() == Initial() && cfg == defaults
    {
      cfg := defaults;
      pad := Pad(0.0, 0.0, false, false, false, false, false, 0);
      tel := Telemetry(Lockout, NoStop, 0.0, 0.0, 0.0, 0.0, Dynamic, false, false);
      armed, holdStartUs, lastActUs, startLatch, lastL, lastR := false, 0, 0, false, 0.0, 0.0;
    }

    /** The START press: arming, disarming, the latch. */
    method PressStart(now: int, blocked: bool)
      requires blocked == (StopOf(pad, now) != NoStop)
      modifies this`armed, this`holdStartUs, this`lastActUs, this`startLatch
      ensures State() == AfterStart(cfg, old(State()), pad, now)
    {
      if blocked {
        armed := false;
      }
      var centred := Abs(pad.x) < ARM_CENTER_MAX && Abs(pad.y) < ARM_CENTER_MAX;
      if pad.start {
        if holdStartUs == 0 {
          holdStartUs := now;
        } else if !startLatch && now - holdStartUs > cfg.armHoldMs * 1000 {
          startLatch := true;
          if !armed && !blocked && centred {
            armed := true;
            lastActUs := now;
          } else {
            armed := false;
          }
        }
      } else {
        holdStartUs := 0;
        startLatch := false;
      }
    }

    /** The motor commands of an armed tick with A held. `s` is the state the tick began with. */
    method Drive(now: int, ghost s: Loop) returns (fwd: real, turn: real, mode: BrakeMode)
      requires Usable(cfg) && State() == AfterStart(cfg, s, pad, now) && armed && pad.drive
      modifies this`lastActUs, this`lastL, this`lastR
      ensures fwd == Deadzone(pad.y, cfg.thrDeadzone) && turn == Deadzone(pad.x, cfg.thrDeadzone)
      ensures mode == ModeOf(cfg, s, pad, now)
      ensures lastL == RampL(cfg, s, pad) && lastR == RampR(cfg, s, pad)
      ensures lastActUs == if Idle(cfg, pad) then old(lastActUs) else now
    {
      hide Ramp;
      hide Rate;
      hide Mix;
      hide Deadzone;
      fwd := Deadzone(pad.y, cfg.thrDeadzone);
      turn := Deadzone(pad.x, cfg.thrDeadzone);
      var stickIdle := Abs(fwd) < 0.001 && Abs(turn) < 0.001;
      var target := (0.0, 0.0);
      if !stickIdle {
        target := Mix(cfg.mixType, fwd, turn, cfg.turnGain, cfg.expoFwd, cfg.expoTurn);
        lastActUs := now;
      }
      lastL := Ramp(target.0, lastL, Rate(cfg, cfg.accelPctS), Rate(cfg, cfg.decelPctS), CTRL_DT_S);
      lastR := Ramp(target.1, lastR, Rate(cfg, cfg.accelPctS), Rate(cfg, cfg.decelPctS), CTRL_DT_S);
      var rolling := Abs(lastL) > 0.0001 || Abs(lastR) > 0.0001;
      mode := if !stickIdle then Driving else if rolling then Coast else Dynamic;
    }

    /** The tick up to the motor commands; the automatic disarm is still to come. */
    method Command(now: int, stop: Stop)
      returns (fwd: real, turn: real, outL: real, outR: real, mode: BrakeMode)
      requires Usable(cfg) && stop == StopOf(pad, now)
      modifies this`armed, this`holdStartUs, this`lastActUs, this`startLatch, this`lastL, this`lastR
      ensures armed == AfterStart(cfg, old(State()), pad, now).armed
      ensures State() == Next(cfg, old(State()), pad, now).(armed := armed)
      ensures Next(cfg, old(State()), pad, now).armed == (armed && now - lastActUs <= cfg.disarmS * 1000000)
      ensures fwd == if armed && pad.drive then Deadzone(pad.y, cfg.thrDeadzone) else 0.0
      ensures turn == if armed && pad.drive then Deadzone(pad.x, cfg.thrDeadzone) else 0.0
      ensures outL == WheelL(cfg, old(State()), pad, now) && outR == WheelR(cfg, old(State()), pad, now)
      ensures mode == ModeOf(cfg, old(State()), pad, now)
    {
      hide RampL;
      hide RampR;
      hide Idle;
      hide Deadzone;
      hide AfterStart;
      ghost var s := State();
      PressStart(now, stop != NoStop);
      fwd, turn, outL, outR, mode := 0.0, 0.0, 0.0, 0.0, Dynamic;
      if armed && pad.drive {
        fwd, turn, mode := Drive(now, s);
        outL, outR := lastL, lastR;
      }
      if mode == Dynamic {
        lastL, lastR := 0.0, 0.0;
      }
    }

    /** The first cause that applies, with nothing remembered from earlier ticks. */
    method StopCause(now: int) returns (stop: Stop)
      ensures stop == StopOf(pad, now)
    {
      var padStale := pad.connected && now - pad.lastReportUs > PAD_HB_TIMEOUT_US;
      stop := NoStop;
      if !pad.connected {
        stop := PadLost;
      } else if padStale {
        stop := PadStale;
      } else if pad.estop {
        stop := EStop;
      } else if !pad.calibrated {
        stop := NotCalibrated;
      }
    }

    method Step(now: int) returns (out: Outputs)
      requires Usable(cfg)
      modifies this`tel, this`armed, this`holdStartUs, this`lastActUs, this`startLatch, this`lastL, this`lastR
      ensures State() == Next(cfg, old(State()), pad, now)
      ensures out == OutputsOf(cfg, old(State()), pad, now)
      ensures tel == TelemetryOf(cfg, old(State()), pad, now)
    {
      hide Next;
      hide WheelL;
      hide WheelR;
      hide ModeOf;
      hide Deadzone;
      hide AfterStart;
      hide Cap;
      hide Active;
      hide Signed;
      var stop := StopCause(now);
      var fwd, turn, outL, outR, mode := Command(now, stop);
      var state := if armed then Run else Lockout;
      var wheelL, wheelR := Signed(cfg.invL, outL), Signed(cfg.invR, outR);
      var swap := cfg.swapLr != 0;
      out := Outputs(mode == Dynamic, if swap then wheelR else wheelL, if swap then wheelL else wheelR, Cap(cfg));
      if armed && now - lastActUs > cfg.disarmS * 1000000 {
        armed := false;
      }
      tel := Telemetry(state, stop, fwd, turn, outL, outR, mode, armed, pad.start);
    }
  }

  function Initial(): Loop
  {
    Loop(false, 0, 0, false, 0.0, 0.0)
  }

  // ───────────── The host ─────────────

  /** What evlog::push is called with. */
  datatype Event = Arm | Disarm(cause: Stop)

  function Edge(wasArmed: bool, tel: Telemetry): seq<Event>
  {
    if tel.armed && !wasArmed then [Arm]
    else if !tel.armed && wasArmed then [Disarm(tel.stop)]
    else []
  }

  class EspController {
    const ctrl: KartController
    var evArmed: bool
    var pushed: seq<Event>

    constructor (c: KartController)
      ensures ctrl == c && !evArmed && pushed == []
    {
      ctrl := c;
      evArmed := false;
      pushed := [];
    }

    method TickOnce(pad: Pad, cfg: Config, now: int)
      requires Usable(cfg)
      modifies this`evArmed, this`pushed, ctrl
      ensures ctrl.State() == Next(cfg, old(ctrl.State()), pad, now)
      ensures pushed == old(pushed) + Edge(old(evArmed), TelemetryOf(cfg, old(ctrl.State()), pad, now))
      ensures evArmed == ctrl.State().armed
    {
      ctrl.pad := pad;
      ctrl.cfg := cfg;
      var out := ctrl.Step(now);
      var t := ctrl.tel;
      if t.armed && !evArmed {
        pushed := pushed + [Arm];
      }
      if !t.armed && evArmed {
        pushed := pushed + [Disarm(t.stop)];
      }
      evArmed := t.armed;
    }
  }
}
