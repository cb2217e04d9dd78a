/** The event log as it runs: the driver and the ring of `EvLog` taken through any list of operations, and
    shown to be at every moment the device of `JournalRuns`. */
module JournalTask {
  import opened Prelude
  import opened Bits
  import opened Journal
  import opened JournalRuns
  import EvLog
  import Ring

  /** The objects are in the state of the device `d`. With the power off there is no ring to speak of. */
  ghost predicate Shows(ring: EvLog.EventRing, on: bool, d: Device)
    reads ring, ring.log, ring.log.part, ring.ring
  {
    ring.Valid() && ring.log.View() == d.st && on == d.st.powered && (on ==> ring.Waiting() == d.queue)
  }

  /** A power-up finds the flash as it was and the RAM empty. */
  method StartUp(part: array<u32>, op: Op, ghost d: Device) returns (ring: EvLog.EventRing, on: bool)
    requires part.Length % 4 == 0 && part.Length >= 64 && part[..] == d.st.flash && op.PowerUp?
    requires Fits(d.st, part.Length / 4)
    modifies part
    ensures fresh(ring) && fresh(ring.log) && fresh(ring.ring) && ring.log.part == part
    ensures Shows(ring, on, Exec(d, op, part.Length / 4))
  {
    hide Append;
    hide Scan;
    hide LastBoot;
    hide MakeRec;
    var log := new EventLog(part);
    ring := new EvLog.EventRing(log);
    ghost var before := log.View();
    log.Init(op.tMs, op.reason, op.fate, op.bad);
    on := !op.fate.Cut?;
    BootPower(before, d.st, op.tMs, op.reason, op.fate, op.bad, part.Length / 4);
  }

  lemma BootPower(st: State, st': State, tMs: u32, reason: u32, fate: Fate, bad: Option<nat>, n: nat)
    requires Fits(st, n) && Fits(st', n) && st.flash == st'.flash && n >= 16
    ensures Boot(st, tMs, reason, fate, bad, n) == Boot(st', tMs, reason, fate, bad, n)
    ensures Boot(st, tMs, reason, fate, bad, n).powered <==> !fate.Cut?
  {
    hide MakeRec;
    hide Scan;
    hide LastBoot;
    hide Program;
  }

  lemma ClearPower(st: State, tMs: u32, reason: u32, fate: Fate, n: nat)
    requires Fits(st, n) && n >= 1 && st.powered
    ensures Clear(st, tMs, reason, fate, n).powered <==> !fate.Cut?
  {
    hide MakeRec;
    hide Program;
  }

  /** One operation. */
  method Perform(ring: EvLog.EventRing, on: bool, op: Op, ghost d: Device)
    returns (ring': EvLog.EventRing, on': bool)
    requires Shows(ring, on, d)
    modifies ring, ring.log, ring.log.part, ring.ring
    ensures ring' == ring || (fresh(ring') && fresh(ring'.log) && fresh(ring'.ring))
    ensures ring'.log.part == ring.log.part
    ensures Shows(ring', on', Exec(d, op, ring.log.part.Length / 4))
  {
    hide Append;
    hide Boot;
    hide Clear;
    ring', on' := ring, on;
    ghost var n := ring.log.part.Length / 4;
    match op
    case PowerUp(t, r, fate, bad) =>
      ring', on' := StartUp(ring.log.part, op, d);
    case Push(ev) =>
      if on {
        var accepted := ring.PushEvent(ev);
      }
    case DrainBatch(fate) =>
      if on {
        var count := ring.DrainBatch(fate);
        on' := count == 0 || !fate.Cut?;
      }
    case Wipe(armed, t, r, fate) =>
      if on {
        ClearPower(ring.log.View(), t, r, fate, n);
        var ok := ring.log.ClearAll(armed, t, r, fate);
        on' := !ok || !fate.Cut?;
      }
    case PowerOff =>
      ring.log.powered := false;
      on' := false;
  }

  /** From a fresh partition: after any operations the objects show the device of that life. */
  method Live(part: array<u32>, ops: seq<Op>) returns (ring: EvLog.EventRing, on: bool)
    requires part.Length % 4 == 0 && part.Length >= 64 && part[..] == Erased(part.Length)
    modifies part
    ensures ring.log.part == part && Shows(ring, on, Life(ops, |ops|, part.Length / 4))
  {
    hide Exec;
    var log := new EventLog(part);
    ring := new EvLog.EventRing(log);
    on := false;
    for k := 0 to |ops|
      invariant fresh(ring) && fresh(ring.log) && fresh(ring.ring) && ring.log.part == part
      invariant Shows(ring, on, Life(ops, k, part.Length / 4))
    {
      ring, on := Perform(ring, on, ops[k], Life(ops, k, part.Length / 4));
    }
  }
}
