/** evlog.cpp over whole lives of the kart: power-ups, pushes, drained batches, clears and power
    failures in any order, and what the journal can say of the pushes afterwards. */
module JournalRuns {
  import opened Prelude
  import opened Bits
  import opened Journal
  import Ring

  /** A power-up (`bad`: the slot the scan cannot read, if any), a push, one batch of the drain, a
      clear, or the power going off between writes. */
  datatype Op = PowerUp(tMs: u32, reason: u32, fate: Fate, bad: Option<nat>)
    | Push(ev: Pending)
    | DrainBatch(fate: Fate)
    | Wipe(armed: bool, tMs: u32, reason: u32, fate: Fate)
    | PowerOff

  // ───────────── The device ─────────────

  /** Flash and RAM: the journal's state, and the records waiting in the ring. */
  datatype Device = Device(st: State, queue: seq<Pending>)

  function BatchSize(n: nat): nat
  {
    if n <= Ring.BATCH then n else Ring.BATCH
  }

  /** The ring is RAM: a power-up finds it empty. A batch is released whatever the flash made of it. */
  function Exec(d: Device, op: Op, n: nat): (after: Device)
    requires Fits(d.st, n) && n >= 16
    ensures Fits(after.st, n)
  {
    match op
    case PowerUp(t, r, fate, bad) => Device(Boot(d.st, t, r, fate, bad, n), [])
    case Push(ev) => if d.st.powered && |d.queue| < Ring.RING_N then d.(queue := d.queue + [ev]) else d
    case DrainBatch(fate) =>
      if d.st.powered && d.queue != [] then
        var b := BatchSize(|d.queue|);
        Device(Append(d.st, MakeRecs(d.queue[..b], d.st.boot), fate, n), d.queue[b..])
      else d
    case Wipe(armed, t, r, fate) => if d.st.powered && !armed then d.(st := Clear(d.st, t, r, fate, n)) else d
    case PowerOff => d.(st := d.st.(powered := false))
  }

  /** A fresh partition, after the first `k` operations. */
  function Life(ops: seq<Op>, k: nat, n: nat): (d: Device)
    requires k <= |ops| && n >= 16
    ensures Fits(d.st, n)
  {
    if k == 0 then Device(State(Erased(4 * n), 0, 0, false), []) else Exec(Life(ops, k - 1, n), ops[k - 1], n)
  }

  // ───────────── What happened ─────────────

  /** An accepted push, and the boot it was made in. */
  datatype Pushed = Pushed(ev: Pending, boot: u16)

  /** Where a journal entry comes from: a boot record with its uptime, reset reason and boot number, or the push at
      that place in the history. */
  datatype Origin = FromBoot(tMs: u32, reason: u32, boot: u16) | FromPush(pos: nat)

  /** The log with the origin of each entry, all pushes ever accepted, and the first of them that
      still waits in the ring. */
  datatype History = History(log: Log, from: seq<Origin>, pushes: seq<Pushed>, waiting: nat)

  function Origins(first: nat, b: nat): (os: seq<Origin>)
    ensures |os| == b && forall i :: 0 <= i < b ==> os[i] == FromPush(first + i)
  {
    seq(b, i requires 0 <= i < b => FromPush(first + i))
  }

  function Events(ps: seq<Pushed>): (es: seq<Pending>)
    ensures |es| == |ps| && forall i :: 0 <= i < |ps| ==> es[i] == ps[i].ev
  {
    seq(|ps|, i requires 0 <= i < |ps| => ps[i].ev)
  }

  /** The entries an append leaves standing. */
  function Kept(log: Log, count: nat, fate: Fate, n: nat): nat
  {
    if count == 0 || |log.entries| + count <= n || fate == EraseFails then |log.entries| else 0
  }

  /** The origins after appending records of origins `added`: those of what stood, then those of what
      reached the flash. */
  function Tag(from: seq<Origin>, log: Log, after: Log, added: seq<Origin>, fate: Fate, n: nat): seq<Origin>
  {
    var kept := Kept(log, |added|, fate, n);
    (if kept <= |from| then from[..kept] else from) +
    if kept <= |after.entries| <= kept + |added| then added[..|after.entries| - kept] else []
  }

  function Record(h: History, op: Op, n: nat): History
  {
    match op
    case PowerUp(t, r, fate, bad) =>
      var log := LogBoot(h.log, t, r, fate, n);
      History(log, Tag(h.from, h.log, log, [FromBoot(t, r, log.boot)], fate, n), h.pushes, |h.pushes|)
    case Push(ev) =>
      if h.log.powered && |h.pushes| - h.waiting < Ring.RING_N
      then h.(pushes := h.pushes + [Pushed(ev, h.log.boot)])
      else h
    case DrainBatch(fate) =>
      if h.log.powered && h.waiting < |h.pushes| then
        var b := BatchSize(|h.pushes| - h.waiting);
        var recs := MakeRecs(Events(h.pushes[h.waiting..h.waiting + b]), h.log.boot);
        var log := LogAppend(h.log, recs, fate, n);
        History(log, Tag(h.from, h.log, log, Origins(h.waiting, b), fate, n), h.pushes, h.waiting + b)
      else h
    case Wipe(armed, t, r, fate) =>
      if h.log.powered && !armed && fate != EraseFails then
        var log := LogClear(h.log, t, r, fate, n);
        h.(log := log, from := Tag([], Log([], h.log.boot, true), log, [FromBoot(t, r, h.log.boot)], fate, n))
      else h
    case PowerOff => h.(log := h.log.(powered := false))
  }

  // ───────────── The history fits the log ─────────────

  function CodeOf(r: Rec): u8
  {
    r.head / 0x1_0000 % 256
  }

  /** A boot, as the event it is logged as. */
  function BootEvent(tMs: u32, reason: u32, boot: u16): Pushed
  {
    Pushed(Pending(1, tMs, reason), boot)
  }

  /** The record a push is to become. */
  function RecordOf(p: Pushed): Rec
  {
    MakeRec(p.ev, p.boot)
  }

  predicate TagOk(e: Entry, o: Origin, pushes: seq<Pushed>, limit: nat)
  {
    match o
    case FromBoot(t, r, boot) => e.rec == RecordOf(BootEvent(t, r, boot))
    case FromPush(pos) => pos < limit && pos < |pushes| && e.rec == RecordOf(pushes[pos])
  }

  predicate Ascending(from: seq<Origin>)
  {
    forall i, j :: 0 <= i < j < |from| && from[i].FromPush? && from[j].FromPush? ==> from[i].pos < from[j].pos
  }

  /** Every entry has its origin, pushes in the order they were made and below `limit`. */
  predicate Tagged(es: seq<Entry>, from: seq<Origin>, pushes: seq<Pushed>, limit: nat)
  {
    |from| == |es| && Ascending(from) && forall i :: 0 <= i < |es| ==> TagOk(es[i], from[i], pushes, limit)
  }

  predicate Consistent(h: History)
  {
    h.waiting <= |h.pushes| && Tagged(h.log.entries, h.from, h.pushes, h.waiting) &&
    (h.log.powered ==> forall i :: h.waiting <= i < |h.pushes| ==> h.pushes[i].boot == h.log.boot)
  }

  /** Device and history: same journal, and the queue is what waits. */
  predicate Matches(d: Device, h: History, n: nat)
  {
    Refines(d.st, h.log, n) && Consistent(h) && d.queue == Events(h.pushes[h.waiting..])
  }

  lemma TaggedPrefix(es: seq<Entry>, from: seq<Origin>, pushes: seq<Pushed>, limit: nat, k: nat)
    requires Tagged(es, from, pushes, limit) && k <= |es|
    ensures Tagged(es[..k], from[..k], pushes, limit)
  {
    hide TagOk;
  }

  /** More entries, from pushes at or above the old limit. */
  lemma TaggedMore(es: seq<Entry>, from: seq<Origin>, pushes: seq<Pushed>, limit: nat,
                   es': seq<Entry>, from': seq<Origin>, limit': nat)
    requires Tagged(es, from, pushes, limit) && Tagged(es', from', pushes, limit') && limit <= limit'
    requires forall i :: 0 <= i < |from'| && from'[i].FromPush? ==> from'[i].pos >= limit
    ensures Tagged(es + es', from + from', pushes, limit')
  {
    forall i | 0 <= i < |es + es'|
      ensures TagOk((es + es')[i], (from + from')[i], pushes, limit')
    {
      if i < |es| {
        assert TagOk(es[i], from[i], pushes, limit);
      } else {
        assert TagOk(es'[i - |es|], from'[i - |es|], pushes, limit');
      }
    }
    forall i, j | 0 <= i < j < |from + from'| && (from + from')[i].FromPush? && (from + from')[j].FromPush?
      ensures (from + from')[i].pos < (from + from')[j].pos
    {
      if i < |from| {
        assert TagOk(es[i], from[i], pushes, limit);
      } else {
        assert from'[i - |from|].FromPush? && from'[j - |from|].FromPush?;
      }
    }
  }

  /** A push does not disturb the origins. */
  lemma TaggedPush(es: seq<Entry>, from: seq<Origin>, pushes: seq<Pushed>, limit: nat, p: Pushed)
    requires Tagged(es, from, pushes, limit)
    ensures Tagged(es, from, pushes + [p], limit)
  {
    forall i | 0 <= i < |es|
      ensures TagOk(es[i], from[i], pushes + [p], limit)
    {
      assert TagOk(es[i], from[i], pushes, limit);
    }
  }

  /** Every record of a batch with its origin. */
  predicate RecsTagged(recs: seq<Rec>, added: seq<Origin>, pushes: seq<Pushed>, limit: nat)
  {
    |recs| == |added| && Ascending(added) &&
    forall i :: 0 <= i < |recs| ==> TagOk(Entry(recs[i], 4), added[i], pushes, limit)
  }

  lemma ProgrammedTagged(recs: seq<Rec>, added: seq<Origin>, pushes: seq<Pushed>, limit: nat, k: nat)
    requires k <= 4 * |recs| && RecsTagged(recs, added, pushes, limit)
    ensures Tagged(Programmed(recs, k), added[..|Programmed(recs, k)|], pushes, limit)
  {
    var es := Programmed(recs, k);
    forall i | 0 <= i < |es|
      ensures TagOk(es[i], added[i], pushes, limit)
    {
      assert TagOk(Entry(recs[i], 4), added[i], pushes, limit);
    }
  }

  /** What an append leaves: some of what stood, then what was programmed. */
  lemma AppendShape(log: Log, recs: seq<Rec>, fate: Fate, n: nat) returns (k: nat)
    ensures k <= 4 * |recs|
    ensures LogAppend(log, recs, fate, n).entries == log.entries[..Kept(log, |recs|, fate, n)] + Programmed(recs, k)
  {
    if recs == [] || (|log.entries| + |recs| > n && fate == EraseFails) || fate == WriteFails {
      k := 0;
      assert Programmed(recs, 0) == [];
    } else if fate.Cut? {
      k := if fate.words < 4 * |recs| then fate.words else 4 * |recs|;
    } else {
      k := 4 * |recs|;
    }
    if Kept(log, |recs|, fate, n) == |log.entries| {
      assert log.entries[..|log.entries|] == log.entries;
    }
  }

  lemma AppendTagged(log: Log, from: seq<Origin>, recs: seq<Rec>, added: seq<Origin>,
                     pushes: seq<Pushed>, limit: nat, limit': nat, fate: Fate, n: nat)
    requires Tagged(log.entries, from, pushes, limit) && RecsTagged(recs, added, pushes, limit') && limit <= limit'
    requires forall i :: 0 <= i < |added| && added[i].FromPush? ==> added[i].pos >= limit
    ensures var after := LogAppend(log, recs, fate, n);
      Tagged(after.entries, Tag(from, log, after, added, fate, n), pushes, limit')
  {
    hide LogAppend;
    hide Programmed;
    var k := AppendShape(log, recs, fate, n);
    var kept := Kept(log, |recs|, fate, n);
    TaggedPrefix(log.entries, from, pushes, limit, kept);
    ProgrammedTagged(recs, added, pushes, limit', k);
    var es := Programmed(recs, k);
    TaggedMore(log.entries[..kept], from[..kept], pushes, limit, es, added[..|es|], limit');
  }

  // ───────────── Every operation keeps device and history together ─────────────

  lemma BootRecTagged(tMs: u32, reason: u32, boot: u16, pushes: seq<Pushed>, limit: nat)
    ensures RecsTagged([MakeRec(Pending(BOOT_CODE, tMs, reason), boot)], [FromBoot(tMs, reason, boot)], pushes, limit)
    ensures AllMade([MakeRec(Pending(BOOT_CODE, tMs, reason), boot)])
  {
    hide MakeRec;
    hide RecValid;
    MadeValid(Pending(BOOT_CODE, tMs, reason), boot);
  }

  lemma BootMatches(d: Device, h: History, t: u32, r: u32, fate: Fate, bad: Option<nat>, n: nat)
    requires Fits(d.st, n) && n >= 16 && Matches(d, h, n) && Reaches(bad, |h.log.entries|)
    ensures Matches(Exec(d, PowerUp(t, r, fate, bad), n), Record(h, PowerUp(t, r, fate, bad), n), n)
  {
    hide Refines;
    hide Boot;
    hide LogAppend;
    hide Tagged;
    hide MakeRec;
    hide RecsTagged;
    hide NextBoot;
    BootRefines(d.st, h.log, t, r, fate, bad, n);
    var boot := NextBoot(HighestBoot(h.log.entries, |h.log.entries|));
    var rec := MakeRec(Pending(BOOT_CODE, t, r), boot);
    BootRecTagged(t, r, boot, h.pushes, |h.pushes|);
    AppendKeepsBoot(Log(h.log.entries, boot, true), [rec], fate, n);
    AppendTagged(Log(h.log.entries, boot, true), h.from, [rec], [FromBoot(t, r, boot)],
                 h.pushes, h.waiting, |h.pushes|, fate, n);
  }

  lemma PushMatches(d: Device, h: History, ev: Pending, n: nat)
    requires Fits(d.st, n) && n >= 16 && Matches(d, h, n)
    ensures Matches(Exec(d, Push(ev), n), Record(h, Push(ev), n), n)
  {
    hide Tagged;
    var p := Pushed(ev, h.log.boot);
    TaggedPush(h.log.entries, h.from, h.pushes, h.waiting, p);
    assert (h.pushes + [p])[h.waiting..] == h.pushes[h.waiting..] + [p];
  }

  /** The records of a batch are those of the pushes it drains: the ring holds nothing of an earlier
      boot. */
  lemma BatchTagged(h: History, b: nat)
    requires Consistent(h) && h.log.powered && h.waiting + b <= |h.pushes|
    ensures RecsTagged(MakeRecs(Events(h.pushes[h.waiting..h.waiting + b]), h.log.boot), Origins(h.waiting, b),
                       h.pushes, h.waiting + b)
  {
    hide MakeRec;
    hide Tagged;
  }

  lemma QueueSplit(pushes: seq<Pushed>, waiting: nat, b: nat)
    requires waiting + b <= |pushes|
    ensures Events(pushes[waiting..])[..b] == Events(pushes[waiting..waiting + b])
    ensures Events(pushes[waiting..])[b..] == Events(pushes[waiting + b..])
  {
  }

  lemma DrainConsistent(h: History, b: nat, recs: seq<Rec>, fate: Fate, n: nat)
    requires Consistent(h) && h.log.powered && h.waiting + b <= |h.pushes|
    requires recs == MakeRecs(Events(h.pushes[h.waiting..h.waiting + b]), h.log.boot)
    ensures var log := LogAppend(h.log, recs, fate, n);
      Consistent(History(log, Tag(h.from, h.log, log, Origins(h.waiting, b), fate, n), h.pushes, h.waiting + b))
  {
    hide Tagged;
    hide RecsTagged;
    hide LogAppend;
    hide MakeRecs;
    hide Tag;
    BatchTagged(h, b);
    AppendTagged(h.log, h.from, recs, Origins(h.waiting, b), h.pushes, h.waiting, h.waiting + b, fate, n);
    AppendKeepsBoot(h.log, recs, fate, n);
  }

  lemma DrainMatches(d: Device, h: History, fate: Fate, n: nat)
    requires Fits(d.st, n) && n >= 16 && Matches(d, h, n) && d.st.powered && d.queue != []
    ensures Matches(Exec(d, DrainBatch(fate), n), Record(h, DrainBatch(fate), n), n)
  {
    hide Refines;
    hide Consistent;
    hide Append;
    hide LogAppend;
    hide MakeRecs;
    hide Tag;
    hide AllMade;
    Together(d, h, n);
    var b := BatchSize(|d.queue|);
    QueueSplit(h.pushes, h.waiting, b);
    var recs := MakeRecs(d.queue[..b], d.st.boot);
    BatchValid(d.queue[..b], d.st.boot);
    AppendRefines(d.st, h.log, recs, fate, n);
    DrainConsistent(h, b, recs, fate, n);
  }

  lemma Together(d: Device, h: History, n: nat)
    requires Matches(d, h, n)
    ensures d.st.powered == h.log.powered && (d.st.powered ==> d.st.boot == h.log.boot)
    ensures h.waiting <= |h.pushes| && |d.queue| == |h.pushes| - h.waiting
  {
  }

  lemma WipeMatches(d: Device, h: History, t: u32, r: u32, fate: Fate, n: nat)
    requires Fits(d.st, n) && n >= 16 && Matches(d, h, n) && d.st.powered && fate != EraseFails
    ensures Matches(Exec(d, Wipe(false, t, r, fate), n), Record(h, Wipe(false, t, r, fate), n), n)
  {
    hide Refines;
    hide Clear;
    hide LogAppend;
    hide MakeRec;
    hide RecsTagged;
    Together(d, h, n);
    ClearRefines(d.st, h.log, t, r, fate, n);
    BootRecTagged(t, r, h.log.boot, h.pushes, h.waiting);
    AppendTagged(Log([], h.log.boot, true), [], [MakeRec(Pending(BOOT_CODE, t, r), h.log.boot)],
                 [FromBoot(t, r, h.log.boot)], h.pushes, h.waiting, h.waiting, fate, n);
    AppendKeepsBoot(Log([], h.log.boot, true), [MakeRec(Pending(BOOT_CODE, t, r), h.log.boot)], fate, n);
  }

  lemma AppendKeepsBoot(log: Log, recs: seq<Rec>, fate: Fate, n: nat)
    ensures LogAppend(log, recs, fate, n).boot == log.boot
  {
  }

  lemma ExecMatches(d: Device, h: History, op: Op, n: nat)
    requires Fits(d.st, n) && n >= 16 && Matches(d, h, n)
    requires op.PowerUp? ==> Reaches(op.bad, |h.log.entries|)
    ensures Matches(Exec(d, op, n), Record(h, op, n), n)
  {
    hide Tagged;
    hide Append;
    hide LogAppend;
    hide Boot;
    hide LogBoot;
    hide LogClear;
    match op
    case PowerUp(t, r, fate, bad) => BootMatches(d, h, t, r, fate, bad, n);
    case Push(ev) => PushMatches(d, h, ev, n);
    case DrainBatch(fate) =>
      if d.st.powered && d.queue != [] {
        DrainMatches(d, h, fate, n);
      }
    case Wipe(armed, t, r, fate) =>
      if d.st.powered && !armed && fate != EraseFails {
        WipeMatches(d, h, t, r, fate, n);
      }
    case PowerOff =>
  }

  // ───────────── Whole lives ─────────────

  function Story(ops: seq<Op>, k: nat, n: nat): History
    requires k <= |ops|
  {
    if k == 0 then History(Log([], 0, false), [], [], 0) else Record(Story(ops, k - 1, n), ops[k - 1], n)
  }

  /** No scan was cut short by a slot it could not read; `BootSurvives` says why that is needed. */
  ghost predicate ScansReach(ops: seq<Op>, k: nat, n: nat)
    requires k <= |ops|
  {
    forall i :: 0 <= i < k && ops[i].PowerUp? ==> Reaches(ops[i].bad, |Story(ops, i, n).log.entries|)
  }

  lemma {:induction false} LifeMatches(ops: seq<Op>, k: nat, n: nat)
    requires k <= |ops| && n >= 16 && ScansReach(ops, k, n)
    ensures Matches(Life(ops, k, n), Story(ops, k, n), n)
    decreases k
  {
    hide Exec;
    hide Record;
    if k > 0 {
      LifeMatches(ops, k - 1, n);
      ExecMatches(Life(ops, k - 1, n), Story(ops, k - 1, n), ops[k - 1], n);
    } else {
      ErasedImage(n);
    }
  }

  /** The pushes the device has taken in, with the boot number it had at the time. */
  function Accepted(ops: seq<Op>, k: nat, n: nat): seq<Pushed>
    requires k <= |ops| && n >= 16
  {
    if k == 0 then []
    else
      var d, op := Life(ops, k - 1, n), ops[k - 1];
      Accepted(ops, k - 1, n) +
      if op.Push? && d.st.powered && |d.queue| < Ring.RING_N then [Pushed(op.ev, d.st.boot)] else []
  }

  /** The history's pushes are those, and no others. */
  lemma {:induction false} PushHistory(ops: seq<Op>, k: nat, n: nat)
    requires k <= |ops| && n >= 16 && ScansReach(ops, k, n)
    ensures Story(ops, k, n).pushes == Accepted(ops, k, n)
    decreases k
  {
    hide Exec;
    hide LogBoot;
    hide LogAppend;
    hide LogClear;
    hide Tag;
    hide Refines;
    hide MakeRecs;
    hide Consistent;
    if k > 0 {
      PushHistory(ops, k - 1, n);
      LifeMatches(ops, k - 1, n);
      Together(Life(ops, k - 1, n), Story(ops, k - 1, n), n);
    }
  }

  /** Whatever happens, power failing in the middle of writes included: the flash is the image of
      the log, used slots first and then blank ones, and while powered the append point is its end. */
  lemma {:induction false} CrashSafe(ops: seq<Op>, k: nat, n: nat)
    requires k <= |ops| && n >= 16 && ScansReach(ops, k, n)
    ensures Refines(Life(ops, k, n).st, Story(ops, k, n).log, n)
  {
    hide Refines;
    LifeMatches(ops, k, n);
  }

  /** At any moment a boot scan would stop at the end of the log. */
  lemma {:induction false} ScanAnyTime(ops: seq<Op>, k: nat, n: nat)
    requires k <= |ops| && n >= 16 && ScansReach(ops, k, n)
    ensures Scan(Life(ops, k, n).st.flash, n, None, 0) == |Story(ops, k, n).log.entries|
  {
    CrashSafe(ops, k, n);
    ScanFinds(Story(ops, k, n).log.entries, n, None, 0);
  }

  /** Every power-up, at any point of any life, takes a number above all valid ones on flash. */
  lemma BootsIncrease(ops: seq<Op>, k: nat, n: nat, i: nat)
    requires k < |ops| && n >= 16 && ScansReach(ops, k + 1, n) && ops[k].PowerUp?
    requires i < |Story(ops, k, n).log.entries|
    ensures i < n
    ensures var flash := Life(ops, k, n).st.flash;
      (RecValid(RecAt(flash, i)) && LastBoot(flash, Scan(flash, n, ops[k].bad, 0)) != 0xFFFF ==>
       Exceeds(Life(ops, k + 1, n).st.boot, BootOf(RecAt(flash, i))))
  {
    hide RecValid;
    hide BootOf;
    hide NextBoot;
    hide MaxBoot;
    hide Exceeds;
    hide MakeRec;
    hide Image;
    CrashSafe(ops, k, n);
    var st := Life(ops, k, n).st;
    if RecValid(RecAt(st.flash, i)) && LastBoot(st.flash, Scan(st.flash, n, ops[k].bad, 0)) != 0xFFFF {
      BootIsNew(st, Story(ops, k, n).log, ops[k].bad, n, i);
    }
  }

  /** A power-up takes the number after the highest one in a valid record, after 0 if there is none; after 65535 comes
      0. */
  lemma BootNumber(ops: seq<Op>, k: nat, n: nat) returns (last: u16, at: nat)
    requires k < |ops| && n >= 16 && ScansReach(ops, k + 1, n) && ops[k].PowerUp?
    ensures Life(ops, k + 1, n).st.boot == (last + 1) % 0x1_0000
    ensures var flash, used := Life(ops, k, n).st.flash, |Story(ops, k, n).log.entries|;
      used <= n &&
      (forall i :: 0 <= i < used && RecValid(RecAt(flash, i)) ==> RecAt(flash, i).head % 0x1_0000 <= last) &&
      (last == 0 || (at < used && RecValid(RecAt(flash, at)) && RecAt(flash, at).head % 0x1_0000 == last))
  {
    hide Exec;
    hide RecValid;
    hide MaxBoot;
    hide Image;
    hide SlotRec;
    hide Story;
    LifeMatches(ops, k, n);
    var d, h := Life(ops, k, n), Story(ops, k, n);
    var es := h.log.entries;
    BootTaken(d, h, ops[k], n);
    last, at := HighestBoot(es, |es|), 0;
    forall i | 0 <= i < |es| && RecValid(RecAt(d.st.flash, i))
      ensures RecAt(d.st.flash, i).head % 0x1_0000 <= last
    {
      ImageSlot(es, n, i);
      HighestIsHighest(es, |es|, i);
    }
    if last != 0 {
      at := HighestIsTaken(es, |es|);
      ImageSlot(es, n, at);
    }
  }

  // ───────────── What is read back ─────────────

  /** `r` shows the event, word for word; or what a power failure after its second word made of its data, in the one
      case where that passes for a record. */
  predicate Tells(r: Rec, p: Pushed)
  {
    r.head == 0xEB00_0000 + p.ev.code * 0x1_0000 + p.boot && r.tMs == p.ev.tMs &&
    (r.data == p.ev.data ||
     (r.data == 0xFFFF_FFFF && r.chk == 0xFFFF_FFFF && Xor32(r.head, r.tMs) == 0xA5A5_A5A5))
  }

  /** What an entry came from, as the event it logs. */
  function EventOf(o: Origin, pushes: seq<Pushed>): Pushed
    requires o.FromPush? ==> o.pos < |pushes|
  {
    match o
    case FromBoot(t, r, boot) => BootEvent(t, r, boot)
    case FromPush(pos) => pushes[pos]
  }

  /** A valid slot shows the event of its entry. */
  lemma SlotTells(e: Entry, o: Origin, pushes: seq<Pushed>, limit: nat)
    requires Proper(e) && TagOk(e, o, pushes, limit) && RecValid(SlotRec(e))
    ensures o.FromPush? ==> o.pos < |pushes|
    ensures Tells(SlotRec(e), EventOf(o, pushes))
  {
    hide RecValid;
    hide MakeRec;
    hide Xor32;
    TornAccepted(e);
    MadeCarries(EventOf(o, pushes).ev, EventOf(o, pushes).boot);
  }

  /** Every record of `out` is of an entry, and shows what that entry came from. */
  ghost predicate TellsAll(out: seq<Rec>, at: seq<nat>, h: History)
  {
    |at| == |out| && forall m :: 0 <= m < |out| ==> TellsOne(out[m], at[m], h)
  }

  ghost predicate TellsOne(r: Rec, e: nat, h: History)
  {
    e < |h.from| && (h.from[e].FromPush? ==> h.from[e].pos < |h.pushes|) &&
    Tells(r, EventOf(h.from[e], h.pushes))
  }

  /** readAt, over any stretch of the journal at any moment of any life: every record is that of a boot or of a push,
      with its event code, boot number, time and data, but for the one corruption of the data that goes unnoticed; the
      pushes come in the order they were made, none twice; and no record that was written whole is left out. */
  lemma {:induction false} ReadAnyTime(ops: seq<Op>, k: nat, n: nat, i: nat, j: nat) returns (at: seq<nat>)
    requires k <= |ops| && n >= 16 && ScansReach(ops, k, n) && i <= j <= |Story(ops, k, n).log.entries|
    ensures j <= n
    ensures var out, h := ReadSlots(Life(ops, k, n).st.flash, i, j), Story(ops, k, n);
      (SlotsOf(out, h.log.entries, at) && TellsAll(out, at, h) &&
       (forall m, m' :: 0 <= m < m' < |out| && h.from[at[m]].FromPush? && h.from[at[m']].FromPush? ==>
          h.from[at[m]].pos < h.from[at[m']].pos) &&
       (forall e :: i <= e < j && h.log.entries[e].words == 4 ==> e in at))
  {
    hide Image;
    hide RecValid;
    hide SlotRec;
    hide Tells;
    LifeMatches(ops, k, n);
    var h := Story(ops, k, n);
    var es := h.log.entries;
    at := Readable(es, i, j);
    var out := ReadSlots(Image(es, n), i, j);
    ReadImage(es, n, i, j);
    ReadableAll(es, i, j);
    forall m | 0 <= m < |out|
      ensures TellsOne(out[m], at[m], h)
    {
      EntryTells(h, at[m]);
    }
    forall e | i <= e < j && es[e].words == 4
      ensures e in at
    {
      TornAccepted(es[e]);
    }
  }

  lemma EntryTells(h: History, e: nat)
    requires Consistent(h) && e < |h.log.entries| && AllProper(h.log.entries) && RecValid(SlotRec(h.log.entries[e]))
    ensures TellsOne(SlotRec(h.log.entries[e]), e, h)
  {
    hide RecValid;
    hide SlotRec;
    hide Tells;
    SlotTells(h.log.entries[e], h.from[e], h.pushes, h.waiting);
  }

  // ───────────── Where boot records come from ─────────────

  /** A power-up or a clear with that uptime and reset reason, under that boot number. */
  ghost predicate BootedAt(ops: seq<Op>, j: nat, n: nat, tMs: u32, reason: u32, boot: u16)
    requires n >= 16
  {
    j < |ops| && (ops[j].PowerUp? || ops[j].Wipe?) && ops[j].tMs == tMs && ops[j].reason == reason &&
    Life(ops, j + 1, n).st.boot == boot
  }

  lemma TagSource(from: seq<Origin>, log: Log, after: Log, added: seq<Origin>, fate: Fate, n: nat)
    ensures forall o :: o in Tag(from, log, after, added, fate, n) ==> o in from || o in added
  {
  }

  lemma RecordSource(h: History, op: Op, n: nat, o: Origin)
    requires o in Record(h, op, n).from && o.FromBoot? && o !in h.from
    ensures op.PowerUp? || (op.Wipe? && h.log.powered && !op.armed && op.fate != EraseFails)
    ensures o == FromBoot(op.tMs, op.reason,
                          if op.PowerUp? then NextBoot(HighestBoot(h.log.entries, |h.log.entries|)) else h.log.boot)
  {
    hide LogAppend;
    hide MakeRec;
    hide MakeRecs;
    hide Tag;
    hide MaxBoot;
    match op
    case PowerUp(t, r, fate, bad) =>
      var log := LogBoot(h.log, t, r, fate, n);
      var boot := NextBoot(HighestBoot(h.log.entries, |h.log.entries|));
      AppendKeepsBoot(Log(h.log.entries, boot, true), [MakeRec(Pending(BOOT_CODE, t, r), boot)], fate, n);
      TagSource(h.from, h.log, log, [FromBoot(t, r, log.boot)], fate, n);
    case DrainBatch(fate) =>
      if h.log.powered && h.waiting < |h.pushes| {
        var b := BatchSize(|h.pushes| - h.waiting);
        var recs := MakeRecs(Events(h.pushes[h.waiting..h.waiting + b]), h.log.boot);
        TagSource(h.from, h.log, LogAppend(h.log, recs, fate, n), Origins(h.waiting, b), fate, n);
      }
    case Wipe(armed, t, r, fate) =>
      var log := LogClear(h.log, t, r, fate, n);
      TagSource([], Log([], h.log.boot, true), log, [FromBoot(t, r, h.log.boot)], fate, n);
    case _ =>
  }

  /** The number a power-up takes, and the one a clear keeps, however their appends end. */
  lemma BootTaken(d: Device, h: History, op: Op, n: nat)
    requires Fits(d.st, n) && n >= 16 && Matches(d, h, n)
    ensures op.PowerUp? && Reaches(op.bad, |h.log.entries|) ==>
      Exec(d, op, n).st.boot == NextBoot(HighestBoot(h.log.entries, |h.log.entries|))
    ensures op.Wipe? && h.log.powered && !op.armed ==> Exec(d, op, n).st.boot == h.log.boot
  {
    hide Image;
    hide Program;
    hide MakeRec;
    hide MaxBoot;
    hide NextBoot;
    hide Proper;
    Together(d, h, n);
    if op.PowerUp? && Reaches(op.bad, |h.log.entries|) {
      ScanFinds(h.log.entries, n, op.bad, 0);
      LastBootOfImage(h.log.entries, n, |h.log.entries|);
    }
  }

  /** Every boot record of the journal was logged by a power-up or a clear of this life, with the uptime, the reset
      reason and the boot number of that moment. */
  lemma {:induction false} BootOrigins(ops: seq<Op>, k: nat, n: nat, o: Origin) returns (j: nat)
    requires k <= |ops| && n >= 16 && ScansReach(ops, k, n) && o in Story(ops, k, n).from && o.FromBoot?
    ensures j < k && BootedAt(ops, j, n, o.tMs, o.reason, o.boot)
    decreases k
  {
    hide Exec;
    hide Record;
    hide Matches;
    var i := k - 1;
    if o in Story(ops, i, n).from {
      j := BootOrigins(ops, i, n, o);
    } else {
      j := i;
      LifeMatches(ops, i, n);
      RecordSource(Story(ops, i, n), ops[i], n, o);
      BootTaken(Life(ops, i, n), Story(ops, i, n), ops[i], n);
    }
  }

  // ───────────── What was drained stays ─────────────

  /** The operation erases the partition: the journal was full, or is being cleared. */
  predicate Erases(d: Device, op: Op, n: nat)
    requires Fits(d.st, n)
  {
    match op
    case PowerUp(t, r, fate, bad) => Scan(d.st.flash, n, None, 0) == n && fate != EraseFails
    case DrainBatch(fate) =>
      d.st.powered && d.queue != [] && d.st.off + BatchSize(|d.queue|) > n && fate != EraseFails
    case Wipe(armed, t, r, fate) => d.st.powered && !armed && fate != EraseFails
    case _ => false
  }

  /** Every entry of `h`, and its origin, is where it was. */
  predicate Extends(next: History, h: History)
  {
    |h.from| == |h.log.entries| <= |next.log.entries| == |next.from| &&
    next.log.entries[..|h.log.entries|] == h.log.entries && next.from[..|h.from|] == h.from
  }

  lemma ExtendsOnward(a: History, b: History, c: History)
    requires Extends(b, a) && Extends(c, b)
    ensures Extends(c, a)
  {
    var n := |a.from|;
    assert c.from[..n] == c.from[..|b.from|][..n] && c.log.entries[..n] == c.log.entries[..|b.from|][..n];
  }

  /** An append that does not erase. */
  lemma AppendExtends(h: History, log: Log, recs: seq<Rec>, added: seq<Origin>, fate: Fate, n: nat,
                      pushes: seq<Pushed>, waiting: nat)
    requires |h.from| == |h.log.entries| == |log.entries| && h.log.entries == log.entries && |added| == |recs|
    requires |log.entries| + |recs| <= n || fate == EraseFails
    ensures var after := LogAppend(log, recs, fate, n);
      Extends(History(after, Tag(h.from, log, after, added, fate, n), pushes, waiting), h)
  {
    hide LogAppend;
    hide Programmed;
    var k := AppendShape(log, recs, fate, n);
    var es := Programmed(recs, k);
    assert LogAppend(log, recs, fate, n).entries == log.entries + es by {
      assert log.entries[..|log.entries|] == log.entries;
    }
    assert h.from[..|h.from|] == h.from;
  }

  lemma ExtendsItself(next: History, h: History)
    requires next.log.entries == h.log.entries && next.from == h.from && |h.from| == |h.log.entries|
    ensures Extends(next, h)
  {
  }

  lemma RoomForBoot(d: Device, h: History, op: Op, n: nat)
    requires Fits(d.st, n) && n >= 16 && Matches(d, h, n) && op.PowerUp? && !Erases(d, op, n)
    ensures |h.log.entries| + 1 <= n || op.fate == EraseFails
  {
    hide Image;
    hide Proper;
    ScanFinds(h.log.entries, n, None, 0);
  }

  lemma BootExtends(h: History, t: u32, r: u32, fate: Fate, bad: Option<nat>, n: nat)
    requires |h.from| == |h.log.entries| && (|h.log.entries| + 1 <= n || fate == EraseFails)
    ensures Extends(Record(h, PowerUp(t, r, fate, bad), n), h)
  {
    hide LogAppend;
    hide MakeRec;
    hide MaxBoot;
    hide NextBoot;
    hide Extends;
    var boot := NextBoot(HighestBoot(h.log.entries, |h.log.entries|));
    var rec := MakeRec(Pending(BOOT_CODE, t, r), boot);
    AppendKeepsBoot(Log(h.log.entries, boot, true), [rec], fate, n);
    AppendExtends(h, Log(h.log.entries, boot, true), [rec], [FromBoot(t, r, boot)], fate, n, h.pushes, |h.pushes|);
  }

  lemma DrainExtends(d: Device, h: History, fate: Fate, n: nat)
    requires Fits(d.st, n) && n >= 16 && Matches(d, h, n) && !Erases(d, DrainBatch(fate), n)
    requires d.st.powered && d.queue != []
    ensures Extends(Record(h, DrainBatch(fate), n), h)
  {
    hide LogAppend;
    hide MakeRecs;
    hide Tag;
    hide Image;
    hide TagOk;
    hide Extends;
    Together(d, h, n);
    var b := BatchSize(|d.queue|);
    var recs := MakeRecs(Events(h.pushes[h.waiting..h.waiting + b]), h.log.boot);
    AppendExtends(h, h.log, recs, Origins(h.waiting, b), fate, n, h.pushes, h.waiting + b);
  }

  /** Whatever does not erase leaves every entry where it was. */
  lemma ExecExtends(d: Device, h: History, op: Op, n: nat)
    requires Fits(d.st, n) && n >= 16 && Matches(d, h, n) && !Erases(d, op, n)
    ensures Extends(Record(h, op, n), h)
  {
    hide LogBoot;
    hide LogAppend;
    hide LogClear;
    hide Tag;
    hide Image;
    hide TagOk;
    hide Extends;
    Together(d, h, n);
    match op
    case PowerUp(t, r, fate, bad) =>
      SameOrigins(d, h, n);
      RoomForBoot(d, h, op, n);
      BootExtends(h, t, r, fate, bad, n);
    case DrainBatch(fate) =>
      if d.st.powered && d.queue != [] {
        DrainExtends(d, h, fate, n);
      } else {
        ExtendsItself(Record(h, op, n), h);
      }
    case _ => ExtendsItself(Record(h, op, n), h);
  }

  /** Over any stretch of a life in which nothing erases. */
  lemma {:induction false} LifeExtends(ops: seq<Op>, k: nat, k': nat, n: nat)
    requires k <= k' <= |ops| && n >= 16 && ScansReach(ops, k', n)
    requires forall j :: k <= j < k' ==> !Erases(Life(ops, j, n), ops[j], n)
    ensures Extends(Story(ops, k', n), Story(ops, k, n))
    decreases k'
  {
    hide Exec;
    hide Record;
    hide Erases;
    if k < k' {
      var j := k' - 1;
      LifeExtends(ops, k, j, n);
      LifeMatches(ops, j, n);
      ExecExtends(Life(ops, j, n), Story(ops, j, n), ops[j], n);
      ExtendsOnward(Story(ops, k, n), Story(ops, j, n), Story(ops, k', n));
    } else {
      LifeMatches(ops, k, n);
    }
  }

  /** From entry `at` on, `h` has the records of `ps`, written whole, the first of them push `first`. */
  predicate Stores(h: History, at: nat, ps: seq<Pending>, boot: u16, first: nat)
  {
    at + |ps| <= |h.log.entries| == |h.from| &&
    forall i :: 0 <= i < |ps| ==> Holds(h, at + i, ps[i], boot, first + i)
  }

  predicate Holds(h: History, e: nat, p: Pending, boot: u16, pos: nat)
    requires e < |h.log.entries| == |h.from|
  {
    h.log.entries[e] == Entry(MakeRec(p, boot), 4) && h.from[e] == FromPush(pos)
  }

  /** A batch the flash takes is stored, at the end of the journal or at the start of a new one. */
  lemma DrainStores(d: Device, h: History, n: nat) returns (at: nat)
    requires Fits(d.st, n) && n >= 16 && Matches(d, h, n) && d.st.powered && d.queue != []
    ensures var b := BatchSize(|d.queue|);
      Stores(Record(h, DrainBatch(Done), n), at, d.queue[..b], d.st.boot, h.waiting)
    ensures at == if |h.log.entries| + BatchSize(|d.queue|) > n then 0 else |h.log.entries|
  {
    hide Refines;
    hide Consistent;
    hide LogAppend;
    hide MakeRecs;
    hide Tag;
    hide Stores;
    Together(d, h, n);
    var b := BatchSize(|d.queue|);
    QueueSplit(h.pushes, h.waiting, b);
    at := Kept(h.log, b, Done, n);
    SameOrigins(d, h, n);
    AppendStores(h, d.queue[..b], d.st.boot, h.waiting, n, h.pushes, h.waiting + b);
  }

  lemma SameOrigins(d: Device, h: History, n: nat)
    requires Matches(d, h, n)
    ensures |h.from| == |h.log.entries|
  {
  }

  lemma AppendStores(h: History, ps: seq<Pending>, boot: u16, first: nat, n: nat, pushes: seq<Pushed>, waiting: nat)
    requires |h.from| == |h.log.entries| && ps != [] && |ps| <= n
    ensures var log := LogAppend(h.log, MakeRecs(ps, boot), Done, n);
      Stores(History(log, Tag(h.from, h.log, log, Origins(first, |ps|), Done, n), pushes, waiting),
             Kept(h.log, |ps|, Done, n), ps, boot, first)
  {
    hide MakeRec;
    hide Programmed;
    var recs := MakeRecs(ps, boot);
    WholeBatch(recs);
    var kept := Kept(h.log, |ps|, Done, n);
    assert LogAppend(h.log, recs, Done, n).entries == h.log.entries[..kept] + Programmed(recs, 4 * |recs|) by {
      assert h.log.entries[..|h.log.entries|] == h.log.entries;
    }
  }

  lemma WholeBatch(recs: seq<Rec>)
    ensures |Programmed(recs, 4 * |recs|)| == |recs|
    ensures forall i :: 0 <= i < |recs| ==> Programmed(recs, 4 * |recs|)[i] == Entry(recs[i], 4)
  {
  }

  /** What the flash took in a batch is in the journal, in order, and readAt delivers it, at any later
      moment until something erases the partition. */
  lemma DrainedStays(ops: seq<Op>, k: nat, k': nat, n: nat) returns (at: nat)
    requires k < k' <= |ops| && n >= 16 && ScansReach(ops, k', n) && ops[k] == DrainBatch(Done)
    requires Life(ops, k, n).st.powered && Life(ops, k, n).queue != []
    requires forall j :: k < j < k' ==> !Erases(Life(ops, j, n), ops[j], n)
    ensures var d := Life(ops, k, n); var b := BatchSize(|d.queue|);
      Stores(Story(ops, k', n), at, d.queue[..b], d.st.boot, Story(ops, k, n).waiting) && at + b <= n &&
      ReadSlots(Life(ops, k', n).st.flash, at, at + b) == MakeRecs(d.queue[..b], d.st.boot) &&
      (forall i :: 0 <= i < b ==>
         OnFlash(Life(ops, k', n).st.flash, at + i, d.queue[i].code, d.st.boot, d.queue[i].tMs, d.queue[i].data))
  {
    hide Life;
    hide Story;
    hide Erases;
    hide Image;
    hide MakeRecs;
    hide Stores;
    hide Extends;
    hide Matches;
    at := DrainedNow(ops, k, n);
    LifeExtends(ops, k + 1, k', n);
    LifeMatches(ops, k', n);
    var d, h := Life(ops, k, n), Story(ops, k', n);
    var ps := d.queue[..BatchSize(|d.queue|)];
    SameFlash(Life(ops, k', n), h, n);
    StoredOnward(Story(ops, k + 1, n), h, at, ps, d.st.boot, Story(ops, k, n).waiting);
    StoredReads(h, at, ps, d.st.boot, Story(ops, k, n).waiting, n, |ps|);
    StoredWords(h, at, ps, d.st.boot, Story(ops, k, n).waiting, n);
    assert MakeRecs(ps, d.st.boot)[..|ps|] == MakeRecs(ps, d.st.boot);
  }

  lemma DrainedNow(ops: seq<Op>, k: nat, n: nat) returns (at: nat)
    requires k < |ops| && n >= 16 && ScansReach(ops, k, n) && ops[k] == DrainBatch(Done)
    requires Life(ops, k, n).st.powered && Life(ops, k, n).queue != []
    ensures var d := Life(ops, k, n);
      Stores(Story(ops, k + 1, n), at, d.queue[..BatchSize(|d.queue|)], d.st.boot, Story(ops, k, n).waiting)
  {
    hide Exec;
    hide Record;
    hide Matches;
    hide Stores;
    LifeMatches(ops, k, n);
    at := DrainStores(Life(ops, k, n), Story(ops, k, n), n);
  }

  lemma SameFlash(d: Device, h: History, n: nat)
    requires Matches(d, h, n)
    ensures d.st.flash == Image(h.log.entries, n) && |h.log.entries| <= n
  {
    hide Image;
  }

  lemma StoredOnward(h: History, next: History, at: nat, ps: seq<Pending>, boot: u16, first: nat)
    requires Stores(h, at, ps, boot, first) && Extends(next, h)
    ensures Stores(next, at, ps, boot, first) && at + |ps| <= |next.log.entries|
  {
    hide MakeRec;
    forall i | 0 <= i < |ps|
      ensures Holds(next, at + i, ps[i], boot, first + i)
    {
      assert Holds(h, at + i, ps[i], boot, first + i);
      assert next.log.entries[..|h.from|][at + i] == next.log.entries[at + i];
      assert next.from[..|h.from|][at + i] == next.from[at + i];
    }
  }

  /** Slot `i` holds the four words of a record of that event. */
  predicate OnFlash(flash: seq<u32>, i: nat, code: u8, boot: u16, tMs: u32, data: u32)
  {
    4 * i + 4 <= |flash| && Carries(flash[4 * i..4 * i + 4], code, boot, tMs, data)
  }

  lemma SlotOnFlash(flash: seq<u32>, i: nat, p: Pending, boot: u16)
    requires 4 * i + 4 <= |flash| && RecAt(flash, i) == MakeRec(p, boot)
    ensures OnFlash(flash, i, p.code, boot, p.tMs, p.data)
  {
    hide MakeRec;
    hide Carries;
    MadeCarries(p, boot);
    assert flash[4 * i..4 * i + 4] == Words(RecAt(flash, i));
  }

  lemma StoredWords(h: History, at: nat, ps: seq<Pending>, boot: u16, first: nat, n: nat)
    requires Stores(h, at, ps, boot, first) && |h.log.entries| <= n
    ensures forall i :: 0 <= i < |ps| ==>
      OnFlash(Image(h.log.entries, n), at + i, ps[i].code, boot, ps[i].tMs, ps[i].data)
  {
    hide MakeRec;
    hide RecValid;
    hide Image;
    hide OnFlash;
    forall i | 0 <= i < |ps|
      ensures OnFlash(Image(h.log.entries, n), at + i, ps[i].code, boot, ps[i].tMs, ps[i].data)
    {
      SlotHolds(h, at, ps, boot, first, n, i);
      SlotOnFlash(Image(h.log.entries, n), at + i, ps[i], boot);
    }
  }

  // ───────────── Boot records ─────────────

  /** The boot record of a power-up or a clear goes to the end of the journal, or to the start of a new one. */
  lemma BootStores(d: Device, h: History, op: Op, n: nat) returns (at: nat)
    requires Fits(d.st, n) && n >= 16 && Matches(d, h, n)
    requires (op.PowerUp? && Reaches(op.bad, |h.log.entries|)) || (op.Wipe? && d.st.powered && !op.armed)
    requires op.fate == Done
    ensures var next := Record(h, op, n);
      at < |next.log.entries| == |next.from| &&
      at == (if op.Wipe? || |h.log.entries| == n then 0 else |h.log.entries|) && |next.log.entries| == at + 1 &&
      next.log.entries[at] == Entry(MakeRec(Pending(1, op.tMs, op.reason), Exec(d, op, n).st.boot), 4)
  {
    hide Exec;
    hide MakeRec;
    hide NextBoot;
    hide MaxBoot;
    Together(d, h, n);
    SameOrigins(d, h, n);
    SameFlash(d, h, n);
    BootTaken(d, h, op, n);
    at := if op.Wipe? || |h.log.entries| == n then 0 else |h.log.entries|;
    var boot := if op.PowerUp? then NextBoot(HighestBoot(h.log.entries, |h.log.entries|)) else h.log.boot;
    WholeBatch([MakeRec(Pending(BOOT_CODE, op.tMs, op.reason), boot)]);
  }

  /** A boot record the flash took is on it, uptime and reset reason included, at any later moment until something
      erases the partition. */
  lemma BootStays(ops: seq<Op>, k: nat, k': nat, n: nat) returns (at: nat)
    requires k < k' <= |ops| && n >= 16 && ScansReach(ops, k', n)
    requires ops[k].PowerUp? || (ops[k].Wipe? && Life(ops, k, n).st.powered && !ops[k].armed)
    requires ops[k].fate == Done && forall j :: k < j < k' ==> !Erases(Life(ops, j, n), ops[j], n)
    ensures at < n && OnFlash(Life(ops, k', n).st.flash, at, 1, Life(ops, k + 1, n).st.boot, ops[k].tMs, ops[k].reason)
    ensures at == if ops[k].Wipe? || |Story(ops, k, n).log.entries| == n then 0 else |Story(ops, k, n).log.entries|
  {
    hide Exec;
    hide Record;
    hide Erases;
    hide Image;
    hide Matches;
    hide OnFlash;
    hide MakeRec;
    LifeMatches(ops, k, n);
    at := BootStores(Life(ops, k, n), Story(ops, k, n), ops[k], n);
    LifeExtends(ops, k + 1, k', n);
    LifeMatches(ops, k', n);
    var h, next := Story(ops, k + 1, n), Story(ops, k', n);
    SameFlash(Life(ops, k', n), next, n);
    assert next.log.entries[..|h.log.entries|][at] == h.log.entries[at];
    var p, boot := Pending(1, ops[k].tMs, ops[k].reason), Life(ops, k + 1, n).st.boot;
    ImageSlot(next.log.entries, n, at);
    SlotOnFlash(Life(ops, k', n).st.flash, at, p, boot);
  }

  lemma LastOf(recs: seq<Rec>, j: nat)
    requires j < |recs|
    ensures recs[..j + 1] == recs[..j] + [recs[j]]
  {
  }

  lemma SlotHolds(h: History, at: nat, ps: seq<Pending>, boot: u16, first: nat, n: nat, j: nat)
    requires Stores(h, at, ps, boot, first) && j < |ps| && |h.log.entries| <= n
    ensures at + |ps| <= n
    ensures RecAt(Image(h.log.entries, n), at + j) == MakeRec(ps[j], boot) && RecValid(MakeRec(ps[j], boot))
  {
    hide MakeRec;
    hide RecValid;
    hide Image;
    assert Holds(h, at + j, ps[j], boot, first + j);
    ImageSlot(h.log.entries, n, at + j);
    MadeValid(ps[j], boot);
  }

  lemma {:induction false} StoredReads(h: History, at: nat, ps: seq<Pending>, boot: u16, first: nat, n: nat, k: nat)
    requires Stores(h, at, ps, boot, first) && k <= |ps| && |h.log.entries| <= n
    ensures ReadSlots(Image(h.log.entries, n), at, at + k) == MakeRecs(ps, boot)[..k]
    decreases k
  {
    hide Image;
    hide RecValid;
    hide MakeRec;
    hide Stores;
    hide Holds;
    hide RecAt;
    if k > 0 {
      var j := k - 1;
      StoredReads(h, at, ps, boot, first, n, j);
      SlotHolds(h, at, ps, boot, first, n, j);
      LastOf(MakeRecs(ps, boot), j);
    }
  }
}
