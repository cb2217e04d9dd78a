/** evlog.cpp: the append-only journal of 16-byte records in flash. Programming clears bits, one
    word at a time in ascending order, and the power may fail after any of them; erasing is atomic. */
module Journal {
  import opened Prelude
  import opened Bits

  const MAGIC: u8 := 0xEB
  const BLANK: u32 := ONES
  const SALT: u32 := 0xA5A5_A5A5
  const BOOT_CODE: u8 := 1

  datatype Rec = Rec(head: u32, tMs: u32, data: u32, chk: u32)

  /** An event as it waits in the RAM ring. */
  datatype Pending = Pending(code: u8, tMs: u32, data: u32)

  function RecHead(code: u8, boot: u16): u32
  {
    MAGIC * 0x100_0000 + code * 0x1_0000 + boot
  }

  function CheckWord(head: u32, tMs: u32, data: u32): u32
  {
    Xor32(Xor32(Xor32(head, tMs), data), SALT)
  }

  function MakeRec(p: Pending, boot: u16): Rec
  {
    var head := RecHead(p.code, boot);
    Rec(head, p.tMs, p.data, CheckWord(head, p.tMs, p.data))
  }

  predicate RecValid(r: Rec)
  {
    r.head / 0x100_0000 == MAGIC && r.chk == CheckWord(r.head, r.tMs, r.data)
  }

  function BootOf(r: Rec): u16
  {
    r.head % 0x1_0000
  }

  function Words(r: Rec): (w: seq<u32>)
    ensures |w| == 4
  {
    [r.head, r.tMs, r.data, r.chk]
  }

  function Flatten(recs: seq<Rec>): (w: seq<u32>)
    ensures |w| == 4 * |recs|
  {
    seq(4 * |recs|, i requires 0 <= i < 4 * |recs| => Words(recs[i / 4])[i % 4])
  }

  // ───────────── The flash ─────────────

  /** Slot `i` as a record. */
  function RecAt(flash: seq<u32>, i: nat): Rec
    requires 4 * i + 4 <= |flash|
  {
    Rec(flash[4 * i], flash[4 * i + 1], flash[4 * i + 2], flash[4 * i + 3])
  }

  function Erased(words: nat): (flash: seq<u32>)
    ensures |flash| == words
  {
    seq(words, i => BLANK)
  }

  /** The first `k` words of `w` programmed from word `at` on. */
  function Program(flash: seq<u32>, at: nat, w: seq<u32>, k: nat): (after: seq<u32>)
    requires k <= |w| && at + k <= |flash|
    ensures |after| == |flash|
  {
    seq(|flash|, i requires 0 <= i < |flash| => if at <= i < at + k then And32(flash[i], w[i - at]) else flash[i])
  }

  /** How a flash operation ends: done, refused by the driver (nothing programmed, or nothing
      erased), or cut short by a power failure after some words. */
  datatype Fate = Done | WriteFails | EraseFails | Cut(words: nat)

  /** The firmware's view: the flash, and in RAM the append slot, the boot number, the power. */
  datatype State = State(flash: seq<u32>, off: nat, boot: u16, powered: bool)

  predicate Fits(st: State, n: nat)
  {
    |st.flash| == 4 * n && st.off <= n
  }

  /** flashAppend: erases and restarts when full. */
  function Append(st: State, recs: seq<Rec>, fate: Fate, n: nat): (after: State)
    requires Fits(st, n) && |recs| <= n
    ensures Fits(after, n)
  {
    var full := st.off + |recs| > n;
    if recs == [] || (full && fate == EraseFails) then st.(powered := !fate.Cut?)
    else
      var flash, off := if full then Erased(4 * n) else st.flash, if full then 0 else st.off;
      var w := Flatten(recs);
      match fate
      case Cut(k) => State(Program(flash, 4 * off, w, if k < |w| then k else |w|), off, st.boot, false)
      case WriteFails => State(flash, off, st.boot, true)
      case _ => State(Program(flash, 4 * off, w, |w|), off + |recs|, st.boot, true)
  }

  /** The boot scan: the first slot from `i` on whose head is blank, or whose reading fails; `bad` is
      the slot that cannot be read, if any. */
  function Scan(flash: seq<u32>, n: nat, bad: Option<nat>, i: nat): (off: nat)
    requires |flash| == 4 * n && i <= n
    ensures i <= off <= n
    decreases n - i
  {
    if i == n || bad == Some(i) || RecAt(flash, i).head == BLANK then i else Scan(flash, n, bad, i + 1)
  }

  /** Reading gets as far as slot `end`. */
  predicate Reaches(bad: Option<nat>, end: nat)
  {
    bad.None? || bad.value >= end
  }

  function MaxBoot(last: u16, r: Rec): u16
  {
    if RecValid(r) && BootOf(r) >= last then BootOf(r) else last
  }

  function NextBoot(last: u16): u16
  {
    (last + 1) % 0x1_0000
  }

  /** The highest boot number of the valid records in the first `k` slots. */
  function LastBoot(flash: seq<u32>, k: nat): u16
    requires 4 * k <= |flash|
  {
    if k == 0 then 0 else MaxBoot(LastBoot(flash, k - 1), RecAt(flash, k - 1))
  }

  /** init: scan, take the next boot number, log the boot. */
  function Boot(st: State, tMs: u32, reason: u32, fate: Fate, bad: Option<nat>, n: nat): (after: State)
    requires Fits(st, n) && n >= 1
    ensures Fits(after, n)
  {
    var off := Scan(st.flash, n, bad, 0);
    var boot := NextBoot(LastBoot(st.flash, off));
    Append(State(st.flash, off, boot, true), [MakeRec(Pending(BOOT_CODE, tMs, reason), boot)], fate, n)
  }

  /** clear: erase, and log a boot record to start the file again. */
  function Clear(st: State, tMs: u32, reason: u32, fate: Fate, n: nat): (after: State)
    requires Fits(st, n) && n >= 1
    ensures Fits(after, n)
  {
    if fate == EraseFails then st
    else Append(State(Erased(4 * n), 0, st.boot, true), [MakeRec(Pending(BOOT_CODE, tMs, reason), st.boot)], fate, n)
  }

  /** A batch of the drain: the records carry this boot's number. */
  function MakeRecs(ps: seq<Pending>, boot: u16): (recs: seq<Rec>)
    ensures |recs| == |ps|
  {
    seq(|ps|, i requires 0 <= i < |ps| => MakeRec(ps[i], boot))
  }

  /** readAt over `flash`: the valid records among slots `i` to `k`. */
  function ReadSlots(flash: seq<u32>, i: nat, k: nat): seq<Rec>
    requires i <= k && 4 * k <= |flash|
    decreases k
  {
    if i == k then []
    else ReadSlots(flash, i, k - 1) + if RecValid(RecAt(flash, k - 1)) then [RecAt(flash, k - 1)] else []
  }

  lemma {:induction false} NothingRead(flash: seq<u32>, i: nat)
    requires 4 * i <= |flash|
    ensures ReadSlots(flash, i, i) == []
  {
  }

  lemma {:induction false} ReadNext(flash: seq<u32>, i: nat, k: nat)
    requires i <= k && 4 * k + 4 <= |flash|
    ensures ReadSlots(flash, i, k + 1) ==
      ReadSlots(flash, i, k) + if RecValid(RecAt(flash, k)) then [RecAt(flash, k)] else []
  {
  }

  /** Where readAt stops: after `cap` slots, at the append point, or at the slot that cannot be read. */
  function ReadEnd(idx: nat, cap: nat, off: nat, bad: Option<nat>): nat
  {
    var end := if idx + cap < off then idx + cap else off;
    if bad.Some? && idx <= bad.value < end then bad.value else end
  }

  /** It reads every slot from `idx` on, `cap` of them at most, short of the append point and of a slot that cannot be
      read. */
  lemma ReadEndExactly(idx: nat, cap: nat, off: nat, bad: Option<nat>, i: nat)
    requires idx <= i
    ensures i < ReadEnd(idx, cap, off, bad) <==>
      i < idx + cap && i < off && !(bad.Some? && idx <= bad.value <= i)
  {
  }

  /** Programming a word clears bits: a bit is set afterwards iff it was, and is set in the word written. Words outside
      the stretch stay as they are. */
  lemma {:induction false} ProgramClears(flash: seq<u32>, at: nat, w: seq<u32>, k: nat, i: nat, bit: nat)
    requires k <= |w| && at + k <= |flash| && i < |flash|
    ensures at <= i < at + k ==>
      (BitAt(Program(flash, at, w, k)[i], bit) == 1 <==> BitAt(flash[i], bit) == 1 && BitAt(w[i - at], bit) == 1)
    ensures !(at <= i < at + k) ==> Program(flash, at, w, k)[i] == flash[i]
  {
    if at <= i < at + k {
      BitByBit(flash[i], w[i - at], bit);
    }
  }

  // ───────────── The driver ─────────────

  class EventLog {
    const part: array<u32>
    var writeOff: nat
    var bootSeq: u16
    ghost var powered: bool

    ghost predicate Valid()
      reads this
    {
      part.Length % 4 == 0 && part.Length >= 64 && writeOff <= part.Length / 4
    }

    ghost function View(): State
      reads this, part
    {
      State(part[..], writeOff, bootSeq, powered)
    }

    function Slots(): nat
    {
      part.Length / 4
    }

    /** A partition as found: anything may be on it. */
    constructor (p: array<u32>)
      requires p.Length % 4 == 0 && p.Length >= 64
      ensures Valid() && part == p && View() == State(p[..], 0, 0, false)
    {
      part := p;
      writeOff, bootSeq := 0, 0;
      powered := false;
    }

    method EraseAll()
      modifies part
      ensures part[..] == Erased(part.Length)
    {
      for i := 0 to part.Length
        invariant forall j :: 0 <= j < i ==> part[j] == BLANK
      {
        part[i] := BLANK;
      }
    }

    method WriteWords(at: nat, w: seq<u32>, k: nat)
      requires k <= |w| && at + k <= part.Length
      modifies part
      ensures part[..] == Program(old(part[..]), at, w, k)
    {
      for i := 0 to k
        invariant forall j :: 0 <= j < part.Length ==>
          part[j] == if at <= j < at + i then And32(old(part[j]), w[j - at]) else old(part[j])
      {
        part[at + i] := And32(part[at + i], w[i]);
      }
    }

    method FlashAppend(recs: seq<Rec>, fate: Fate)
      requires Valid() && powered && |recs| <= 16
      modifies this`writeOff, this`powered, part
      ensures Valid() && View() == Append(old(View()), recs, fate, Slots())
    {
      if recs == [] {
        powered := !fate.Cut?;
        return;
      }
      if writeOff + |recs| > part.Length / 4 {
        if fate == EraseFails {
          return;
        }
        EraseAll();
        writeOff := 0;
      }
      var w := Flatten(recs);
      match fate
      case Cut(k) =>
        WriteWords(4 * writeOff, w, if k < |w| then k else |w|);
        powered := false;
      case WriteFails =>
      case _ =>
        WriteWords(4 * writeOff, w, |w|);
        writeOff := writeOff + |recs|;
    }

    /** The first slot that is blank or cannot be read, and the highest boot number before it. */
    method ScanSlots(bad: Option<nat>) returns (off: nat, lastBoot: u16)
      requires Valid()
      ensures off == Scan(part[..], Slots(), bad, 0) && lastBoot == LastBoot(part[..], off)
    {
      hide MaxBoot;
      off, lastBoot := 0, 0;
      while off < part.Length / 4
        invariant off <= part.Length / 4
        invariant Scan(part[..], Slots(), bad, 0) == Scan(part[..], Slots(), bad, off)
        invariant lastBoot == LastBoot(part[..], off)
      {
        if bad == Some(off) {
          break;
        }
        var r := Rec(part[4 * off], part[4 * off + 1], part[4 * off + 2], part[4 * off + 3]);
        assert r == RecAt(part[..], off);
        if r.head == BLANK {
          break;
        }
        lastBoot := MaxBoot(lastBoot, r);
        off := off + 1;
      }
    }

    method Init(tMs: u32, reason: u32, fate: Fate, bad: Option<nat>)
      requires Valid()
      modifies this, part
      ensures Valid() && View() == Boot(old(View()), tMs, reason, fate, bad, Slots())
    {
      hide MakeRec;
      hide Append;
      powered := true;
      var off, lastBoot := ScanSlots(bad);
      writeOff := off;
      bootSeq := NextBoot(lastBoot);
      FlashAppend([MakeRec(Pending(BOOT_CODE, tMs, reason), bootSeq)], fate);
    }

    method ReadAt(idx: nat, cap: nat, bad: Option<nat>) returns (out: seq<Rec>)
      requires Valid()
      ensures var end := ReadEnd(idx, cap, writeOff, bad);
        end <= part.Length / 4 && out == if idx < end then ReadSlots(part[..], idx, end) else []
    {
      hide RecValid;
      hide ReadSlots;
      ghost var flash := part[..];
      if idx <= writeOff {
        NothingRead(flash, idx);
      }
      out := [];
      var i := 0;
      while i < cap && idx + i < writeOff
        invariant i <= cap && (idx + i <= writeOff || i == 0)
        invariant idx + i <= writeOff ==> out == ReadSlots(flash, idx, idx + i)
        invariant i == 0 ==> out == []
        invariant bad.Some? && idx <= bad.value ==> idx + i <= bad.value
      {
        if bad == Some(idx + i) {
          break;
        }
        var at := 4 * (idx + i);
        var r := Rec(part[at], part[at + 1], part[at + 2], part[at + 3]);
        assert r == RecAt(flash, idx + i);
        ReadNext(flash, idx, idx + i);
        out := out + if RecValid(r) then [r] else [];
        i := i + 1;
      }
    }

    /** Refused while the kart is armed, like every flash write. */
    method ClearAll(armed: bool, tMs: u32, reason: u32, fate: Fate) returns (ok: bool)
      requires Valid() && powered
      modifies this`writeOff, this`powered, part
      ensures Valid() && View() == (if armed then old(View()) else Clear(old(View()), tMs, reason, fate, Slots()))
      ensures ok == (!armed && fate != EraseFails)
    {
      ok := !armed && fate != EraseFails;
      if ok {
        EraseAll();
        writeOff := 0;
        FlashAppend([MakeRec(Pending(BOOT_CODE, tMs, reason), bootSeq)], fate);
      }
    }
  }

  // ───────────── What the flash holds ─────────────

  /** A record in the journal, of which the first `words` words reached the flash. */
  datatype Entry = Entry(rec: Rec, words: nat)

  predicate Proper(e: Entry)
  {
    1 <= e.words <= 4 && RecValid(e.rec)
  }

  predicate AllProper(es: seq<Entry>)
  {
    forall i :: 0 <= i < |es| ==> Proper(es[i])
  }

  /** The slot as it reads back. */
  function SlotRec(e: Entry): Rec
  {
    Rec(if e.words >= 1 then e.rec.head else BLANK, if e.words >= 2 then e.rec.tMs else BLANK,
        if e.words >= 3 then e.rec.data else BLANK, if e.words >= 4 then e.rec.chk else BLANK)
  }

  function Slot(e: Entry): (w: seq<u32>)
    ensures |w| == 4
  {
    Words(SlotRec(e))
  }

  /** The whole partition: the entries, then nothing but blank slots. */
  function Image(es: seq<Entry>, n: nat): (flash: seq<u32>)
    ensures |flash| == 4 * n
  {
    seq(4 * n, i requires 0 <= i < 4 * n => if i / 4 < |es| then Slot(es[i / 4])[i % 4] else BLANK)
  }

  /** What `k` programmed words of a batch amount to: whole records, and at most one torn. */
  function Programmed(recs: seq<Rec>, k: nat): (es: seq<Entry>)
    requires k <= 4 * |recs|
    ensures |es| <= |recs|
  {
    seq((k + 3) / 4, j requires 0 <= j < (k + 3) / 4 => Entry(recs[j], if k - 4 * j >= 4 then 4 else k - 4 * j))
  }

  // ───────────── The abstract log ─────────────

  /** The journal as a log: no words, no offsets. */
  datatype Log = Log(entries: seq<Entry>, boot: u16, powered: bool)

  function LogAppend(log: Log, recs: seq<Rec>, fate: Fate, n: nat): Log
  {
    var full := |log.entries| + |recs| > n;
    if recs == [] || (full && fate == EraseFails) then log.(powered := !fate.Cut?)
    else
      var kept := if full then [] else log.entries;
      match fate
      case Cut(k) => Log(kept + Programmed(recs, if k < 4 * |recs| then k else 4 * |recs|), log.boot, false)
      case WriteFails => Log(kept, log.boot, true)
      case _ => Log(kept + Programmed(recs, 4 * |recs|), log.boot, true)
  }

  function HighestBoot(es: seq<Entry>, k: nat): u16
    requires k <= |es|
  {
    if k == 0 then 0 else MaxBoot(HighestBoot(es, k - 1), SlotRec(es[k - 1]))
  }

  function LogBoot(log: Log, tMs: u32, reason: u32, fate: Fate, n: nat): Log
  {
    var boot := NextBoot(HighestBoot(log.entries, |log.entries|));
    LogAppend(Log(log.entries, boot, true), [MakeRec(Pending(BOOT_CODE, tMs, reason), boot)], fate, n)
  }

  function LogClear(log: Log, tMs: u32, reason: u32, fate: Fate, n: nat): Log
  {
    if fate == EraseFails then log
    else LogAppend(Log([], log.boot, true), [MakeRec(Pending(BOOT_CODE, tMs, reason), log.boot)], fate, n)
  }

  /** The flash is the log's image; while powered, the append slot is the end of the log. */
  predicate Refines(st: State, log: Log, n: nat)
  {
    st.flash == Image(log.entries, n) && |log.entries| <= n && AllProper(log.entries) &&
    st.powered == log.powered && (st.powered ==> st.off == |log.entries| && st.boot == log.boot)
  }

  // ───────────── Appending keeps the image ─────────────

  lemma HeadFacts(code: u8, boot: u16)
    ensures RecHead(code, boot) / 0x100_0000 == MAGIC
    ensures RecHead(code, boot) % 0x1_0000 == boot && RecHead(code, boot) / 0x1_0000 % 256 == code
  {
  }

  /** A record as written is valid and names its event and its boot. */
  lemma MadeValid(p: Pending, boot: u16)
    ensures RecValid(MakeRec(p, boot)) && BootOf(MakeRec(p, boot)) == boot
    ensures MakeRec(p, boot).head / 0x1_0000 % 256 == p.code
  {
    hide RecHead;
    HeadFacts(p.code, boot);
  }

  /** Four words of flash with a record on them: 0xEB, the event code and the boot number in the first, the time in the
      second, the data in the third, and all four together xor to 0xA5A5A5A5. */
  predicate Carries(words: seq<u32>, code: u8, boot: u16, tMs: u32, data: u32)
  {
    |words| == 4 && words[0] == 0xEB00_0000 + code * 0x1_0000 + boot && words[1] == tMs && words[2] == data &&
    Xor32(Xor32(Xor32(words[0], words[1]), words[2]), words[3]) == 0xA5A5_A5A5
  }

  /** A record made of an event carries that event. */
  lemma MadeCarries(p: Pending, boot: u16)
    ensures Carries(Words(MakeRec(p, boot)), p.code, boot, p.tMs, p.data)
  {
    hide Xor32;
    var r := MakeRec(p, boot);
    var x := Xor32(Xor32(r.head, r.tMs), r.data);
    Xor32Cancel(x, SALT);
  }

  lemma Xor32Cancel(a: u32, b: u32)
    ensures Xor32(a, Xor32(a, b)) == b
  {
    hide Xor;
    XorCommutes(a, b);
    XorCommutes(a, Xor(b, a));
    XorTwice(b, a);
  }

  lemma MagicNotBlank(head: u32)
    requires head / 0x100_0000 == MAGIC
    ensures head != BLANK
  {
  }

  lemma OverBlank(w: u32)
    ensures And32(BLANK, w) == w
  {
    And32Ones(w);
  }

  lemma FlattenAt(recs: seq<Rec>, i: nat)
    requires i < 4 * |recs|
    ensures Flatten(recs)[i] == Words(recs[i / 4])[i % 4]
  {
  }

  lemma ProgrammedAt(recs: seq<Rec>, k: nat, i: nat)
    requires k <= 4 * |recs| && i / 4 < |Programmed(recs, k)|
    ensures i / 4 < |recs|
    ensures Slot(Programmed(recs, k)[i / 4])[i % 4] == if i < k then Words(recs[i / 4])[i % 4] else BLANK
  {
  }

  lemma ImageAppendAt(es: seq<Entry>, recs: seq<Rec>, k: nat, n: nat, i: nat)
    requires k <= 4 * |recs| && |es| + |recs| <= n && i < 4 * n
    ensures Program(Image(es, n), 4 * |es|, Flatten(recs), k)[i] == Image(es + Programmed(recs, k), n)[i]
  {
    hide Words;
    hide Slot;
    hide And32;
    var at := 4 * |es|;
    if i >= at {
      var j := i - at;
      assert i / 4 == |es| + j / 4 && i % 4 == j % 4;
      if j < k {
        FlattenAt(recs, j);
        OverBlank(Flatten(recs)[j]);
      }
      if j / 4 < |Programmed(recs, k)| {
        ProgrammedAt(recs, k, j);
      }
    }
  }

  lemma ImageAppend(es: seq<Entry>, recs: seq<Rec>, k: nat, n: nat)
    requires k <= 4 * |recs| && |es| + |recs| <= n
    ensures Program(Image(es, n), 4 * |es|, Flatten(recs), k) == Image(es + Programmed(recs, k), n)
  {
    hide Program;
    hide Image;
    forall i | 0 <= i < 4 * n
      ensures Program(Image(es, n), 4 * |es|, Flatten(recs), k)[i] == Image(es + Programmed(recs, k), n)[i]
    {
      ImageAppendAt(es, recs, k, n, i);
    }
  }

  lemma ErasedImage(n: nat)
    ensures Erased(4 * n) == Image([], n)
  {
  }

  predicate AllMade(recs: seq<Rec>)
  {
    forall i :: 0 <= i < |recs| ==> RecValid(recs[i])
  }

  lemma ProgrammedProper(recs: seq<Rec>, k: nat)
    requires k <= 4 * |recs| && AllMade(recs)
    ensures AllProper(Programmed(recs, k))
  {
    hide RecValid;
  }

  lemma BatchValid(ps: seq<Pending>, boot: u16)
    ensures AllMade(MakeRecs(ps, boot))
  {
    hide MakeRec;
    hide RecValid;
    forall i | 0 <= i < |ps|
      ensures RecValid(MakeRecs(ps, boot)[i])
    {
      MadeValid(ps[i], boot);
    }
  }

  lemma AppendRefines(st: State, log: Log, recs: seq<Rec>, fate: Fate, n: nat)
    requires Fits(st, n) && Refines(st, log, n) && st.powered && |recs| <= n && AllMade(recs)
    ensures Refines(Append(st, recs, fate, n), LogAppend(log, recs, fate, n), n)
  {
    hide Image;
    hide Program;
    hide Programmed;
    hide AllMade;
    hide Proper;
    hide Erased;
    ErasedImage(n);
    var kept := if |log.entries| + |recs| > n then [] else log.entries;
    var k := match fate case Cut(c) => (if c < 4 * |recs| then c else 4 * |recs|) case _ => 4 * |recs|;
    ImageAppend(kept, recs, k, n);
    ProgrammedProper(recs, k);
    ProgrammedLength(recs);
  }

  lemma ProgrammedLength(recs: seq<Rec>)
    ensures |Programmed(recs, 4 * |recs|)| == |recs|
  {
  }

  // ───────────── The boot scan ─────────────

  lemma ImageSlot(es: seq<Entry>, n: nat, i: nat)
    requires |es| <= n && i < n
    ensures RecAt(Image(es, n), i) == if i < |es| then SlotRec(es[i]) else Rec(BLANK, BLANK, BLANK, BLANK)
  {
    hide SlotRec;
    SlotIndex(i, 0);
    SlotIndex(i, 1);
    SlotIndex(i, 2);
    SlotIndex(i, 3);
  }

  lemma SlotIndex(i: nat, j: nat)
    requires j < 4
    ensures (4 * i + j) / 4 == i && (4 * i + j) % 4 == j
  {
  }

  /** A used slot never looks blank: its head was the first word to reach the flash. */
  lemma UsedNotBlank(e: Entry)
    requires Proper(e)
    ensures SlotRec(e).head == e.rec.head && e.rec.head != BLANK
  {
    MagicNotBlank(e.rec.head);
  }

  /** The scan stops exactly at the end of the log iff reading gets that far; otherwise it stops
      inside the used slots. */
  lemma {:induction false} ScanFinds(es: seq<Entry>, n: nat, bad: Option<nat>, i: nat)
    requires |es| <= n && AllProper(es) && i <= |es| && Reaches(bad, i)
    ensures Scan(Image(es, n), n, bad, i) == if Reaches(bad, |es|) then |es| else bad.value
    decreases |es| - i
  {
    hide Image;
    hide Proper;
    hide SlotRec;
    if i < |es| {
      if bad != Some(i) {
        ImageSlot(es, n, i);
        UsedNotBlank(es[i]);
        ScanFinds(es, n, bad, i + 1);
      }
    } else if i < n {
      ImageSlot(es, n, i);
    }
  }

  lemma {:induction false} LastBootOfImage(es: seq<Entry>, n: nat, k: nat)
    requires k <= |es| <= n
    ensures LastBoot(Image(es, n), k) == HighestBoot(es, k)
    decreases k
  {
    hide Image;
    hide SlotRec;
    hide MaxBoot;
    if k > 0 {
      LastBootOfImage(es, n, k - 1);
      ImageSlot(es, n, k - 1);
    }
  }

  predicate AtMost(a: u16, b: u16)
  {
    a <= b
  }

  lemma MaxBootAtLeast(last: u16, r: Rec)
    ensures AtMost(last, MaxBoot(last, r))
    ensures RecValid(r) ==> AtMost(BootOf(r), MaxBoot(last, r))
  {
    hide RecValid;
    hide BootOf;
  }

  lemma AtMostTrans(a: u16, b: u16, c: u16)
    requires AtMost(a, b) && AtMost(b, c)
    ensures AtMost(a, c)
  {
  }

  /** No valid record on flash has a boot number above the highest the scan has seen. */
  lemma {:induction false} HighestIsHighest(es: seq<Entry>, k: nat, i: nat)
    requires i < k <= |es| && RecValid(SlotRec(es[i]))
    ensures AtMost(BootOf(SlotRec(es[i])), HighestBoot(es, k))
    decreases k
  {
    hide SlotRec;
    hide RecValid;
    hide BootOf;
    hide MaxBoot;
    hide AtMost;
    var j := k - 1;
    MaxBootAtLeast(HighestBoot(es, j), SlotRec(es[j]));
    if i < j {
      HighestIsHighest(es, j, i);
      AtMostTrans(BootOf(SlotRec(es[i])), HighestBoot(es, j), HighestBoot(es, k));
    }
  }

  /** Unless it is 0, the highest boot number is that of a valid record. */
  lemma {:induction false} HighestIsTaken(es: seq<Entry>, k: nat) returns (i: nat)
    requires k <= |es| && HighestBoot(es, k) != 0
    ensures i < k && RecValid(SlotRec(es[i])) && BootOf(SlotRec(es[i])) == HighestBoot(es, k)
    decreases k
  {
    hide SlotRec;
    hide RecValid;
    hide BootOf;
    if HighestBoot(es, k) == HighestBoot(es, k - 1) {
      i := HighestIsTaken(es, k - 1);
    } else {
      i := k - 1;
    }
  }

  /** The boot counter moves up, short of its wrap. */
  predicate Exceeds(next: u16, b: u16)
  {
    b < next
  }

  lemma NextExceeds(b: u16, last: u16)
    requires AtMost(b, last) && last != 0xFFFF
    ensures Exceeds(NextBoot(last), b)
  {
  }

  /** The new boot number exceeds every valid one on flash, short of a wrap of the counter. */
  lemma {:induction false} BootIsNew(st: State, log: Log, bad: Option<nat>, n: nat, i: nat)
    requires Fits(st, n) && Refines(st, log, n) && Reaches(bad, |log.entries|)
    requires i < |log.entries| && RecValid(RecAt(st.flash, i))
    requires LastBoot(st.flash, Scan(st.flash, n, bad, 0)) != 0xFFFF
    ensures Exceeds(NextBoot(LastBoot(st.flash, Scan(st.flash, n, bad, 0))), BootOf(RecAt(st.flash, i)))
  {
    hide Image;
    hide Proper;
    hide SlotRec;
    hide RecValid;
    hide BootOf;
    hide MaxBoot;
    hide NextBoot;
    hide AtMost;
    hide Exceeds;
    ScanFinds(log.entries, n, bad, 0);
    LastBootOfImage(log.entries, n, |log.entries|);
    ImageSlot(log.entries, n, i);
    HighestIsHighest(log.entries, |log.entries|, i);
    NextExceeds(BootOf(RecAt(st.flash, i)), LastBoot(st.flash, |log.entries|));
  }

  lemma BootRefines(st: State, log: Log, tMs: u32, reason: u32, fate: Fate, bad: Option<nat>, n: nat)
    requires Fits(st, n) && Refines(st, log, n) && n >= 1 && Reaches(bad, |log.entries|)
    ensures Refines(Boot(st, tMs, reason, fate, bad, n), LogBoot(log, tMs, reason, fate, n), n)
  {
    hide Image;
    hide Append;
    hide LogAppend;
    hide MakeRec;
    hide Proper;
    hide RecValid;
    hide MaxBoot;
    hide NextBoot;
    ScanFinds(log.entries, n, bad, 0);
    LastBootOfImage(log.entries, n, |log.entries|);
    var boot := NextBoot(HighestBoot(log.entries, |log.entries|));
    MadeValid(Pending(BOOT_CODE, tMs, reason), boot);
    AppendRefines(State(st.flash, |log.entries|, boot, true), Log(log.entries, boot, true),
                  [MakeRec(Pending(BOOT_CODE, tMs, reason), boot)], fate, n);
  }

  /** The boot record goes over the last slot without changing a bit of it, under the number the whole
      scan would have given it. */
  predicate Absorbed(flash: seq<u32>, tMs: u32, reason: u32, n: nat)
    requires |flash| == 4 * n && n >= 1
  {
    var boot := NextBoot(LastBoot(flash, n - 1));
    boot == NextBoot(LastBoot(flash, n)) &&
    Program(flash, 4 * (n - 1), Words(MakeRec(Pending(BOOT_CODE, tMs, reason), boot)), 4) == flash
  }

  /** The two failures that keep an early append point from doing harm: no word got programmed where the
      log had room, or the erase failed that a full log was due and the last slot absorbed the record. */
  predicate Spared(flash: seq<u32>, used: nat, tMs: u32, reason: u32, fate: Fate, bad: Option<nat>, n: nat)
    requires |flash| == 4 * n && n >= 1
  {
    (fate == Cut(0) && used < n) ||
    (fate == EraseFails && used == n && bad == Some(n - 1) && Absorbed(flash, tMs, reason, n))
  }

  /** A read that fails inside the used slots makes its slot the append point, and the boot record is
      programmed over what is there: the journal survives the boot iff reading got to its end, or a
      second failure stepped in. */
  lemma BootSurvives(st: State, log: Log, tMs: u32, reason: u32, fate: Fate, bad: Option<nat>, n: nat)
    requires Fits(st, n) && Refines(st, log, n) && n >= 2
    ensures Refines(Boot(st, tMs, reason, fate, bad, n), LogBoot(log, tMs, reason, fate, n), n) <==>
      Reaches(bad, |log.entries|) || Spared(st.flash, |log.entries|, tMs, reason, fate, bad, n)
  {
    if Reaches(bad, |log.entries|) {
      BootRefines(st, log, tMs, reason, fate, bad, n);
    } else {
      hide Scan;
      hide MakeRec;
      hide MaxBoot;
      hide NextBoot;
      hide Proper;
      hide Image;
      hide Program;
      ScanFinds(log.entries, n, bad, 0);
      match fate
      case Done => EarlyAppend(st, log, tMs, reason, bad, n);
      case WriteFails => EarlyRefusal(st, log, tMs, reason, bad, n);
      case EraseFails => EarlyNoErase(st, log, tMs, reason, bad, n);
      case Cut(k) => EarlyCut(st, log, tMs, reason, k, bad, n);
    }
  }

  /** The append slot after such a boot; on a full partition, where the log starts over, slot 1 gives
      it away. */
  lemma {:induction false} EarlyAppend(st: State, log: Log, tMs: u32, reason: u32, bad: Option<nat>, n: nat)
    requires Fits(st, n) && Refines(st, log, n) && n >= 2 && !Reaches(bad, |log.entries|)
    requires Scan(st.flash, n, bad, 0) == bad.value
    ensures !Refines(Boot(st, tMs, reason, Done, bad, n), LogBoot(log, tMs, reason, Done, n), n)
  {
    hide MakeRec;
    hide MaxBoot;
    hide NextBoot;
    hide Proper;
    hide SlotRec;
    var after, next := Boot(st, tMs, reason, Done, bad, n), LogBoot(log, tMs, reason, Done, n);
    assert after.off == bad.value + 1 && after.powered;
    assert |next.entries| == (if |log.entries| == n then 1 else |log.entries| + 1);
    if |log.entries| == n && bad.value == 0 {
      StillUsed(st, log, next, n);
      assert after.flash[4] == st.flash[4];
    }
  }

  /** On a full partition slot 1 is in use; in a log started over it would be blank. */
  lemma StillUsed(st: State, log: Log, next: Log, n: nat)
    requires Fits(st, n) && Refines(st, log, n) && n >= 2 && |log.entries| == n && |next.entries| <= 1
    ensures st.flash[4] != BLANK && Image(next.entries, n)[4] == BLANK
  {
    hide Image;
    hide SlotRec;
    ImageSlot(log.entries, n, 1);
    UsedNotBlank(log.entries[1]);
    ImageSlot(next.entries, n, 1);
  }

  lemma {:induction false} EarlyRefusal(st: State, log: Log, tMs: u32, reason: u32, bad: Option<nat>, n: nat)
    requires Fits(st, n) && Refines(st, log, n) && n >= 2 && !Reaches(bad, |log.entries|)
    requires Scan(st.flash, n, bad, 0) == bad.value
    ensures !Refines(Boot(st, tMs, reason, WriteFails, bad, n), LogBoot(log, tMs, reason, WriteFails, n), n)
  {
    hide MakeRec;
    hide MaxBoot;
    hide NextBoot;
    hide Proper;
    hide Image;
    var after, next := Boot(st, tMs, reason, WriteFails, bad, n), LogBoot(log, tMs, reason, WriteFails, n);
    assert after.off == bad.value && after.powered && after.flash == st.flash;
    assert |next.entries| == (if |log.entries| == n then 0 else |log.entries|);
    if |log.entries| == n {
      StillUsed(st, log, next, n);
    }
  }

  lemma {:induction false} EarlyNoErase(st: State, log: Log, tMs: u32, reason: u32, bad: Option<nat>, n: nat)
    requires Fits(st, n) && Refines(st, log, n) && n >= 2 && !Reaches(bad, |log.entries|)
    requires Scan(st.flash, n, bad, 0) == bad.value
    ensures Refines(Boot(st, tMs, reason, EraseFails, bad, n), LogBoot(log, tMs, reason, EraseFails, n), n) <==>
      Spared(st.flash, |log.entries|, tMs, reason, EraseFails, bad, n)
  {
    hide MakeRec;
    hide MaxBoot;
    hide NextBoot;
    hide Proper;
    hide Image;
    hide Program;
    LastBootOfImage(log.entries, n, |log.entries|);
    var after, next := Boot(st, tMs, reason, EraseFails, bad, n), LogBoot(log, tMs, reason, EraseFails, n);
    assert after.off == bad.value + 1 && after.powered;
    assert |next.entries| == (if |log.entries| == n then n else |log.entries| + 1);
    var rec := MakeRec(Pending(BOOT_CODE, tMs, reason), after.boot);
    assert Flatten([rec]) == Words(rec);
    if |log.entries| == n {
      assert next.entries == log.entries;
    }
  }

  lemma ProgramNothing(flash: seq<u32>, at: nat, w: seq<u32>)
    requires at <= |flash|
    ensures Program(flash, at, w, 0) == flash
  {
  }

  /** A slot in use stays in use, whatever is programmed over it. */
  lemma ProgramKeepsUsed(flash: seq<u32>, i: nat, rec: Rec, words: nat)
    requires RecValid(rec) && words <= 4 && 4 * i + words <= |flash| && |flash| >= 8 && flash[4] != BLANK
    ensures Program(flash, 4 * i, Flatten([rec]), words)[4] != BLANK
  {
    MagicNotBlank(rec.head);
    FlattenAt([rec], 0);
    AndBound(flash[4], rec.head);
  }

  /** The log has the boot record at its end, where the flash is still blank. */
  lemma BlankBehind(st: State, log: Log, rec: Rec, w: seq<u32>, words: nat, i: nat, n: nat)
    requires Fits(st, n) && Refines(st, log, n) && i < |log.entries| < n && RecValid(rec)
    requires 1 <= words <= 4 && |w| == 4
    ensures Program(st.flash, 4 * i, w, words) != Image(log.entries + Programmed([rec], words), n)
  {
    hide RecValid;
    hide Image;
    hide Proper;
    var used := |log.entries|;
    var es := log.entries + Programmed([rec], words);
    assert es[used] == Entry(rec, words);
    assert rec.head != BLANK by {
      UsedNotBlank(Entry(rec, 4));
    }
    ImageSlot(log.entries, n, used);
    ImageSlot(es, n, used);
  }

  lemma {:induction false} EarlyCut(st: State, log: Log, tMs: u32, reason: u32, k: nat, bad: Option<nat>, n: nat)
    requires Fits(st, n) && Refines(st, log, n) && n >= 2 && !Reaches(bad, |log.entries|)
    requires Scan(st.flash, n, bad, 0) == bad.value
    ensures Refines(Boot(st, tMs, reason, Cut(k), bad, n), LogBoot(log, tMs, reason, Cut(k), n), n) <==>
      k == 0 && |log.entries| < n
  {
    hide MakeRec;
    hide MaxBoot;
    hide NextBoot;
    hide Proper;
    hide Image;
    hide Program;
    var after, next := Boot(st, tMs, reason, Cut(k), bad, n), LogBoot(log, tMs, reason, Cut(k), n);
    var rec := MakeRec(Pending(BOOT_CODE, tMs, reason), after.boot);
    MadeValid(Pending(BOOT_CODE, tMs, reason), after.boot);
    var words := if k < 4 then k else 4;
    assert after.flash == Program(st.flash, 4 * bad.value, Flatten([rec]), words);
    if |log.entries| == n {
      StillUsed(st, log, next, n);
      ProgramKeepsUsed(st.flash, bad.value, rec, words);
    } else if k == 0 {
      ProgramNothing(st.flash, 4 * bad.value, Flatten([rec]));
      assert next.entries == log.entries;
    } else {
      var last := MakeRec(Pending(BOOT_CODE, tMs, reason), next.boot);
      MadeValid(Pending(BOOT_CODE, tMs, reason), next.boot);
      BlankBehind(st, log, last, Flatten([rec]), words, bad.value, n);
    }
  }

  lemma ClearRefines(st: State, log: Log, tMs: u32, reason: u32, fate: Fate, n: nat)
    requires Fits(st, n) && Refines(st, log, n) && n >= 1 && st.powered
    ensures Refines(Clear(st, tMs, reason, fate, n), LogClear(log, tMs, reason, fate, n), n)
  {
    hide Image;
    hide Append;
    hide LogAppend;
    hide MakeRec;
    hide Proper;
    hide RecValid;
    hide Erased;
    ErasedImage(n);
    MadeValid(Pending(BOOT_CODE, tMs, reason), log.boot);
    AppendRefines(State(Erased(4 * n), 0, st.boot, true), Log([], log.boot, true),
                  [MakeRec(Pending(BOOT_CODE, tMs, reason), log.boot)], fate, n);
  }

  // ───────────── Reading back ─────────────

  /** The entries among `i` to `k` that read back as valid. */
  function Readable(es: seq<Entry>, i: nat, k: nat): (at: seq<nat>)
    requires i <= k <= |es|
    ensures forall m :: 0 <= m < |at| ==> i <= at[m] < k && RecValid(SlotRec(es[at[m]]))
    decreases k
  {
    if i == k then [] else Readable(es, i, k - 1) + if RecValid(SlotRec(es[k - 1])) then [k - 1] else []
  }

  /** In journal order, and none left out. */
  lemma {:induction false} ReadableAll(es: seq<Entry>, i: nat, k: nat)
    requires i <= k <= |es|
    ensures forall m, m' :: 0 <= m < m' < |Readable(es, i, k)| ==> Readable(es, i, k)[m] < Readable(es, i, k)[m']
    ensures forall e :: i <= e < k && RecValid(SlotRec(es[e])) ==> e in Readable(es, i, k)
    decreases k
  {
    hide RecValid;
    hide SlotRec;
    if i < k {
      ReadableAll(es, i, k - 1);
    }
  }

  /** `out` is the slots of the entries `at`, one by one. */
  predicate SlotsOf(out: seq<Rec>, es: seq<Entry>, at: seq<nat>)
  {
    |out| == |at| && forall m :: 0 <= m < |at| ==> at[m] < |es| && out[m] == SlotRec(es[at[m]])
  }

  lemma SlotsOfMore(out: seq<Rec>, es: seq<Entry>, at: seq<nat>, e: nat)
    requires SlotsOf(out, es, at) && e < |es|
    ensures SlotsOf(out + [SlotRec(es[e])], es, at + [e])
  {
    hide SlotRec;
  }

  /** What readAt delivers is the slots of those entries. */
  lemma {:induction false} ReadImage(es: seq<Entry>, n: nat, i: nat, k: nat)
    requires i <= k <= |es| <= n
    ensures SlotsOf(ReadSlots(Image(es, n), i, k), es, Readable(es, i, k))
    decreases k
  {
    hide Image;
    hide SlotRec;
    hide RecValid;
    if i < k {
      hide SlotsOf;
      var j := k - 1;
      ReadImage(es, n, i, j);
      ImageSlot(es, n, j);
      SlotsOfMore(ReadSlots(Image(es, n), i, j), es, Readable(es, i, j), j);
      assert ReadSlots(Image(es, n), i, j) + [] == ReadSlots(Image(es, n), i, j);
      assert Readable(es, i, j) + [] == Readable(es, i, j);
    }
  }

  lemma TornAfterTwo(h: u32, t: u32)
    ensures CheckWord(h, t, BLANK) == BLANK <==> Xor32(h, t) == SALT
  {
    BlankCheck(Xor32(h, t));
  }

  lemma BlankCheck(x: u32)
    ensures Xor32(Xor32(x, BLANK), SALT) == BLANK <==> x == SALT
  {
    hide Xor32;
    Xor32Ones(x);
    Xor32Complement(ONES - x, SALT);
  }

  lemma TornAfterOne(h: u32)
    requires h / 0x100_0000 == MAGIC
    ensures CheckWord(h, BLANK, BLANK) != BLANK
  {
    hide Xor32;
    BlankCheck(Xor32(h, BLANK));
    Xor32Ones(h);
  }

  /** A slot reads back as valid exactly when it holds the whole record, or the write was cut after
      two words of a record with head xor t_ms equal to 0xA5A5A5A5. */
  lemma TornAccepted(e: Entry)
    requires Proper(e)
    ensures RecValid(SlotRec(e)) <==> SlotRec(e) == e.rec || (e.words == 2 && Xor32(e.rec.head, e.rec.tMs) == SALT)
    ensures e.words == 4 ==> SlotRec(e) == e.rec
  {
    var r := e.rec;
    if e.words == 1 {
      assert SlotRec(e) == Rec(r.head, BLANK, BLANK, BLANK);
      TornAfterOne(r.head);
    } else if e.words == 2 {
      assert SlotRec(e) == Rec(r.head, r.tMs, BLANK, BLANK);
      TornAfterTwo(r.head, r.tMs);
    } else if e.words == 3 {
      assert SlotRec(e) == Rec(r.head, r.tMs, r.data, BLANK);
    } else {
      assert SlotRec(e) == r;
    }
  }
}
