/** evlog.cpp: push and drainLocked as whole operations, the ring and the journal together. What
    happens when their single steps interleave is the business of `Ring`. */
module EvLog {
  import opened Prelude
  import opened Bits
  import opened Journal
  import opened Ring

  /** The journal after draining `ps` in batches of at most 16; `fate` is how each append ends. A
      power failure ends everything. */
  function Drained(st: State, ps: seq<Pending>, fate: nat -> Fate, k: nat, n: nat): (after: State)
    requires Fits(st, n) && n >= 16
    ensures Fits(after, n)
    decreases |ps|
  {
    if ps == [] || !st.powered then st
    else
      var b := if |ps| <= BATCH then |ps| else BATCH;
      Drained(Append(st, MakeRecs(ps[..b], st.boot), fate(k), n), ps[b..], fate, k + 1, n)
  }

  class EventRing {
    const ring: array<Pending>
    const log: EventLog
    var head: u32
    var tail: u32

    constructor (l: EventLog)
      requires l.Valid()
      ensures Valid() && log == l && Waiting() == [] && fresh(ring)
    {
      ring := new Pending[RING_N](i => Pending(0, 0, 0));
      log := l;
      head, tail := 0, 0;
    }

    ghost predicate Valid()
      reads this, log
    {
      ring.Length == RING_N && log.Valid() && Minus(head, tail) <= RING_N
    }

    /** The records waiting, oldest first. */
    ghost function Waiting(): (ps: seq<Pending>)
      requires ring.Length == RING_N
      reads this, ring
      ensures |ps| == Minus(head, tail)
    {
      Stretch(ring[..], tail, Minus(head, tail))
    }

    /** push: a full ring drops the event. */
    method PushEvent(ev: Pending) returns (accepted: bool)
      requires Valid()
      modifies this`head, ring
      ensures Valid() && accepted == (|old(Waiting())| < 32)
      ensures Waiting() == if accepted then old(Waiting()) + [ev] else old(Waiting())
    {
      var h := head;
      if Minus(h, tail) >= RING_N {
        return false;
      }
      ghost var count := Minus(h, tail);
      ghost var before := ring[..];
      HeadIs(head, tail);
      WrapSlot(tail + count);
      ring[h % RING_N] := ev;
      head := (h + 1) % TWO_32;
      Pushed(before, tail, count, ev);
      WrapNext(tail + count);
      Counted(tail, count + 1);
      accepted := true;
    }

    /** Up to 16 records from the tail on, copied out. */
    method TakeBatch() returns (batch: seq<Pending>, t: u32)
      requires Valid()
      ensures |batch| <= |Waiting()| && |batch| == (if |Waiting()| <= 16 then |Waiting()| else 16)
      ensures batch == Waiting()[..|batch|] && t == Wrap(tail + |batch|)
    {
      batch, t := [], tail;
      HeadIs(head, tail);
      while t != head && |batch| < BATCH
        invariant |batch| <= |Waiting()| && |batch| <= BATCH && t == Wrap(tail + |batch|)
        invariant batch == Waiting()[..|batch|]
        decreases BATCH - |batch|
      {
        NotYet(head, tail, |batch|);
        WrapSlot(tail + |batch|);
        WrapNext(tail + |batch|);
        assert Waiting()[..|batch| + 1] == Waiting()[..|batch|] + [Waiting()[|batch|]];
        batch := batch + [ring[t % RING_N]];
        t := (t + 1) % TWO_32;
      }
      if t == head {
        NotYet(head, tail, |batch|);
      }
    }

    /** One batch: copied out, appended, and released whatever the flash made of it. */
    method DrainBatch(fate: Fate) returns (n: nat)
      requires Valid() && log.powered
      modifies this`tail, log, log.part
      ensures Valid() && n == (if |old(Waiting())| <= BATCH then |old(Waiting())| else BATCH)
      ensures n == 0 ==> log.View() == old(log.View())
      ensures n > 0 ==>
        log.View() == Append(old(log.View()), MakeRecs(old(Waiting())[..n], old(log.bootSeq)), fate, log.Slots())
      ensures log.powered ==> Waiting() == old(Waiting())[n..]
      ensures log.powered <==> n == 0 || !fate.Cut?
    {
      hide Append;
      hide Stretch;
      hide Minus;
      var batch, t := TakeBatch();
      n := |batch|;
      if n == 0 {
        return;
      }
      AppendPower(log.View(), MakeRecs(batch, log.bootSeq), fate, log.Slots());
      Released(ring[..], head, tail, n);
      log.FlashAppend(MakeRecs(batch, log.bootSeq), fate);
      if !fate.Cut? {
        tail := t;
      }
    }

    /** drainLocked: everything waiting goes to the journal in order, in batches; unless the power
        fails the ring is empty afterwards, whether or not the flash took the records. */
    method DrainLocked(fate: nat -> Fate) returns (total: nat)
      requires Valid() && log.powered
      modifies this`tail, log, log.part
      ensures Valid() && log.View() == Drained(old(log.View()), old(Waiting()), fate, 0, log.Slots())
      ensures log.powered ==> Waiting() == [] && total == |old(Waiting())|
    {
      hide Append;
      hide Stretch;
      hide Minus;
      total := 0;
      ghost var all := Waiting();
      ghost var st := log.View();
      var i := 0;
      while true
        invariant Valid() && log.powered && total <= |all| && Waiting() == all[total..]
        invariant Drained(st, all, fate, 0, log.Slots()) == Drained(log.View(), all[total..], fate, i, log.Slots())
        decreases |all| - total
      {
        ghost var before := log.View();
        ghost var left := Waiting();
        var outcome := fate(i);
        var n := DrainBatch(outcome);
        if n == 0 {
          return;
        }
        DrainedStep(before, left, fate, i, log.Slots(), left[..n]);
        assert left[n..] == all[total + n..];
        if outcome.Cut? {
          return;
        }
        total := total + n;
        i := i + 1;
      }
    }
  }

  /** Only a power failure stops the drain. */
  lemma AppendPower(st: State, recs: seq<Rec>, fate: Fate, n: nat)
    requires Fits(st, n) && |recs| <= n && st.powered
    ensures Append(st, recs, fate, n).powered <==> !fate.Cut?
  {
  }

  lemma DrainedStep(st: State, ps: seq<Pending>, fate: nat -> Fate, k: nat, n: nat,
                    batch: seq<Pending>)
    requires Fits(st, n) && n >= 16 && st.powered && ps != []
    requires batch == ps[..if |ps| <= BATCH then |ps| else BATCH]
    ensures var next := Append(st, MakeRecs(batch, st.boot), fate(k), n);
      Drained(st, ps, fate, k, n) == if next.powered then Drained(next, ps[|batch|..], fate, k + 1, n) else next
  {
    hide Append;
  }

  /** `n` records from slot `from` on, around the ring. */
  function Stretch(ring: seq<Pending>, from: nat, n: nat): (ps: seq<Pending>)
    requires |ring| == RING_N
    ensures |ps| == n
  {
    seq(n, i requires 0 <= i < n => ring[(from + i) % RING_N])
  }

  lemma HeadIs(head: u32, tail: u32)
    ensures head == Wrap(tail + Minus(head, tail))
  {
  }

  lemma Counted(tail: u32, n: nat)
    requires n < TWO_32
    ensures Minus(Wrap(tail + n), tail) == n
  {
    MinusWrap(tail + n, tail);
    assert Wrap(tail) == tail;
  }

  lemma NotYet(head: u32, tail: u32, n: nat)
    requires n <= Minus(head, tail)
    ensures Wrap(tail + n) == head <==> n == Minus(head, tail)
  {
    HeadIs(head, tail);
    Counted(tail, n);
  }

  lemma Pushed(ring: seq<Pending>, tail: nat, n: nat, ev: Pending)
    requires |ring| == RING_N && n < RING_N
    ensures Stretch(ring[(tail + n) % RING_N := ev], tail, n + 1) == Stretch(ring, tail, n) + [ev]
  {
    var was, now := Stretch(ring, tail, n), Stretch(ring[(tail + n) % RING_N := ev], tail, n + 1);
    forall i | 0 <= i < n
      ensures now[i] == was[i]
    {
      SlotsApart(tail + i, tail + n);
    }
  }

  lemma Released(ring: seq<Pending>, head: u32, tail: u32, n: nat)
    requires |ring| == RING_N && n <= Minus(head, tail)
    ensures Minus(head, Wrap(tail + n)) == Minus(head, tail) - n
    ensures Stretch(ring, Wrap(tail + n), Minus(head, tail) - n) == Stretch(ring, tail, Minus(head, tail))[n..]
  {
    var c := Minus(head, tail);
    HeadIs(head, tail);
    MinusWrap(tail + c, tail + n);
    Shifted(ring, tail, n, c - n);
  }

  lemma Shifted(ring: seq<Pending>, tail: nat, n: nat, m: nat)
    requires |ring| == RING_N
    ensures Stretch(ring, Wrap(tail + n), m) == Stretch(ring, tail, n + m)[n..]
  {
    var was, now := Stretch(ring, tail, n + m), Stretch(ring, Wrap(tail + n), m);
    forall i | 0 <= i < m
      ensures now[i] == was[n + i]
    {
      WrapSlot(tail + n);
      SameSlot(Wrap(tail + n), tail + n, i);
    }
  }

  lemma SameSlot(a: nat, b: nat, i: nat)
    requires a % RING_N == b % RING_N
    ensures (a + i) % RING_N == (b + i) % RING_N
  {
    ModShift(a % RING_N + i, a / RING_N);
    ModShift(b % RING_N + i, b / RING_N);
  }
}
