/** evlog.cpp: the lock-free ring between the control task (one producer, push) and the drain (one
    consumer), as a machine whose steps are the single memory accesses of the two, interleaved in
    any order. The indices are free-running 32-bit counters. `flashed` is what the flash was given and
    took; `accepted`, `released` and `stored` are history: the pushes that went in, how many of them
    are released, and which of them each flashed record is meant to be. */
module Ring {
  import opened Prelude
  import opened Bits
  import opened Journal

  const RING_N: nat := 32
  const BATCH: nat := 16

  /** Where push stands. `h` is its local copy of m_head. */
  datatype Producer = Away
    | Loaded(ev: Pending, h: u32)     // m_head read
    | Cleared(ev: Pending, h: u32)    // not full
    | CodeSet(ev: Pending, h: u32)
    | TimeSet(ev: Pending, h: u32)
    | DataSet(ev: Pending, h: u32)    // m_head still to be stored

  /** Where the drain stands. `t` is its running copy of m_tail, `hd` its copy of m_head. */
  datatype Consumer = Resting
    | Top
    | TailRead(t: u32)
    | Copying(t: u32, hd: u32, batch: seq<Pending>)
    | CodeRead(t: u32, hd: u32, batch: seq<Pending>, code: u8)
    | TimeRead(t: u32, hd: u32, batch: seq<Pending>, code: u8, tMs: u32)
    | Appending(t: u32, batch: seq<Pending>)
    | Releasing(t: u32, n: nat)

  datatype Machine = Machine(ring: seq<Pending>, head: u32, tail: u32, prod: Producer, cons: Consumer,
                             flashed: seq<Pending>, accepted: seq<Pending>, released: nat, stored: seq<nat>)

  /** What the scheduler and the world decide: a push begins, a drain begins, one of the two takes its
      next step; `flashOk` is the outcome of a flash append. */
  datatype Act = Push(ev: Pending) | PushStep | Drain | DrainStep(flashOk: bool)

  function Wrap(n: nat): u32
  {
    n % TWO_32
  }

  /** Difference of free-running indices. */
  function Minus(a: u32, b: u32): u32
  {
    (a + TWO_32 - b) % TWO_32
  }

  function PushNext(m: Machine): Machine
    requires |m.ring| == RING_N
  {
    match m.prod
    case Away => m
    case Loaded(ev, h) => m.(prod := if Minus(h, m.tail) >= RING_N then Away else Cleared(ev, h))
    case Cleared(ev, h) =>
      m.(ring := m.ring[h % RING_N := m.ring[h % RING_N].(code := ev.code)], prod := CodeSet(ev, h))
    case CodeSet(ev, h) =>
      m.(ring := m.ring[h % RING_N := m.ring[h % RING_N].(tMs := ev.tMs)], prod := TimeSet(ev, h))
    case TimeSet(ev, h) =>
      m.(ring := m.ring[h % RING_N := m.ring[h % RING_N].(data := ev.data)], prod := DataSet(ev, h))
    case DataSet(ev, h) => m.(head := Wrap(h + 1), prod := Away, accepted := m.accepted + [ev])
  }

  function Indices(from: nat, n: nat): (s: seq<nat>)
    ensures |s| == n && forall i :: 0 <= i < n ==> s[i] == from + i
  {
    seq(n, i requires 0 <= i < n => from + i)
  }

  function DrainNext(m: Machine, flashOk: bool): Machine
    requires |m.ring| == RING_N
  {
    match m.cons
    case Resting => m
    case Top => m.(cons := TailRead(m.tail))
    case TailRead(t) => m.(cons := Copying(t, m.head, []))
    case Copying(t, hd, batch) =>
      if t != hd && |batch| < BATCH then m.(cons := CodeRead(t, hd, batch, m.ring[t % RING_N].code))
      else m.(cons := if batch == [] then Resting else Appending(t, batch))
    case CodeRead(t, hd, batch, code) => m.(cons := TimeRead(t, hd, batch, code, m.ring[t % RING_N].tMs))
    case TimeRead(t, hd, batch, code, tMs) =>
      m.(cons := Copying(Wrap(t + 1), hd, batch + [Pending(code, tMs, m.ring[t % RING_N].data)]))
    case Appending(t, batch) =>
      if flashOk then
        m.(cons := Releasing(t, |batch|), flashed := m.flashed + batch,
           stored := m.stored + Indices(m.released, |batch|))
      else m.(cons := Releasing(t, |batch|))
    case Releasing(t, n) => m.(tail := t, cons := Top, released := m.released + n)
  }

  function Step(m: Machine, act: Act): (after: Machine)
    requires |m.ring| == RING_N
    ensures |after.ring| == RING_N
  {
    match act
    case Push(ev) => if m.prod == Away then m.(prod := Loaded(ev, m.head)) else m
    case PushStep => PushNext(m)
    case Drain => if m.cons == Resting then m.(cons := Top) else m
    case DrainStep(ok) => DrainNext(m, ok)
  }

  /** Power-up, then the first `k` of any sequence of steps. */
  function After(acts: seq<Act>, k: nat, ring: seq<Pending>): (m: Machine)
    requires k <= |acts| && |ring| == RING_N
    ensures |m.ring| == RING_N
  {
    if k == 0 then Machine(ring, 0, 0, Away, Resting, [], [], 0, [])
    else Step(After(acts, k - 1, ring), acts[k - 1])
  }

  // ───────────── The invariant ─────────────

  predicate Shared(m: Machine)
    requires |m.ring| == RING_N
  {
    m.released <= |m.accepted| <= m.released + RING_N &&
    m.head == Wrap(|m.accepted|) && m.tail == Wrap(m.released) &&
    forall i :: m.released <= i < |m.accepted| ==> m.ring[i % RING_N] == m.accepted[i]
  }

  predicate ProducerOk(m: Machine)
    requires |m.ring| == RING_N
  {
    var room := |m.accepted| < m.released + RING_N;
    match m.prod
    case Away => true
    case Loaded(ev, h) => h == m.head
    case Cleared(ev, h) => h == m.head && room
    case CodeSet(ev, h) => h == m.head && room && m.ring[h % RING_N].code == ev.code
    case TimeSet(ev, h) => h == m.head && room && m.ring[h % RING_N].(data := ev.data) == ev
    case DataSet(ev, h) => h == m.head && room && m.ring[h % RING_N] == ev
  }

  /** `batch` is the oldest unreleased records, and `t` stands after it. */
  predicate Oldest(m: Machine, t: u32, batch: seq<Pending>)
  {
    m.released + |batch| <= |m.accepted| && |batch| <= BATCH &&
    t == Wrap(m.released + |batch|) && batch == m.accepted[m.released..m.released + |batch|]
  }

  /** The copied head `hd` is one the consumer may read up to. */
  predicate Within(m: Machine, hd: u32, n: nat)
  {
    n <= Minus(hd, m.tail) && m.released + Minus(hd, m.tail) <= |m.accepted| <= m.released + RING_N
  }

  predicate ConsumerOk(m: Machine)
  {
    match m.cons
    case Resting => true
    case Top => true
    case TailRead(t) => t == m.tail
    case Copying(t, hd, batch) => Oldest(m, t, batch) && Within(m, hd, |batch|)
    case CodeRead(t, hd, batch, code) =>
      Oldest(m, t, batch) && Within(m, hd, |batch| + 1) && |batch| < BATCH &&
      code == m.accepted[m.released + |batch|].code
    case TimeRead(t, hd, batch, code, tMs) =>
      Oldest(m, t, batch) && Within(m, hd, |batch| + 1) && |batch| < BATCH &&
      code == m.accepted[m.released + |batch|].code && tMs == m.accepted[m.released + |batch|].tMs
    case Appending(t, batch) => Oldest(m, t, batch)
    case Releasing(t, n) => m.released + n <= |m.accepted| && t == Wrap(m.released + n)
  }

  /** The records the drain has finished with, one way or the other. */
  function Handled(m: Machine): nat
  {
    m.released + if m.cons.Releasing? then m.cons.n else 0
  }

  /** Positions in `accepted`, strictly increasing: nothing is stored twice or out of order. */
  predicate InOrder(m: Machine)
  {
    (forall i, j :: 0 <= i < j < |m.stored| ==> m.stored[i] < m.stored[j]) &&
    (forall i :: 0 <= i < |m.stored| ==> m.stored[i] < Handled(m))
  }

  /** Each flashed record is, word for word, the accepted push it stands for. */
  predicate Genuine(m: Machine)
  {
    |m.flashed| == |m.stored| &&
    forall i :: 0 <= i < |m.stored| ==> m.stored[i] < |m.accepted| && m.flashed[i] == m.accepted[m.stored[i]]
  }

  predicate Ok(m: Machine)
    requires |m.ring| == RING_N
  {
    Shared(m) && ProducerOk(m) && ConsumerOk(m) && InOrder(m) && Genuine(m)
  }

  // ───────────── Index arithmetic ─────────────

  /** The ring size divides the counter's range, so wrapping does not move slots. */
  lemma WrapSlot(n: nat)
    ensures Wrap(n) % RING_N == n % RING_N
  {
    var q := n / TWO_32;
    assert n == RING_N * (134217728 * q) + Wrap(n);
    ModShift(Wrap(n), 134217728 * q);
  }

  lemma ModShift(r: nat, q: nat)
    ensures (RING_N * q + r) % RING_N == r % RING_N
  {
  }

  lemma WrapNext(n: nat)
    ensures Wrap(Wrap(n) + 1) == Wrap(n + 1)
  {
  }

  /** Differences of less than the range survive the wrap. */
  lemma MinusWrap(a: nat, b: nat)
    requires b <= a < b + TWO_32
    ensures Minus(Wrap(a), Wrap(b)) == a - b
  {
    var d := a - b;
    var q := b / TWO_32;
    assert b == TWO_32 * q + Wrap(b);
    if Wrap(b) + d < TWO_32 {
      ModUnique(a, q, Wrap(b) + d);
    } else {
      ModUnique(a, q + 1, Wrap(b) + d - TWO_32);
    }
  }

  lemma ModUnique(a: nat, q: nat, r: nat)
    requires a == TWO_32 * q + r && r < TWO_32
    ensures a % TWO_32 == r
  {
  }

  /** Among live positions, different positions are different slots. */
  lemma SlotsApart(i: nat, j: nat)
    requires i < j < i + RING_N
    ensures i % RING_N != j % RING_N
  {
  }

  // ───────────── Every step keeps it ─────────────

  /** The producer's slot is not a live one. */
  lemma FreeSlot(m: Machine, p: Pending, m': Machine)
    requires |m.ring| == RING_N && Shared(m) && |m.accepted| < m.released + RING_N
    requires m'.ring == m.ring[m.head % RING_N := p] && m'.head == m.head && m'.tail == m.tail
    requires m'.accepted == m.accepted && m'.released == m.released
    ensures Shared(m')
  {
    WrapSlot(|m.accepted|);
    forall i | m.released <= i < |m.accepted|
      ensures i % RING_N != m.head % RING_N
    {
      SlotsApart(i, |m.accepted|);
    }
  }

  lemma Published(m: Machine, ev: Pending, m': Machine)
    requires |m.ring| == RING_N && Shared(m) && |m.accepted| < m.released + RING_N && m.ring[m.head % RING_N] == ev
    requires m'.ring == m.ring && m'.head == Wrap(m.head + 1) && m'.tail == m.tail
    requires m'.accepted == m.accepted + [ev] && m'.released == m.released
    ensures Shared(m')
  {
    WrapSlot(|m.accepted|);
    WrapNext(|m.accepted|);
  }

  lemma PushShared(m: Machine)
    requires |m.ring| == RING_N && Shared(m) && ProducerOk(m)
    ensures Shared(PushNext(m))
  {
    hide Shared;
    match m.prod
    case Away =>
    case Loaded(ev, h) => SameShared(m, PushNext(m));
    case Cleared(ev, h) => FreeSlot(m, m.ring[h % RING_N].(code := ev.code), PushNext(m));
    case CodeSet(ev, h) => FreeSlot(m, m.ring[h % RING_N].(tMs := ev.tMs), PushNext(m));
    case TimeSet(ev, h) => FreeSlot(m, m.ring[h % RING_N].(data := ev.data), PushNext(m));
    case DataSet(ev, h) => Published(m, ev, PushNext(m));
  }

  lemma SameShared(m: Machine, m': Machine)
    requires |m.ring| == RING_N && Shared(m)
    requires m'.ring == m.ring && m'.head == m.head && m'.tail == m.tail
    requires m'.accepted == m.accepted && m'.released == m.released
    ensures Shared(m')
  {
  }

  lemma PushProducer(m: Machine)
    requires |m.ring| == RING_N && Shared(m) && ProducerOk(m)
    ensures ProducerOk(PushNext(m))
  {
    if m.prod.Loaded? {
      MinusWrap(|m.accepted|, m.released);
    }
  }

  lemma PushConsumer(m: Machine)
    requires |m.ring| == RING_N && Shared(m) && ProducerOk(m) && ConsumerOk(m)
    ensures ConsumerOk(PushNext(m)) && (InOrder(m) ==> InOrder(PushNext(m)))
  {
    PushGrows(m);
    GrowsConsumer(m, PushNext(m));
  }

  /** What a push step can do to the consumer: nothing, or one more record. */
  lemma PushGrows(m: Machine)
    requires |m.ring| == RING_N && Shared(m) && ProducerOk(m)
    ensures var n := PushNext(m);
      n.cons == m.cons && n.tail == m.tail && n.released == m.released && n.stored == m.stored &&
      n.flashed == m.flashed && m.accepted <= n.accepted && |n.accepted| <= n.released + RING_N
  {
  }

  lemma GrowsConsumer(m: Machine, n: Machine)
    requires ConsumerOk(m)
    requires n.cons == m.cons && n.tail == m.tail && n.released == m.released && n.stored == m.stored
    requires m.accepted <= n.accepted && |n.accepted| <= n.released + RING_N
    ensures ConsumerOk(n) && (InOrder(m) ==> InOrder(n))
  {
  }

  lemma PushGenuine(m: Machine)
    requires |m.ring| == RING_N && Shared(m) && ProducerOk(m) && Genuine(m)
    ensures Genuine(PushNext(m))
  {
    hide PushNext;
    PushGrows(m);
  }

  lemma PushNextOk(m: Machine)
    requires |m.ring| == RING_N && Ok(m)
    ensures Ok(PushNext(m))
  {
    hide Shared;
    hide ProducerOk;
    hide ConsumerOk;
    hide InOrder;
    hide Genuine;
    hide PushNext;
    PushShared(m);
    PushProducer(m);
    PushConsumer(m);
    PushGenuine(m);
  }

  lemma DrainShared(m: Machine, flashOk: bool)
    requires |m.ring| == RING_N && Shared(m) && ConsumerOk(m)
    ensures Shared(DrainNext(m, flashOk))
  {
  }

  lemma DrainProducer(m: Machine, flashOk: bool)
    requires |m.ring| == RING_N && Shared(m) && ProducerOk(m) && ConsumerOk(m)
    ensures ProducerOk(DrainNext(m, flashOk))
  {
  }

  /** Reading the head makes every record up to it the consumer's. */
  lemma HeadRead(m: Machine)
    requires |m.ring| == RING_N && Shared(m)
    ensures Oldest(m, m.tail, []) && Within(m, m.head, 0)
  {
    MinusWrap(|m.accepted|, m.released);
  }

  /** While the copied head is ahead, the next slot holds the next record. */
  lemma NextSlot(m: Machine, t: u32, hd: u32, batch: seq<Pending>)
    requires |m.ring| == RING_N && Shared(m) && Oldest(m, t, batch) && Within(m, hd, |batch|)
    ensures t != hd <==> |batch| < Minus(hd, m.tail)
    ensures |batch| < Minus(hd, m.tail) ==> m.ring[t % RING_N] == m.accepted[m.released + |batch|]
  {
    var c := m.released + |batch|;
    MinusWrap(c, m.released);
    WrapSlot(c);
    if |batch| == Minus(hd, m.tail) {
      MinusInjective(t, hd, m.tail);
    }
  }

  lemma MinusInjective(a: u32, b: u32, c: u32)
    requires Minus(a, c) == Minus(b, c)
    ensures a == b
  {
  }

  /** One more record taken. */
  lemma Longer(m: Machine, t: u32, batch: seq<Pending>, p: Pending)
    requires Oldest(m, t, batch) && |batch| < BATCH && m.released + |batch| < |m.accepted|
    requires p == m.accepted[m.released + |batch|]
    ensures Oldest(m, Wrap(t + 1), batch + [p])
  {
    WrapNext(m.released + |batch|);
    var c := m.released + |batch|;
    assert m.accepted[m.released..c + 1] == m.accepted[m.released..c] + [m.accepted[c]];
  }

  lemma TakeNext(m: Machine, t: u32, hd: u32, batch: seq<Pending>, p: Pending)
    requires |m.ring| == RING_N && Shared(m) && Oldest(m, t, batch) && Within(m, hd, |batch| + 1) && |batch| < BATCH
    requires p == m.accepted[m.released + |batch|]
    ensures p == m.ring[t % RING_N] && Oldest(m, Wrap(t + 1), batch + [p])
  {
    hide Shared;
    hide Oldest;
    NextSlot(m, t, hd, batch);
    OldestEnds(m, t, batch);
    Longer(m, t, batch, p);
  }

  lemma OldestEnds(m: Machine, t: u32, batch: seq<Pending>)
    requires Oldest(m, t, batch)
    ensures |batch| <= BATCH && m.released + |batch| <= |m.accepted|
  {
  }

  /** What a drain step leaves alone: the queue itself. */
  lemma SameQueue(m: Machine, m': Machine, t: u32, batch: seq<Pending>, hd: u32, n: nat)
    requires m'.tail == m.tail && m'.released == m.released && m'.accepted == m.accepted
    ensures Oldest(m, t, batch) ==> Oldest(m', t, batch)
    ensures Within(m, hd, n) ==> Within(m', hd, n)
  {
  }

  lemma DrainConsumer(m: Machine, flashOk: bool)
    requires |m.ring| == RING_N && Shared(m) && ConsumerOk(m)
    ensures ConsumerOk(DrainNext(m, flashOk))
  {
    hide Shared;
    hide Oldest;
    hide Within;
    hide Wrap;
    hide Minus;
    hide Indices;
    var m' := DrainNext(m, flashOk);
    match m.cons
    case Resting =>
    case Top =>
    case TailRead(t) =>
      HeadRead(m);
      SameQueue(m, m', t, [], m.head, 0);
    case Copying(t, hd, batch) =>
      OldestEnds(m, t, batch);
      NextSlot(m, t, hd, batch);
      SameQueue(m, m', t, batch, hd, |batch| + 1);
      WithinMore(m, hd, |batch|);
    case CodeRead(t, hd, batch, code) =>
      OldestNext(m, t, hd, batch);
      SameQueue(m, m', t, batch, hd, |batch| + 1);
    case TimeRead(t, hd, batch, code, tMs) =>
      OldestNext(m, t, hd, batch);
      TakeNext(m, t, hd, batch, m.accepted[m.released + |batch|]);
      SameQueue(m, m', Wrap(t + 1), batch + [m.accepted[m.released + |batch|]], hd, |batch| + 1);
    case Appending(t, batch) => AppendedEnds(m, t, batch);
    case Releasing(t, n) =>
  }

  lemma WithinMore(m: Machine, hd: u32, n: nat)
    requires Within(m, hd, n)
    ensures n < Minus(hd, m.tail) ==> Within(m, hd, n + 1)
    ensures n < Minus(hd, m.tail) ==> m.released + n < |m.accepted|
  {
  }

  lemma OldestNext(m: Machine, t: u32, hd: u32, batch: seq<Pending>)
    requires |m.ring| == RING_N && Shared(m) && Oldest(m, t, batch) && Within(m, hd, |batch| + 1)
    ensures m.released + |batch| < |m.accepted|
    ensures m.ring[t % RING_N] == m.accepted[m.released + |batch|]
  {
    hide Shared;
    hide Oldest;
    NextSlot(m, t, hd, batch);
  }

  lemma AppendedEnds(m: Machine, t: u32, batch: seq<Pending>)
    requires Oldest(m, t, batch)
    ensures m.released + |batch| <= |m.accepted| && t == Wrap(m.released + |batch|)
  {
  }

  lemma DrainOrder(m: Machine, flashOk: bool)
    requires |m.ring| == RING_N && ConsumerOk(m) && InOrder(m)
    ensures InOrder(DrainNext(m, flashOk))
  {
  }

  /** What was copied out of the ring is what was pushed. */
  lemma DrainGenuine(m: Machine, flashOk: bool)
    requires |m.ring| == RING_N && ConsumerOk(m) && Genuine(m)
    ensures Genuine(DrainNext(m, flashOk))
  {
    if m.cons.Appending? && flashOk {
      BatchGenuine(m, m.cons.t, m.cons.batch, DrainNext(m, flashOk));
    }
  }

  lemma BatchGenuine(m: Machine, t: u32, batch: seq<Pending>, n: Machine)
    requires Genuine(m) && Oldest(m, t, batch)
    requires n.accepted == m.accepted && n.flashed == m.flashed + batch
    requires n.stored == m.stored + Indices(m.released, |batch|)
    ensures Genuine(n)
  {
    forall i | |m.stored| <= i < |n.stored|
      ensures n.stored[i] < |n.accepted| && n.flashed[i] == n.accepted[n.stored[i]]
    {
      var j := i - |m.stored|;
      assert n.stored[i] == m.released + j && n.flashed[i] == batch[j];
    }
  }

  lemma DrainNextOk(m: Machine, flashOk: bool)
    requires |m.ring| == RING_N && Ok(m)
    ensures Ok(DrainNext(m, flashOk))
  {
    hide Shared;
    hide ProducerOk;
    hide ConsumerOk;
    hide InOrder;
    hide Genuine;
    hide DrainNext;
    DrainShared(m, flashOk);
    DrainProducer(m, flashOk);
    DrainConsumer(m, flashOk);
    DrainOrder(m, flashOk);
    DrainGenuine(m, flashOk);
  }

  lemma StepOk(m: Machine, act: Act)
    requires |m.ring| == RING_N && Ok(m)
    ensures Ok(Step(m, act))
  {
    match act
    case Push(ev) =>
    case PushStep => PushNextOk(m);
    case Drain =>
    case DrainStep(ok) => DrainNextOk(m, ok);
  }

  // ───────────── The ring over every interleaving ─────────────

  /** A queue of at most 32: the slots from the tail to the head hold the accepted and unreleased
      records in order, across wraps of the counters, and their difference counts them. */
  lemma {:induction false} Fifo(acts: seq<Act>, k: nat, ring: seq<Pending>)
    requires k <= |acts| && |ring| == RING_N
    ensures Ok(After(acts, k, ring))
    ensures var m := After(acts, k, ring);
      Minus(m.head, m.tail) == |m.accepted| - m.released <= 32
    decreases k
  {
    hide Step;
    if k > 0 {
      Fifo(acts, k - 1, ring);
      StepOk(After(acts, k - 1, ring), acts[k - 1]);
    }
    var m := After(acts, k, ring);
    MinusWrap(|m.accepted|, m.released);
  }

  /** No step changes a slot that holds an unreleased record. */
  lemma NoOverwrite(acts: seq<Act>, k: nat, ring: seq<Pending>, i: nat)
    requires k < |acts| && |ring| == RING_N
    requires After(acts, k, ring).released <= i < |After(acts, k, ring).accepted|
    ensures After(acts, k + 1, ring).ring[i % RING_N] == After(acts, k, ring).ring[i % RING_N]
  {
    Fifo(acts, k, ring);
    WriteElsewhere(After(acts, k, ring), acts[k], i);
  }

  lemma WriteElsewhere(m: Machine, act: Act, i: nat)
    requires |m.ring| == RING_N && Ok(m) && m.released <= i < |m.accepted|
    ensures Step(m, act).ring[i % RING_N] == m.ring[i % RING_N]
  {
    hide ConsumerOk;
    hide InOrder;
    var h := |m.accepted|;
    WrapSlot(h);
    if h < m.released + RING_N {
      SlotsApart(i, h);
    }
  }

  /** The records on flash are pushes that were accepted, unaltered, in the order of their pushes and
      none twice; a push may be missing, if the flash refused it. */
  lemma {:induction false} AtMostOnce(acts: seq<Act>, k: nat, ring: seq<Pending>)
    requires k <= |acts| && |ring| == RING_N
    ensures var m := After(acts, k, ring);
      (|m.flashed| == |m.stored| && Handled(m) <= |m.accepted| &&
       (forall i :: 0 <= i < |m.flashed| ==> m.stored[i] < Handled(m) && m.flashed[i] == m.accepted[m.stored[i]]) &&
       (forall i, j :: 0 <= i < j < |m.flashed| ==> m.stored[i] < m.stored[j]))
  {
    Fifo(acts, k, ring);
  }

  predicate FlashNeverFails(acts: seq<Act>)
  {
    forall i :: 0 <= i < |acts| ==> acts[i] != DrainStep(false)
  }

  /** If flash never fails, exactly once: it holds the accepted pushes, all those handled so far. */
  lemma {:induction false} ExactlyOnce(acts: seq<Act>, k: nat, ring: seq<Pending>)
    requires k <= |acts| && |ring| == RING_N && FlashNeverFails(acts)
    ensures var m := After(acts, k, ring);
      Handled(m) <= |m.accepted| && m.flashed == m.accepted[..Handled(m)]
  {
    hide Step;
    AtMostOnce(acts, k, ring);
    StoredAll(acts, k, ring);
  }

  lemma {:induction false} StoredAll(acts: seq<Act>, k: nat, ring: seq<Pending>)
    requires k <= |acts| && |ring| == RING_N && FlashNeverFails(acts)
    ensures After(acts, k, ring).stored == Indices(0, Handled(After(acts, k, ring)))
    decreases k
  {
    hide Step;
    if k > 0 {
      StoredAll(acts, k - 1, ring);
      StepStores(After(acts, k - 1, ring), acts[k - 1]);
    }
  }

  lemma StepStores(m: Machine, act: Act)
    requires |m.ring| == RING_N && act != DrainStep(false) && m.stored == Indices(0, Handled(m))
    ensures Step(m, act).stored == Indices(0, Handled(Step(m, act)))
  {
    hide Indices;
    if act.DrainStep? && m.cons.Appending? {
      IndicesJoin(m.released, |m.cons.batch|);
    }
  }

  lemma IndicesJoin(a: nat, n: nat)
    ensures Indices(0, a) + Indices(a, n) == Indices(0, a + n)
  {
  }

  // ───────────── When a drain comes to rest ─────────────

  /** Step `j` reads m_head, and nothing happens to the consumer from then until `k`. */
  ghost predicate LastHeadRead(acts: seq<Act>, j: nat, k: nat, ring: seq<Pending>)
    requires |ring| == RING_N && k <= |acts|
  {
    j < k && After(acts, j, ring).cons.TailRead? && acts[j].DrainStep? &&
    forall i :: j < i <= k ==> After(acts, i, ring).cons == After(acts, j + 1, ring).cons
  }

  /** A consumer with an empty batch has only just read the head. */
  lemma {:induction false} HeadReadBefore(acts: seq<Act>, k: nat, ring: seq<Pending>) returns (j: nat)
    requires k <= |acts| && |ring| == RING_N
    requires After(acts, k, ring).cons.Copying? && After(acts, k, ring).cons.batch == []
    ensures LastHeadRead(acts, j, k, ring)
    ensures After(acts, k, ring).cons.hd == After(acts, j, ring).head
    ensures After(acts, k, ring).released == After(acts, j, ring).released
    decreases k
  {
    hide PushNext;
    var i := k - 1;
    OneBefore(After(acts, i, ring), acts[i]);
    if After(acts, i, ring).cons.TailRead? {
      j := i;
    } else {
      j := HeadReadBefore(acts, i, ring);
    }
  }

  lemma PushLeavesConsumer(m: Machine)
    requires |m.ring| == RING_N
    ensures PushNext(m).cons == m.cons && PushNext(m).released == m.released
  {
  }

  lemma OneBefore(m: Machine, act: Act)
    requires |m.ring| == RING_N && Step(m, act).cons.Copying? && Step(m, act).cons.batch == []
    ensures Step(m, act).released == m.released
    ensures (m.cons.TailRead? && act.DrainStep? && Step(m, act).cons.hd == m.head) || m.cons == Step(m, act).cons
  {
    hide PushNext;
    PushLeavesConsumer(m);
  }

  /** A drain that comes to rest has released everything that was accepted when it last read m_head;
      what was pushed since waits for the next drain. */
  lemma DrainEmpties(acts: seq<Act>, k: nat, ring: seq<Pending>) returns (j: nat)
    requires k < |acts| && |ring| == RING_N
    requires !After(acts, k, ring).cons.Resting? && After(acts, k + 1, ring).cons.Resting?
    ensures LastHeadRead(acts, j, k, ring)
    ensures After(acts, k + 1, ring).released == |After(acts, j, ring).accepted|
  {
    var m := After(acts, k, ring);
    RestsFrom(m, acts[k]);
    j := HeadReadBefore(acts, k, ring);
    Fifo(acts, k, ring);
    Fifo(acts, j, ring);
    var was := After(acts, j, ring);
    hide Step;
    MinusWrap(|was.accepted|, was.released);
    MinusWrap(m.released, m.released);
  }

  lemma RestsFrom(m: Machine, act: Act)
    requires |m.ring| == RING_N && !m.cons.Resting? && Step(m, act).cons.Resting?
    ensures m.cons.Copying? && m.cons.batch == [] && m.cons.t == m.cons.hd && Step(m, act).released == m.released
  {
    hide PushNext;
    PushLeavesConsumer(m);
  }

  /** A push is dropped iff 32 records are waiting when it reads m_tail; if not, it goes in. */
  lemma {:induction false} RefusedExactly(acts: seq<Act>, k: nat, ring: seq<Pending>)
    requires k < |acts| && |ring| == RING_N && acts[k].PushStep? && After(acts, k, ring).prod.Loaded?
    ensures var m, next := After(acts, k, ring), After(acts, k + 1, ring);
      next.accepted == m.accepted && next.released == m.released &&
      (next.prod.Away? <==> |m.accepted| - m.released == 32) &&
      (next.prod.Away? || next.prod.Cleared?)
  {
    Fifo(acts, k, ring);
    var m := After(acts, k, ring);
    MinusWrap(|m.accepted|, m.released);
  }

  /** The shape of the run below: a drain up to its reading of the head, a whole push, and a last step. */
  predicate LateRun(acts: seq<Act>, ev: Pending)
  {
    acts == [Act.Drain, DrainStep(true), DrainStep(true), Push(ev)] +
            [PushStep, PushStep, PushStep, PushStep, PushStep, DrainStep(true)]
  }

  lemma {:induction false} LateRunReads(ring: seq<Pending>, ev: Pending, acts: seq<Act>)
    requires |ring| == RING_N && LateRun(acts, ev)
    ensures After(acts, 3, ring) == Machine(ring, 0, 0, Away, Copying(0, 0, []), [], [], 0, [])
  {
    var m0 := After(acts, 0, ring);
    assert After(acts, 1, ring) == m0.(cons := Top);
    assert After(acts, 2, ring) == m0.(cons := TailRead(0));
  }

  /** Five push steps from the loaded producer of an empty ring. */
  lemma WholePush(m: Machine, ev: Pending)
    requires |m.ring| == RING_N && m.prod == Loaded(ev, 0) && m.tail == 0
    ensures var n := PushNext(PushNext(PushNext(PushNext(PushNext(m)))));
      n.cons == m.cons && n.accepted == m.accepted + [ev] && n.released == m.released
  {
    assert PushNext(m) == m.(prod := Cleared(ev, 0));
    var n := PushNext(PushNext(m));
    assert n == m.(ring := n.ring, prod := CodeSet(ev, 0));
  }

  /** One such run: a push that falls between the reading of the head and the rest stays behind. */
  lemma {:induction false} LateArrival(ring: seq<Pending>, ev: Pending, acts: seq<Act>)
    requires |ring| == RING_N && LateRun(acts, ev)
    ensures var m := After(acts, 10, ring);
      m.cons.Resting? && m.released == 0 && m.accepted == [ev]
  {
    hide PushNext;
    LateRunReads(ring, ev, acts);
    var m := After(acts, 4, ring);
    assert m.prod == Loaded(ev, 0) && m.cons == Copying(0, 0, []);
    assert After(acts, 5, ring) == PushNext(m);
    assert After(acts, 6, ring) == PushNext(PushNext(m));
    assert After(acts, 7, ring) == PushNext(PushNext(PushNext(m)));
    assert After(acts, 8, ring) == PushNext(PushNext(PushNext(PushNext(m))));
    WholePush(m, ev);
  }
}
