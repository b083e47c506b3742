/**
 The lock-free multi-producer, multi-consumer ring of include/queue.h (class `Queue`).

 Every atomic load, compare-and-swap and store of `try_enqueue` and `try_dequeue` is one step
 of a state machine with a program counter for each thread.  A run is any sequence of events,
 so it ranges over every interleaving of any number of threads.  Tickets are unbounded.
 */
module MpmcQueue {
  import opened RingIndex

  /** A ring slot: `version` says which ticket may use it next, and for what. */
  datatype Slot<T> = Slot(version: nat, value: T)

  /** Where a thread stands inside `try_enqueue` or `try_dequeue`. */
  datatype Pc<T> =
    | Idle
    | EnqLoaded(item: T, ticket: nat)    // read m_tail, about to read the slot version
    | EnqChecked(item: T, ticket: nat)   // version matched, about to CAS m_tail
    | EnqOwned(item: T, ticket: nat)     // CAS won, about to store the value
    | EnqStored(item: T, ticket: nat)    // value stored, about to store the version
    | DeqLoaded(ticket: nat)             // read m_head, about to read the slot version
    | DeqChecked(ticket: nat)            // version matched, about to CAS m_head
    | DeqOwned(ticket: nat)              // CAS won, about to read the value
    | DeqRead(ticket: nat, item: T)      // value read, about to store the version

  /** What a call returned: false, true from `try_enqueue`, or true and an item from `try_dequeue`. */
  datatype Outcome<T> = Refused | Accepted | Taken(item: T)

  /**
   The shared memory, the threads, and three history variables: `enq[t]` is the item whose
   producer won ticket `t`, `got[h]` is what the completed dequeue of ticket `h` returned, and
   `outs[tid]` is what the last completed call of thread `tid` returned.
   */
  datatype State<T> = State(
    slots: seq<Slot<T>>,
    head: nat,
    tail: nat,
    threads: map<nat, Pc<T>>,
    enq: seq<T>,
    got: map<nat, T>,
    outs: map<nat, Outcome<T>>)
  {
    function Capacity(): nat { |slots| }
  }

  datatype Event<T> =
    | CallEnqueue(tid: nat, arg: T)
    | CallDequeue(tid: nat)
    | Advance(tid: nat)

  function PcOf<T>(s: State<T>, tid: nat): Pc<T> {
    if tid in s.threads then s.threads[tid] else Idle
  }

  function Goto<T>(s: State<T>, tid: nat, pc: Pc<T>): State<T> {
    s.(threads := s.threads[tid := pc])
  }

  ghost predicate Init<T>(s: State<T>) {
    && s.Capacity() > 0
    && (forall i | 0 <= i < |s.slots| :: s.slots[i].version == i)
    && s.head == 0 && s.tail == 0
    && s.threads == map[] && s.enq == [] && s.got == map[] && s.outs == map[]
  }

  /** The call of thread `tid` returns. */
  function Return<T>(s: State<T>, tid: nat, out: Outcome<T>): State<T> {
    Goto(s, tid, Idle).(outs := s.outs[tid := out])
  }

  /** The producer's successful CAS on m_tail. */
  function WinTail<T>(s: State<T>, tid: nat, v: T, t: nat): State<T> {
    Goto(s, tid, EnqOwned(v, t)).(tail := t + 1, enq := s.enq + [v])
  }

  /** The producer's store of the value. */
  function PutValue<T>(s: State<T>, tid: nat, v: T, t: nat): State<T>
    requires s.Capacity() > 0
  {
    var i := Idx(t, s.Capacity());
    Goto(s, tid, EnqStored(v, t)).(slots := s.slots[i := s.slots[i].(value := v)])
  }

  /** The producer's release store of the version. */
  function Publish<T>(s: State<T>, tid: nat, t: nat): State<T>
    requires s.Capacity() > 0
  {
    var i := Idx(t, s.Capacity());
    Return(s, tid, Accepted).(slots := s.slots[i := s.slots[i].(version := t + 1)])
  }

  /** The consumer's successful CAS on m_head. */
  function WinHead<T>(s: State<T>, tid: nat, h: nat): State<T> {
    Goto(s, tid, DeqOwned(h)).(head := h + 1)
  }

  /** The consumer's release store of the version; its dequeue returns `v`. */
  function Release<T>(s: State<T>, tid: nat, h: nat, v: T): State<T>
    requires s.Capacity() > 0
  {
    var i := Idx(h, s.Capacity());
    Return(s, tid, Taken(v)).(
      slots := s.slots[i := s.slots[i].(version := h + s.Capacity())],
      got := s.got[h := v])
  }

  /** One atomic step of thread `tid`; the branches are those of `try_enqueue` and `try_dequeue`. */
  function AdvanceThread<T>(s: State<T>, tid: nat): (r: State<T>)
    requires s.Capacity() > 0
    ensures r.Capacity() == s.Capacity()
  {
    var n := s.Capacity();
    match PcOf(s, tid)
    case Idle => s
    case EnqLoaded(v, t) =>
      if s.slots[Idx(t, n)].version != t then Return(s, tid, Refused) else Goto(s, tid, EnqChecked(v, t))
    case EnqChecked(v, t) => if s.tail != t then Return(s, tid, Refused) else WinTail(s, tid, v, t)
    case EnqOwned(v, t) => PutValue(s, tid, v, t)
    case EnqStored(_, t) => Publish(s, tid, t)
    case DeqLoaded(h) =>
      if s.slots[Idx(h, n)].version != h + 1 then Return(s, tid, Refused) else Goto(s, tid, DeqChecked(h))
    case DeqChecked(h) => if s.head != h then Return(s, tid, Refused) else WinHead(s, tid, h)
    case DeqOwned(h) => Goto(s, tid, DeqRead(h, s.slots[Idx(h, n)].value))
    case DeqRead(h, v) => Release(s, tid, h, v)
  }

  function Step<T>(s: State<T>, e: Event<T>): (r: State<T>)
    requires s.Capacity() > 0
    ensures r.Capacity() == s.Capacity()
  {
    match e
    case CallEnqueue(tid, v) => if PcOf(s, tid).Idle? then Goto(s, tid, EnqLoaded(v, s.tail)) else s
    case CallDequeue(tid) => if PcOf(s, tid).Idle? then Goto(s, tid, DeqLoaded(s.head)) else s
    case Advance(tid) => AdvanceThread(s, tid)
  }

  /** The state after a run. */
  function Run<T>(s: State<T>, events: seq<Event<T>>): (r: State<T>)
    requires s.Capacity() > 0
    ensures r.Capacity() == s.Capacity()
    decreases |events|
  {
    if events == [] then s
    else Step(Run(s, events[..|events| - 1]), events[|events| - 1])
  }

  // ---------------------------------------------------------------- invariant

  predicate OwnsEnq<T>(pc: Pc<T>, t: nat) {
    (pc.EnqOwned? || pc.EnqStored?) && pc.ticket == t
  }

  predicate OwnsDeq<T>(pc: Pc<T>, h: nat) {
    (pc.DeqOwned? || pc.DeqRead?) && pc.ticket == h
  }

  /** The thread owns no ticket. */
  predicate Quiet<T>(pc: Pc<T>) {
    pc.Idle? || pc.EnqLoaded? || pc.EnqChecked? || pc.DeqLoaded? || pc.DeqChecked?
  }

  /** Some producer is between its CAS on ticket `t` and its version store. */
  ghost predicate EnqBusy<T>(s: State<T>, t: nat) {
    exists tid: nat :: OwnsEnq(PcOf(s, tid), t)
  }

  /** Some consumer is between its CAS on ticket `h` and its version store. */
  ghost predicate DeqBusy<T>(s: State<T>, h: nat) {
    exists tid: nat :: OwnsDeq(PcOf(s, tid), h)
  }

  /** Slot `i` awaits the producer of ticket `v`, its version. */
  ghost predicate FreeSlot<T>(s: State<T>, i: nat, v: nat)
    requires s.Capacity() > 0
  {
    && Idx(v, s.Capacity()) == i
    && v < s.head + s.Capacity()
    && (v < s.tail ==> s.head <= v && s.tail <= v + s.Capacity() && EnqBusy(s, v))
  }

  /** Slot `i` holds the item of ticket `t`; its version is `t + 1`. */
  ghost predicate FilledSlot<T>(s: State<T>, i: nat, t: nat)
    requires i < s.Capacity()
  {
    && Idx(t, s.Capacity()) == i
    && t < s.tail <= t + s.Capacity()
    && t < s.head + s.Capacity()
    && t < |s.enq| && s.slots[i].value == s.enq[t]
    && (t < s.head ==> DeqBusy(s, t))
  }

  ghost predicate SlotOk<T>(s: State<T>, i: nat)
    requires i < s.Capacity()
  {
    var v := s.slots[i].version;
    FreeSlot(s, i, v) || (v > 0 && FilledSlot(s, i, v - 1))
  }

  ghost predicate ThreadOk<T>(s: State<T>, pc: Pc<T>)
    requires s.Capacity() > 0
  {
    var n := s.Capacity();
    match pc
    case Idle => true
    case EnqLoaded(_, t) => t <= s.tail
    case EnqChecked(_, t) => t <= s.tail && (s.tail == t ==> s.slots[Idx(t, n)].version == t)
    case EnqOwned(v, t) => t < s.tail && s.slots[Idx(t, n)].version == t && t < |s.enq| && s.enq[t] == v
    case EnqStored(v, t) =>
      t < s.tail && s.slots[Idx(t, n)].version == t && t < |s.enq| && s.enq[t] == v
      && s.slots[Idx(t, n)].value == v
    case DeqLoaded(h) => h <= s.head
    case DeqChecked(h) => h <= s.head && (s.head == h ==> s.slots[Idx(h, n)].version == h + 1)
    case DeqOwned(h) => h < s.head && s.slots[Idx(h, n)].version == h + 1
    case DeqRead(h, v) =>
      h < s.head && s.slots[Idx(h, n)].version == h + 1 && h < |s.enq| && s.enq[h] == v
  }

  predicate Clash<T>(p: Pc<T>, q: Pc<T>) {
    || ((p.EnqOwned? || p.EnqStored?) && OwnsEnq(q, p.ticket))
    || ((p.DeqOwned? || p.DeqRead?) && OwnsDeq(q, p.ticket))
  }

  /** No two threads own the same ticket. */
  ghost predicate Exclusive<T>(s: State<T>) {
    forall a: nat, b: nat | a != b :: !Clash(PcOf(s, a), PcOf(s, b))
  }

  ghost predicate HistoryOk<T>(s: State<T>) {
    && |s.enq| == s.tail
    && (forall h | h in s.got :: h < s.head && h < |s.enq| && s.got[h] == s.enq[h] && !DeqBusy(s, h))
    && (forall h: nat | h < s.head :: h in s.got || DeqBusy(s, h))
  }

  ghost predicate Inv<T>(s: State<T>) {
    && s.Capacity() >= 2
    && s.head <= s.tail <= s.head + s.Capacity()
    && (forall i: nat | i < s.Capacity() :: SlotOk(s, i))
    && (forall tid: nat :: ThreadOk(s, PcOf(s, tid)))
    && Exclusive(s)
    && HistoryOk(s)
  }

  /** A slot whose version is its own ticket is free; one whose version is a ticket's successor is filled. */
  lemma {:induction false} ReadyToWrite<T>(s: State<T>, t: nat)
    requires Inv(s) && s.slots[Idx(t, s.Capacity())].version == t
    ensures FreeSlot(s, Idx(t, s.Capacity()), t)
  {
    var n := s.Capacity();
    assert SlotOk(s, Idx(t, n));
    if t > 0 && FilledSlot(s, Idx(t, n), t - 1) {
      IdxSucc(t - 1, n);
    }
  }

  lemma {:induction false} ReadyToRead<T>(s: State<T>, t: nat)
    requires Inv(s) && s.slots[Idx(t, s.Capacity())].version == t + 1
    ensures FilledSlot(s, Idx(t, s.Capacity()), t)
  {
    var n := s.Capacity();
    assert SlotOk(s, Idx(t, n));
    IdxSucc(t, n);
  }

  // ---------------------------------------------------------------- every step keeps the invariant

  /** `s'` is reached from `s` by a step of `tid`: every other thread stays where it was. */
  ghost predicate OthersStay<T>(s: State<T>, s': State<T>, tid: nat) {
    forall u: nat | u != tid :: PcOf(s', u) == PcOf(s, u)
  }

  /** A step of `tid` that neither takes nor gives up a ticket. */
  lemma {:induction false} BusyKept<T>(s: State<T>, s': State<T>, tid: nat, t: nat)
    requires OthersStay(s, s', tid)
    requires OwnsEnq(PcOf(s, tid), t) <==> OwnsEnq(PcOf(s', tid), t)
    requires OwnsDeq(PcOf(s, tid), t) <==> OwnsDeq(PcOf(s', tid), t)
    ensures EnqBusy(s, t) <==> EnqBusy(s', t)
    ensures DeqBusy(s, t) <==> DeqBusy(s', t)
  {
    if w: nat :| OwnsEnq(PcOf(s, w), t) { assert OwnsEnq(PcOf(s', w), t); }
    if w: nat :| OwnsEnq(PcOf(s', w), t) { assert OwnsEnq(PcOf(s, w), t); }
    if w: nat :| OwnsDeq(PcOf(s, w), t) { assert OwnsDeq(PcOf(s', w), t); }
    if w: nat :| OwnsDeq(PcOf(s', w), t) { assert OwnsDeq(PcOf(s, w), t); }
  }

  /** A step that changes only a thread's own counter, between states that own no ticket. */
  lemma {:induction false} KeepsQuiet<T>(s: State<T>, tid: nat, pc: Pc<T>)
    requires Inv(s)
    requires Quiet(PcOf(s, tid)) && Quiet(pc)
    requires ThreadOk(s, pc)
    ensures Inv(Goto(s, tid, pc))
  {
    var s' := Goto(s, tid, pc);
    assert OthersStay(s, s', tid);
    forall t: nat
      ensures EnqBusy(s, t) <==> EnqBusy(s', t)
      ensures DeqBusy(s, t) <==> DeqBusy(s', t)
    {
      BusyKept(s, s', tid, t);
    }
    SlotsKept(s, s');
    QuietThreads(s, tid, pc);
  }

  lemma {:induction false} KeepsRefusal<T>(s: State<T>, tid: nat)
    requires Inv(s) && Quiet(PcOf(s, tid))
    ensures Inv(Return(s, tid, Refused))
  {
    KeepsQuiet(s, tid, Idle);
    var r := Goto(s, tid, Idle);
    var s' := Return(s, tid, Refused);
    forall t: nat
      ensures EnqBusy(r, t) <==> EnqBusy(s', t)
      ensures DeqBusy(r, t) <==> DeqBusy(s', t)
    {
      BusyKept(r, s', tid, t);
    }
    SlotsKept(r, s');
    forall u: nat ensures ThreadOk(s', PcOf(s', u)) { assert ThreadOk(r, PcOf(r, u)); }
    forall a: nat, b: nat | a != b ensures !Clash(PcOf(s', a), PcOf(s', b)) { assert !Clash(PcOf(r, a), PcOf(r, b)); }
  }

  lemma {:induction false} SlotsKept<T>(s: State<T>, s': State<T>)
    requires s.Capacity() > 0
    requires forall i: nat | i < s.Capacity() :: SlotOk(s, i)
    requires s'.slots == s.slots && s'.enq == s.enq && s'.head == s.head && s'.tail == s.tail
    requires forall t: nat :: (EnqBusy(s, t) <==> EnqBusy(s', t)) && (DeqBusy(s, t) <==> DeqBusy(s', t))
    ensures forall i: nat | i < s.Capacity() :: SlotOk(s', i)
  {
    forall i: nat | i < s.Capacity() ensures SlotOk(s', i) {
      assert SlotOk(s, i);
    }
  }

  lemma {:induction false} QuietThreads<T>(s: State<T>, tid: nat, pc: Pc<T>)
    requires s.Capacity() > 0 && Exclusive(s)
    requires forall tid: nat :: ThreadOk(s, PcOf(s, tid))
    requires Quiet(pc) && ThreadOk(s, pc)
    ensures forall u: nat :: ThreadOk(Goto(s, tid, pc), PcOf(Goto(s, tid, pc), u))
    ensures Exclusive(Goto(s, tid, pc))
  {
    var s' := Goto(s, tid, pc);
    forall u: nat ensures ThreadOk(s', PcOf(s', u)) {
      assert ThreadOk(s, PcOf(s, u));
    }
    forall a: nat, b: nat | a != b ensures !Clash(PcOf(s', a), PcOf(s', b)) {
      assert !Clash(PcOf(s, a), PcOf(s, b));
    }
  }

  // ---- the producer's CAS

  lemma {:induction false} WinTailBusy<T>(s: State<T>, tid: nat, v: T, t: nat, u: nat)
    requires Quiet(PcOf(s, tid))
    ensures EnqBusy(WinTail(s, tid, v, t), u) <==> EnqBusy(s, u) || u == t
    ensures DeqBusy(WinTail(s, tid, v, t), u) <==> DeqBusy(s, u)
  {
    var s' := WinTail(s, tid, v, t);
    assert OthersStay(s, s', tid);
    assert OwnsEnq(PcOf(s', tid), t);
    if w: nat :| OwnsEnq(PcOf(s, w), u) { assert OwnsEnq(PcOf(s', w), u); }
    if w: nat :| OwnsEnq(PcOf(s', w), u) && w != tid { assert OwnsEnq(PcOf(s, w), u); }
    if w: nat :| OwnsDeq(PcOf(s, w), u) { assert OwnsDeq(PcOf(s', w), u); }
    if w: nat :| OwnsDeq(PcOf(s', w), u) { assert OwnsDeq(PcOf(s, w), u); }
  }

  lemma {:induction false} WinTailSlots<T>(s: State<T>, tid: nat, v: T, t: nat, i: nat)
    requires Inv(s) && PcOf(s, tid) == EnqChecked(v, t) && s.tail == t && i < s.Capacity()
    ensures SlotOk(WinTail(s, tid, v, t), i)
  {
    var n := s.Capacity();
    var s' := WinTail(s, tid, v, t);
    assert ThreadOk(s, PcOf(s, tid));
    var w := s.slots[i].version;
    assert SlotOk(s, i);
    hide HistoryOk, Exclusive, EnqBusy, DeqBusy;
    if FreeSlot(s, i, w) {
      WinTailBusy(s, tid, v, t, w);
    } else {
      WinTailBusy(s, tid, v, t, w - 1);
    }
  }

  lemma {:induction false} WinTailThreads<T>(s: State<T>, tid: nat, v: T, t: nat, u: nat)
    requires Inv(s) && PcOf(s, tid) == EnqChecked(v, t) && s.tail == t
    ensures ThreadOk(WinTail(s, tid, v, t), PcOf(WinTail(s, tid, v, t), u))
  {
    assert ThreadOk(s, PcOf(s, tid));
    assert ThreadOk(s, PcOf(s, u));
  }

  lemma {:induction false} WinTailExclusive<T>(s: State<T>, tid: nat, v: T, t: nat)
    requires Inv(s) && PcOf(s, tid) == EnqChecked(v, t) && s.tail == t
    ensures Exclusive(WinTail(s, tid, v, t))
  {
    var s' := WinTail(s, tid, v, t);
    forall a: nat, b: nat | a != b ensures !Clash(PcOf(s', a), PcOf(s', b)) {
      assert !Clash(PcOf(s, a), PcOf(s, b));
      assert ThreadOk(s, PcOf(s, a)) && ThreadOk(s, PcOf(s, b));
    }
  }

  lemma {:induction false} KeepsWinTail<T>(s: State<T>, tid: nat, v: T, t: nat)
    requires Inv(s) && PcOf(s, tid) == EnqChecked(v, t) && s.tail == t
    ensures Inv(WinTail(s, tid, v, t))
  {
    var s' := WinTail(s, tid, v, t);
    assert ThreadOk(s, PcOf(s, tid));
    ReadyToWrite(s, t);
    forall i: nat | i < s.Capacity() ensures SlotOk(s', i) { WinTailSlots(s, tid, v, t, i); }
    forall u: nat ensures ThreadOk(s', PcOf(s', u)) { WinTailThreads(s, tid, v, t, u); }
    WinTailExclusive(s, tid, v, t);
    forall h: nat ensures DeqBusy(s', h) <==> DeqBusy(s, h) { WinTailBusy(s, tid, v, t, h); }
  }

  // ---- the producer's value store

  lemma {:induction false} PutValueSlots<T>(s: State<T>, tid: nat, v: T, t: nat, i: nat)
    requires Inv(s) && PcOf(s, tid) == EnqOwned(v, t) && i < s.Capacity()
    ensures SlotOk(PutValue(s, tid, v, t), i)
  {
    var s' := PutValue(s, tid, v, t);
    assert OthersStay(s, s', tid);
    assert ThreadOk(s, PcOf(s, tid));
    assert SlotOk(s, i);
    hide HistoryOk, Exclusive, EnqBusy, DeqBusy;
    var w := s.slots[i].version;
    if FreeSlot(s, i, w) {
      BusyKept(s, s', tid, w);
    } else {
      BusyKept(s, s', tid, w - 1);
      if i == Idx(t, s.Capacity()) { ReadyToWrite(s, t); }
    }
  }

  lemma {:induction false} PutValueThreads<T>(s: State<T>, tid: nat, v: T, t: nat, u: nat)
    requires Inv(s) && PcOf(s, tid) == EnqOwned(v, t)
    ensures ThreadOk(PutValue(s, tid, v, t), PcOf(PutValue(s, tid, v, t), u))
  {
    assert ThreadOk(s, PcOf(s, tid));
    assert ThreadOk(s, PcOf(s, u));
    assert u != tid ==> !Clash(PcOf(s, tid), PcOf(s, u));
  }

  lemma {:induction false} KeepsPutValue<T>(s: State<T>, tid: nat, v: T, t: nat)
    requires Inv(s) && PcOf(s, tid) == EnqOwned(v, t)
    ensures Inv(PutValue(s, tid, v, t))
  {
    var s' := PutValue(s, tid, v, t);
    forall i: nat | i < s.Capacity() ensures SlotOk(s', i) { PutValueSlots(s, tid, v, t, i); }
    forall u: nat ensures ThreadOk(s', PcOf(s', u)) { PutValueThreads(s, tid, v, t, u); }
    forall a: nat, b: nat | a != b ensures !Clash(PcOf(s', a), PcOf(s', b)) {
      assert !Clash(PcOf(s, a), PcOf(s, b));
    }
    assert OthersStay(s, s', tid);
    forall h: nat ensures DeqBusy(s', h) <==> DeqBusy(s, h) { BusyKept(s, s', tid, h); }
  }

  // ---- the producer's version store

  lemma {:induction false} PublishBusy<T>(s: State<T>, tid: nat, v: T, t: nat, u: nat)
    requires s.Capacity() > 0 && PcOf(s, tid) == EnqStored(v, t)
    ensures u != t && EnqBusy(s, u) ==> EnqBusy(Publish(s, tid, t), u)
    ensures DeqBusy(Publish(s, tid, t), u) <==> DeqBusy(s, u)
  {
    var s' := Publish(s, tid, t);
    assert OthersStay(s, s', tid);
    if w: nat :| OwnsEnq(PcOf(s, w), u) { if u != t { assert OwnsEnq(PcOf(s', w), u); } }
    if w: nat :| OwnsDeq(PcOf(s, w), u) { assert OwnsDeq(PcOf(s', w), u); }
    if w: nat :| OwnsDeq(PcOf(s', w), u) { assert OwnsDeq(PcOf(s, w), u); }
  }

  lemma {:induction false} PublishSlots<T>(s: State<T>, tid: nat, v: T, t: nat, i: nat)
    requires Inv(s) && PcOf(s, tid) == EnqStored(v, t) && i < s.Capacity()
    ensures SlotOk(Publish(s, tid, t), i)
  {
    var s' := Publish(s, tid, t);
    assert ThreadOk(s, PcOf(s, tid));
    assert SlotOk(s, i);
    var w := s.slots[i].version;
    ReadyToWrite(s, t);
    hide HistoryOk, Exclusive, EnqBusy, DeqBusy;
    if i == Idx(t, s.Capacity()) {
      assert FilledSlot(s', i, t);
    } else if FreeSlot(s, i, w) {
      PublishBusy(s, tid, v, t, w);
    } else {
      PublishBusy(s, tid, v, t, w - 1);
    }
  }

  lemma {:induction false} PublishThreads<T>(s: State<T>, tid: nat, v: T, t: nat, u: nat)
    requires Inv(s) && PcOf(s, tid) == EnqStored(v, t)
    ensures ThreadOk(Publish(s, tid, t), PcOf(Publish(s, tid, t), u))
  {
    hide SlotOk, HistoryOk;
    assert ThreadOk(s, PcOf(s, tid));
    assert ThreadOk(s, PcOf(s, u));
    assert u != tid ==> !Clash(PcOf(s, tid), PcOf(s, u));
    ReadyToWrite(s, t);
    IdxSucc(t, s.Capacity());
    if t > 0 { IdxSucc(t - 1, s.Capacity()); }
  }

  lemma {:induction false} KeepsPublish<T>(s: State<T>, tid: nat, v: T, t: nat)
    requires Inv(s) && PcOf(s, tid) == EnqStored(v, t)
    ensures Inv(Publish(s, tid, t))
  {
    var s' := Publish(s, tid, t);
    forall i: nat | i < s.Capacity() ensures SlotOk(s', i) { PublishSlots(s, tid, v, t, i); }
    forall u: nat ensures ThreadOk(s', PcOf(s', u)) { PublishThreads(s, tid, v, t, u); }
    forall a: nat, b: nat | a != b ensures !Clash(PcOf(s', a), PcOf(s', b)) {
      assert !Clash(PcOf(s, a), PcOf(s, b));
    }
    forall h: nat ensures DeqBusy(s', h) <==> DeqBusy(s, h) { PublishBusy(s, tid, v, t, h); }
  }

  // ---- the consumer's CAS

  lemma {:induction false} WinHeadBusy<T>(s: State<T>, tid: nat, h: nat, u: nat)
    requires Quiet(PcOf(s, tid))
    ensures EnqBusy(WinHead(s, tid, h), u) <==> EnqBusy(s, u)
    ensures DeqBusy(WinHead(s, tid, h), u) <==> DeqBusy(s, u) || u == h
  {
    var s' := WinHead(s, tid, h);
    assert OthersStay(s, s', tid);
    assert OwnsDeq(PcOf(s', tid), h);
    if w: nat :| OwnsEnq(PcOf(s, w), u) { assert OwnsEnq(PcOf(s', w), u); }
    if w: nat :| OwnsEnq(PcOf(s', w), u) { assert OwnsEnq(PcOf(s, w), u); }
    if w: nat :| OwnsDeq(PcOf(s, w), u) { assert OwnsDeq(PcOf(s', w), u); }
    if w: nat :| OwnsDeq(PcOf(s', w), u) && w != tid { assert OwnsDeq(PcOf(s, w), u); }
  }

  lemma {:induction false} WinHeadSlots<T>(s: State<T>, tid: nat, h: nat, i: nat)
    requires Inv(s) && PcOf(s, tid) == DeqChecked(h) && s.head == h && i < s.Capacity()
    ensures SlotOk(WinHead(s, tid, h), i)
  {
    assert ThreadOk(s, PcOf(s, tid));
    ReadyToRead(s, h);
    assert SlotOk(s, i);
    hide HistoryOk, Exclusive, EnqBusy, DeqBusy;
    var w := s.slots[i].version;
    if FreeSlot(s, i, w) {
      WinHeadBusy(s, tid, h, w);
    } else {
      WinHeadBusy(s, tid, h, w - 1);
    }
  }

  lemma {:induction false} WinHeadThreads<T>(s: State<T>, tid: nat, h: nat, u: nat)
    requires Inv(s) && PcOf(s, tid) == DeqChecked(h) && s.head == h
    ensures ThreadOk(WinHead(s, tid, h), PcOf(WinHead(s, tid, h), u))
  {
    assert ThreadOk(s, PcOf(s, tid));
    assert ThreadOk(s, PcOf(s, u));
  }

  lemma {:induction false} KeepsWinHead<T>(s: State<T>, tid: nat, h: nat)
    requires Inv(s) && PcOf(s, tid) == DeqChecked(h) && s.head == h
    ensures Inv(WinHead(s, tid, h))
  {
    var s' := WinHead(s, tid, h);
    assert ThreadOk(s, PcOf(s, tid));
    ReadyToRead(s, h);
    forall i: nat | i < s.Capacity() ensures SlotOk(s', i) { WinHeadSlots(s, tid, h, i); }
    forall u: nat ensures ThreadOk(s', PcOf(s', u)) { WinHeadThreads(s, tid, h, u); }
    forall a: nat, b: nat | a != b ensures !Clash(PcOf(s', a), PcOf(s', b)) {
      assert !Clash(PcOf(s, a), PcOf(s, b));
      assert ThreadOk(s, PcOf(s, a)) && ThreadOk(s, PcOf(s, b));
    }
    forall u: nat ensures DeqBusy(s', u) <==> DeqBusy(s, u) || u == h { WinHeadBusy(s, tid, h, u); }
  }

  // ---- the consumer's value read and version store

  lemma {:induction false} KeepsReadValue<T>(s: State<T>, tid: nat, h: nat)
    requires Inv(s) && PcOf(s, tid) == DeqOwned(h)
    ensures Inv(Goto(s, tid, DeqRead(h, s.slots[Idx(h, s.Capacity())].value)))
  {
    var s' := Goto(s, tid, DeqRead(h, s.slots[Idx(h, s.Capacity())].value));
    assert OthersStay(s, s', tid);
    assert ThreadOk(s, PcOf(s, tid));
    ReadyToRead(s, h);
    forall u: nat
      ensures EnqBusy(s, u) <==> EnqBusy(s', u)
      ensures DeqBusy(s, u) <==> DeqBusy(s', u)
    {
      BusyKept(s, s', tid, u);
    }
    SlotsKept(s, s');
    forall u: nat ensures ThreadOk(s', PcOf(s', u)) { assert ThreadOk(s, PcOf(s, u)); }
    forall a: nat, b: nat | a != b ensures !Clash(PcOf(s', a), PcOf(s', b)) {
      assert !Clash(PcOf(s, a), PcOf(s, b));
    }
  }

  lemma {:induction false} ReleaseBusy<T>(s: State<T>, tid: nat, h: nat, v: T, u: nat)
    requires Inv(s) && PcOf(s, tid) == DeqRead(h, v)
    ensures EnqBusy(s, u) <==> EnqBusy(Release(s, tid, h, v), u)
    ensures DeqBusy(Release(s, tid, h, v), u) <==> DeqBusy(s, u) && u != h
  {
    var s' := Release(s, tid, h, v);
    assert OthersStay(s, s', tid);
    if w: nat :| OwnsEnq(PcOf(s, w), u) { assert OwnsEnq(PcOf(s', w), u); }
    if w: nat :| OwnsEnq(PcOf(s', w), u) { assert OwnsEnq(PcOf(s, w), u); }
    if w: nat :| OwnsDeq(PcOf(s, w), u) { if u != h { assert OwnsDeq(PcOf(s', w), u); } }
    if w: nat :| OwnsDeq(PcOf(s', w), u) {
      assert OwnsDeq(PcOf(s, w), u);
      assert !Clash(PcOf(s, tid), PcOf(s, w));
    }
  }

  lemma {:induction false} ReleaseSlots<T>(s: State<T>, tid: nat, h: nat, v: T, i: nat)
    requires Inv(s) && PcOf(s, tid) == DeqRead(h, v) && i < s.Capacity()
    ensures SlotOk(Release(s, tid, h, v), i)
  {
    var s' := Release(s, tid, h, v);
    assert ThreadOk(s, PcOf(s, tid));
    ReadyToRead(s, h);
    hide HistoryOk, Exclusive, EnqBusy, DeqBusy;
    if i == Idx(h, s.Capacity()) {
      assert FreeSlot(s', i, h + s.Capacity());
    } else {
      assert SlotOk(s, i);
      var w := s.slots[i].version;
      ReleaseBusy(s, tid, h, v, w);
      if w > 0 { ReleaseBusy(s, tid, h, v, w - 1); }
    }
  }

  lemma {:induction false} ReleaseThreads<T>(s: State<T>, tid: nat, h: nat, v: T, u: nat)
    requires Inv(s) && PcOf(s, tid) == DeqRead(h, v)
    ensures ThreadOk(Release(s, tid, h, v), PcOf(Release(s, tid, h, v), u))
  {
    hide SlotOk, HistoryOk;
    assert ThreadOk(s, PcOf(s, tid));
    assert ThreadOk(s, PcOf(s, u));
    assert u != tid ==> !Clash(PcOf(s, tid), PcOf(s, u));
    IdxSucc(h, s.Capacity());
  }

  lemma {:induction false} KeepsRelease<T>(s: State<T>, tid: nat, h: nat, v: T)
    requires Inv(s) && PcOf(s, tid) == DeqRead(h, v)
    ensures Inv(Release(s, tid, h, v))
  {
    var s' := Release(s, tid, h, v);
    assert ThreadOk(s, PcOf(s, tid));
    forall i: nat | i < s.Capacity() ensures SlotOk(s', i) { ReleaseSlots(s, tid, h, v, i); }
    forall u: nat ensures ThreadOk(s', PcOf(s', u)) { ReleaseThreads(s, tid, h, v, u); }
    forall a: nat, b: nat | a != b ensures !Clash(PcOf(s', a), PcOf(s', b)) {
      assert !Clash(PcOf(s, a), PcOf(s, b));
    }
    forall u: nat ensures DeqBusy(s', u) <==> DeqBusy(s, u) && u != h { ReleaseBusy(s, tid, h, v, u); }
  }

  // ---------------------------------------------------------------- main results

  lemma {:induction false} KeepsAdvance<T>(s: State<T>, tid: nat)
    requires Inv(s)
    ensures Inv(AdvanceThread(s, tid))
  {
    assert ThreadOk(s, PcOf(s, tid));
    match PcOf(s, tid)
    case Idle =>
    case EnqLoaded(v, t) =>
      if s.slots[Idx(t, s.Capacity())].version != t { KeepsRefusal(s, tid); }
      else { KeepsQuiet(s, tid, EnqChecked(v, t)); }
    case EnqChecked(v, t) => if s.tail != t { KeepsRefusal(s, tid); } else { KeepsWinTail(s, tid, v, t); }
    case EnqOwned(v, t) => KeepsPutValue(s, tid, v, t);
    case EnqStored(v, t) => KeepsPublish(s, tid, v, t);
    case DeqLoaded(h) =>
      if s.slots[Idx(h, s.Capacity())].version != h + 1 { KeepsRefusal(s, tid); }
      else { KeepsQuiet(s, tid, DeqChecked(h)); }
    case DeqChecked(h) => if s.head != h { KeepsRefusal(s, tid); } else { KeepsWinHead(s, tid, h); }
    case DeqOwned(h) => KeepsReadValue(s, tid, h);
    case DeqRead(h, v) => KeepsRelease(s, tid, h, v);
  }

  lemma {:induction false} InitHolds<T>(s: State<T>)
    requires Init(s) && s.Capacity() >= 2
    ensures Inv(s)
  {
    forall i: nat | i < s.Capacity() ensures SlotOk(s, i) {
      assert FreeSlot(s, i, i);
    }
    assert forall tid: nat :: PcOf(s, tid) == Idle;
  }

  /** Every reachable state, in every interleaving of any number of threads, is consistent. */
  lemma {:induction false} RunHolds<T>(s: State<T>, events: seq<Event<T>>)
    requires Init(s) && s.Capacity() >= 2
    ensures Inv(Run(s, events))
    decreases |events|
  {
    if events == [] {
      InitHolds(s);
    } else {
      var k := |events| - 1;
      RunHolds(s, events[..k]);
      var r := Run(s, events[..k]);
      match events[k]
      case CallEnqueue(tid, v) => if PcOf(r, tid).Idle? { KeepsQuiet(r, tid, EnqLoaded(v, r.tail)); }
      case CallDequeue(tid) => if PcOf(r, tid).Idle? { KeepsQuiet(r, tid, DeqLoaded(r.head)); }
      case Advance(tid) => KeepsAdvance(r, tid);
    }
  }

  /** Both threads are between their CAS and their version store, on the same slot. */
  predicate SameSlot<T>(p: Pc<T>, q: Pc<T>, n: nat)
    requires n > 0
  {
    !Quiet(p) && !Quiet(q) && Idx(p.ticket, n) == Idx(q.ticket, n)
  }

  /** No slot is owned by two threads at once, be they producers or consumers, of the same ticket or not. */
  ghost predicate SlotsExclusive<T>(s: State<T>)
    requires s.Capacity() > 0
  {
    forall a: nat, b: nat | a != b :: !SameSlot(PcOf(s, a), PcOf(s, b), s.Capacity())
  }

  lemma {:induction false} SlotOwnedOnce<T>(s: State<T>, a: nat, b: nat)
    requires Inv(s) && a != b
    ensures !SameSlot(PcOf(s, a), PcOf(s, b), s.Capacity())
  {
    hide SlotOk, HistoryOk;
    var p, q := PcOf(s, a), PcOf(s, b);
    assert ThreadOk(s, p) && ThreadOk(s, q) && !Clash(p, q);
    if SameSlot(p, q, s.Capacity()) {
      IdxSucc(p.ticket, s.Capacity());
      IdxSucc(q.ticket, s.Capacity());
    }
  }

  /** In every reachable state, a slot is owned by at most one thread. */
  lemma {:induction false} OneOwnerPerSlot<T>(s: State<T>, events: seq<Event<T>>, a: nat, b: nat)
    requires Init(s) && s.Capacity() >= 2 && a != b
    ensures var r := Run(s, events); !SameSlot(PcOf(r, a), PcOf(r, b), r.Capacity())
  {
    hide Inv, Run, SameSlot;
    RunHolds(s, events);
    SlotOwnedOnce(Run(s, events), a, b);
  }

  /**
   What the queue promises its users, with no mention of versions: it holds at most `capacity`
   items, each completed dequeue returns the item of its own ticket, each ticket is owned by at
   most one producer and one consumer, and each slot by at most one thread.
   */
  ghost predicate Safe<T>(s: State<T>)
    requires s.Capacity() > 0
  {
    && s.head <= s.tail <= s.head + s.Capacity()
    && |s.enq| == s.tail
    && (forall h | h in s.got :: h < s.head && s.got[h] == s.enq[h])
    && Exclusive(s) && SlotsExclusive(s)
  }

  lemma {:induction false} InvIsSafe<T>(s: State<T>)
    requires Inv(s)
    ensures Safe(s)
  {
    hide SameSlot;
    forall a: nat, b: nat | a != b ensures !SameSlot(PcOf(s, a), PcOf(s, b), s.Capacity()) {
      SlotOwnedOnce(s, a, b);
    }
  }

  /** Every reachable state is safe exactly when the ring has at least two slots. */
  lemma {:induction false} SafeIffTwoSlots<T>(s: State<T>, a: T)
    requires Init(s)
    ensures (forall events: seq<Event<T>> :: Safe(Run(s, events))) <==> s.Capacity() >= 2
  {
    if s.Capacity() >= 2 {
      forall events: seq<Event<T>> ensures Safe(Run(s, events)) {
        RunHolds(s, events);
        InvIsSafe(Run(s, events));
      }
    } else {
      OneSlotOverfills(s, a, a);
    }
  }

  /** One whole successful `try_enqueue` by thread 0. */
  function EnqueueAlone<T>(a: T): seq<Event<T>> {
    [CallEnqueue(0, a), Advance(0), Advance(0), Advance(0), Advance(0)]
  }

  lemma {:induction false} RunAppend<T>(s: State<T>, events: seq<Event<T>>, e: Event<T>)
    requires s.Capacity() > 0
    ensures Run(s, events + [e]) == Step(Run(s, events), e)
  {
    assert (events + [e])[..|events|] == events;
  }

  /** A lone enqueue into a one-slot ring leaves it ready for another one, although nothing was read. */
  lemma {:induction false} OneSlotEnqueue<T>(r: State<T>, a: T) returns (r': State<T>)
    requires r.Capacity() == 1 && PcOf(r, 0) == Idle && r.slots[0].version == r.tail
    ensures r' == AdvanceThread(AdvanceThread(AdvanceThread(AdvanceThread(Step(r, CallEnqueue(0, a)), 0), 0), 0), 0)
    ensures r'.Capacity() == 1 && PcOf(r', 0) == Idle && r'.slots[0].version == r'.tail
    ensures r'.tail == r.tail + 1 && r'.head == r.head && r'.got == r.got
    ensures r'.enq == r.enq + [a] && r'.slots[0].value == a
  {
    var t := r.tail;
    IdxIsMod(t, 1);
    var r1 := Goto(r, 0, EnqLoaded(a, t));
    var r2 := Goto(r1, 0, EnqChecked(a, t));
    var r3 := WinTail(r2, 0, a, t);
    var r4 := PutValue(r3, 0, a, t);
    r' := Publish(r4, 0, t);
    assert AdvanceThread(r1, 0) == r2 && AdvanceThread(r2, 0) == r3;
    assert AdvanceThread(r3, 0) == r4 && AdvanceThread(r4, 0) == r';
  }

  lemma {:induction false} RunEnqueueAlone<T>(s: State<T>, before: seq<Event<T>>, a: T)
    requires s.Capacity() > 0
    ensures Run(s, before + EnqueueAlone(a)) ==
            AdvanceThread(AdvanceThread(AdvanceThread(AdvanceThread(
              Step(Run(s, before), CallEnqueue(0, a)), 0), 0), 0), 0)
  {
    hide AdvanceThread;
    var b1 := before + [CallEnqueue(0, a)];
    var b2 := b1 + [Advance(0)];
    var b3 := b2 + [Advance(0)];
    var b4 := b3 + [Advance(0)];
    RunAppend(s, before, CallEnqueue(0, a));
    RunAppend(s, b1, Advance(0));
    RunAppend(s, b2, Advance(0));
    RunAppend(s, b3, Advance(0));
    RunAppend(s, b4, Advance(0));
    assert b4 + [Advance(0)] == before + EnqueueAlone(a);
  }

  /** Two items are in, none is out, and the only slot holds the second: the first one is lost. */
  predicate FirstLost<T(==)>(r: State<T>, a: T, b: T) {
    r.Capacity() == 1 && r.head == 0 && r.got == map[] && r.tail == 2 && r.enq == [a, b] && r.slots[0].value == b
  }

  /** With one slot, a second enqueue succeeds while the first item is still unread, and overwrites it. */
  lemma {:induction false} OneSlotOverfills<T>(s: State<T>, a: T, b: T)
    requires Init(s) && s.Capacity() == 1
    ensures exists events: seq<Event<T>> :: FirstLost(Run(s, events), a, b) && !Safe(Run(s, events))
  {
    var none: seq<Event<T>> := [];
    var first := none + EnqueueAlone(a);
    RunEnqueueAlone(s, none, a);
    RunEnqueueAlone(s, first, b);
    var s1 := OneSlotEnqueue(s, a);
    var s2 := OneSlotEnqueue(s1, b);
    var events := first + EnqueueAlone(b);
    assert Run(s, events) == s2;
    assert FirstLost(Run(s, events), a, b);
  }

  /** Where the item of a won ticket is. */
  datatype Place = BeingWritten | InRing | BeingRead | Returned

  ghost predicate At<T>(s: State<T>, t: nat, p: Place)
    requires s.Capacity() > 0
  {
    var slot := s.slots[Idx(t, s.Capacity())];
    match p
    case BeingWritten => t >= s.head && EnqBusy(s, t) && slot.version == t
    case InRing => t >= s.head && slot.version == t + 1 && t < |s.enq| && slot.value == s.enq[t]
    case BeingRead => t < s.head && DeqBusy(s, t) && slot.version == t + 1
                      && t < |s.enq| && slot.value == s.enq[t]
    case Returned => t < s.head && t in s.got && t < |s.enq| && s.got[t] == s.enq[t] && !DeqBusy(s, t)
  }

  /**
   Conservation: in every reachable state the item of every won ticket is in exactly one place.
   Nothing is lost, nothing is duplicated, and nothing is overwritten before it was read.
   */
  lemma {:induction false} EveryItemInOnePlace<T>(s: State<T>, events: seq<Event<T>>, t: nat)
    requires Init(s) && s.Capacity() >= 2
    requires t < Run(s, events).tail
    ensures exists p :: At(Run(s, events), t, p)
    ensures forall p, q :: At(Run(s, events), t, p) && At(Run(s, events), t, q) ==> p == q
  {
    RunHolds(s, events);
    var r := Run(s, events);
    var n := r.Capacity();
    if t < r.head {
      if t in r.got {
        assert At(r, t, Returned);
      } else {
        assert DeqBusy(r, t);
        var w: nat :| OwnsDeq(PcOf(r, w), t);
        assert ThreadOk(r, PcOf(r, w));
        ReadyToRead(r, t);
        assert At(r, t, BeingRead);
      }
    } else {
      LiveTicketSlot(r, t);
    }
  }

  lemma {:induction false} LiveTicketSlot<T>(r: State<T>, t: nat)
    requires Inv(r) && r.head <= t < r.tail
    ensures At(r, t, BeingWritten) || At(r, t, InRing)
  {
    var n := r.Capacity();
    var i := Idx(t, n);
    var v := r.slots[i].version;
    assert SlotOk(r, i);
    if FreeSlot(r, i, v) {
      if v < t { SameIdx(v, t, n); } else if t < v { SameIdx(t, v, n); }
    } else {
      if v - 1 < t { SameIdx(v - 1, t, n); } else if t < v - 1 { SameIdx(t, v - 1, n); }
    }
  }

  /**
   When every operation has returned, the dequeues returned exactly the first `head` enqueued
   items, ticket by ticket, and the ring holds exactly the remaining ones in order: a bounded FIFO.
   */
  lemma {:induction false} QuiescentFifo<T>(s: State<T>, events: seq<Event<T>>)
    requires Init(s) && s.Capacity() >= 2
    requires forall tid: nat :: PcOf(Run(s, events), tid) == Idle
    ensures var r := Run(s, events);
            && r.head <= r.tail == |r.enq|
            && (forall h: nat :: h in r.got <==> h < r.head)
            && (forall h: nat | h < r.head :: r.got[h] == r.enq[h])
            && (forall t: nat | r.head <= t < r.tail ::
                  r.slots[Idx(t, r.Capacity())] == Slot(t + 1, r.enq[t]))
  {
    RunHolds(s, events);
    var r := Run(s, events);
    forall t: nat | r.head <= t < r.tail
      ensures r.slots[Idx(t, r.Capacity())] == Slot(t + 1, r.enq[t])
    {
      LiveTicketSlot(r, t);
    }
  }
}
