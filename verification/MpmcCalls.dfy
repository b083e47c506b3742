/**
 What the calls of the multi-producer, multi-consumer ring return: alone in any reachable state, and in any
 interleaving with other threads.
 */
module MpmcCalls {
  import opened RingIndex
  import opened MpmcQueue

  /** Ticket `t` is the next one, and the item that had its slot one lap before has been given away. */
  ghost predicate Room<T>(s: State<T>, t: nat) {
    && s.tail == t < s.head + s.Capacity()
    && (s.Capacity() <= t ==> !DeqBusy(s, t - s.Capacity()))
  }

  /** Ticket `h` is the next one, and its item is in the ring. */
  ghost predicate Ready<T>(s: State<T>, h: nat) {
    s.Capacity() > 0 && s.head == h && At(s, h, InRing)
  }

  lemma {:induction false} IdxBack(t: nat, n: nat)
    requires 0 < n <= t
    ensures Idx(t - n, n) == Idx(t, n)
  {
  }

  /** The version of the slot of the next ticket says whether there is room. */
  lemma {:induction false} VersionTellsRoom<T>(s: State<T>)
    requires Inv(s)
    ensures s.slots[Idx(s.tail, s.Capacity())].version == s.tail <==> Room(s, s.tail)
  {
    hide ThreadOk, HistoryOk, Exclusive, EnqBusy, DeqBusy;
    var t, n := s.tail, s.Capacity();
    var v := s.slots[Idx(t, n)].version;
    if n <= t { IdxBack(t, n); }
    if v == t {
      ReadyToWrite(s, t);
      if n <= t && DeqBusy(s, t - n) { BusyVersion(s, t - n); }
    } else if Room(s, t) {
      assert SlotOk(s, Idx(t, n));
      if FreeSlot(s, Idx(t, n), v) {
        if v < t { SameIdx(v, t, n); } else { SameIdx(t, v, n); }
      } else {
        SameIdx(v - 1, t, n);
      }
    }
  }

  lemma {:induction false} BusyVersion<T>(s: State<T>, h: nat)
    requires Inv(s) && DeqBusy(s, h)
    ensures s.slots[Idx(h, s.Capacity())].version == h + 1
  {
    hide SlotOk, HistoryOk, Exclusive;
    var w: nat :| OwnsDeq(PcOf(s, w), h);
    assert ThreadOk(s, PcOf(s, w));
  }

  lemma {:induction false} VersionTellsReady<T>(s: State<T>)
    requires Inv(s)
    ensures s.slots[Idx(s.head, s.Capacity())].version == s.head + 1 <==> Ready(s, s.head)
  {
    hide ThreadOk, HistoryOk, Exclusive, EnqBusy, DeqBusy, SlotOk;
    if s.slots[Idx(s.head, s.Capacity())].version == s.head + 1 { ReadyToRead(s, s.head); }
  }

  /** With no operation under way, there is room exactly below capacity, and an item ready exactly if there is one. */
  lemma {:induction false} QuiescentReady<T>(s: State<T>)
    requires Inv(s) && forall tid: nat :: PcOf(s, tid) == Idle
    ensures Room(s, s.tail) <==> s.tail < s.head + s.Capacity()
    ensures Ready(s, s.head) <==> s.head < s.tail
  {
    hide ThreadOk, Exclusive, SlotOk;
    if s.head < s.tail { LiveTicketSlot(s, s.head); }
  }

  // ---------------------------------------------------------------- a call alone

  /** Enough steps of one thread to end any call. */
  function Steps<T>(tid: nat): seq<Event<T>> { [Advance(tid), Advance(tid), Advance(tid), Advance(tid)] }

  function FourSteps<T>(s: State<T>, tid: nat): State<T>
    requires s.Capacity() > 0
  {
    AdvanceThread(AdvanceThread(AdvanceThread(AdvanceThread(s, tid), tid), tid), tid)
  }

  lemma {:induction false} RunSteps<T>(s: State<T>, events: seq<Event<T>>, e: Event<T>, tid: nat)
    requires s.Capacity() > 0
    ensures Run(s, events + [e] + Steps(tid)) == FourSteps(Step(Run(s, events), e), tid)
  {
    hide AdvanceThread;
    var b1 := events + [e];
    var b2 := b1 + [Advance(tid)];
    var b3 := b2 + [Advance(tid)];
    var b4 := b3 + [Advance(tid)];
    RunAppend(s, events, e);
    RunAppend(s, b1, Advance(tid));
    RunAppend(s, b2, Advance(tid));
    RunAppend(s, b3, Advance(tid));
    RunAppend(s, b4, Advance(tid));
    assert b4 + [Advance(tid)] == events + [e] + Steps(tid);
  }

  /** All that the other threads and later calls can see of a state. */
  predicate SameBut<T(==)>(a: State<T>, b: State<T>, tid: nat) {
    && a.slots == b.slots && a.head == b.head && a.tail == b.tail && a.enq == b.enq && a.got == b.got
    && a.threads - {tid} == b.threads - {tid}
  }

  lemma {:induction false} RefusedAlone<T>(s: State<T>, tid: nat)
    requires s.Capacity() > 0 && AdvanceThread(s, tid) == Return(s, tid, Refused)
    ensures FourSteps(s, tid) == Return(s, tid, Refused)
  {
    var r := Return(s, tid, Refused);
    assert PcOf(r, tid) == Idle;
    assert AdvanceThread(r, tid) == r;
  }

  lemma {:induction false} EnqueueSteps<T>(r: State<T>, tid: nat, v: T)
    requires r.Capacity() > 0 && PcOf(r, tid) == EnqLoaded(v, r.tail)
    requires r.slots[Idx(r.tail, r.Capacity())].version == r.tail
    ensures var i := Idx(r.tail, r.Capacity());
            var r' := FourSteps(r, tid);
            && r' == r.(slots := r.slots[i := Slot(r.tail + 1, v)], tail := r.tail + 1, enq := r.enq + [v],
                        threads := r'.threads, outs := r.outs[tid := Accepted])
            && PcOf(r', tid) == Idle && r'.threads - {tid} == r.threads - {tid}
  {
    var t := r.tail;
    var r2 := Goto(r, tid, EnqChecked(v, t));
    var r3 := WinTail(r2, tid, v, t);
    var r4 := PutValue(r3, tid, v, t);
    var r5 := Publish(r4, tid, t);
    assert AdvanceThread(r, tid) == r2 && AdvanceThread(r2, tid) == r3;
    assert AdvanceThread(r3, tid) == r4 && AdvanceThread(r4, tid) == r5;
  }

  lemma {:induction false} DequeueSteps<T>(r: State<T>, tid: nat)
    requires r.Capacity() > 0 && PcOf(r, tid) == DeqLoaded(r.head)
    requires r.slots[Idx(r.head, r.Capacity())].version == r.head + 1
    ensures var i, n := Idx(r.head, r.Capacity()), r.Capacity();
            var v := r.slots[i].value;
            var r' := FourSteps(r, tid);
            && r' == r.(slots := r.slots[i := Slot(r.head + n, v)], head := r.head + 1, got := r.got[r.head := v],
                        threads := r'.threads, outs := r.outs[tid := Taken(v)])
            && PcOf(r', tid) == Idle && r'.threads - {tid} == r.threads - {tid}
  {
    var h, v := r.head, r.slots[Idx(r.head, r.Capacity())].value;
    var r2 := Goto(r, tid, DeqChecked(h));
    var r3 := WinHead(r2, tid, h);
    var r4 := Goto(r3, tid, DeqRead(h, v));
    var r5 := Release(r4, tid, h, v);
    assert AdvanceThread(r, tid) == r2 && AdvanceThread(r2, tid) == r3;
    assert AdvanceThread(r3, tid) == r4 && AdvanceThread(r4, tid) == r5;
  }

  /**
   In every reachable state, an enqueue by an idle thread that runs alone to its end puts its item if and only if there
   is room, and otherwise returns false and changes nothing.
   */
  lemma {:induction false} LoneEnqueue<T>(s: State<T>, events: seq<Event<T>>, tid: nat, v: T)
    requires Init(s) && s.Capacity() >= 2 && PcOf(Run(s, events), tid) == Idle
    ensures var r, r' := Run(s, events), Run(s, events + [CallEnqueue(tid, v)] + Steps(tid));
            && PcOf(r', tid) == Idle && tid in r'.outs
            && if Room(r, r.tail)
               then r'.outs[tid] == Accepted && r'.enq == r.enq + [v] && r'.head == r.head && r'.got == r.got
                    && At(r', r.tail, InRing)
               else r'.outs[tid] == Refused && SameBut(r, r', tid)
  {
    hide Run, Inv, FourSteps, Room;
    var r := Run(s, events);
    RunHolds(s, events);
    RunSteps(s, events, CallEnqueue(tid, v), tid);
    VersionTellsRoom(r);
    var r1 := Goto(r, tid, EnqLoaded(v, r.tail));
    assert r.tail == |r.enq| by { TailIsLength(r); }
    if Room(r, r.tail) { EnqueueSteps(r1, tid, v); } else { RefusedAlone(r1, tid); }
  }

  lemma {:induction false} TailIsLength<T>(s: State<T>)
    requires Inv(s)
    ensures s.head <= s.tail == |s.enq|
  {
    hide ThreadOk, Exclusive, SlotOk;
  }

  /**
   In every reachable state, a dequeue by an idle thread that runs alone to its end returns the oldest item if it is
   ready, and otherwise returns false and changes nothing.
   */
  lemma {:induction false} LoneDequeue<T>(s: State<T>, events: seq<Event<T>>, tid: nat)
    requires Init(s) && s.Capacity() >= 2 && PcOf(Run(s, events), tid) == Idle
    ensures var r, r' := Run(s, events), Run(s, events + [CallDequeue(tid)] + Steps(tid));
            && PcOf(r', tid) == Idle && tid in r'.outs
            && if Ready(r, r.head)
               then r.head < |r.enq| && r'.outs[tid] == Taken(r.enq[r.head]) && r'.head == r.head + 1
                    && r'.got == r.got[r.head := r.enq[r.head]] && r'.tail == r.tail && r'.enq == r.enq
               else r'.outs[tid] == Refused && SameBut(r, r', tid)
  {
    hide Run, Inv, FourSteps;
    var r := Run(s, events);
    RunHolds(s, events);
    RunSteps(s, events, CallDequeue(tid), tid);
    VersionTellsReady(r);
    var r1 := Goto(r, tid, DeqLoaded(r.head));
    if Ready(r, r.head) { DequeueSteps(r1, tid); } else { RefusedAlone(r1, tid); }
  }

  // ---------------------------------------------------------------- a call among others

  /** Thread `tid` is inside one call from event `c`, which starts it, to event `d`, which ends it. */
  ghost predicate IsCall<T>(s: State<T>, events: seq<Event<T>>, tid: nat, c: nat, d: nat)
    requires s.Capacity() > 0
  {
    && c < d < |events|
    && PcOf(Run(s, events[..c]), tid).Idle?
    && (forall j | c < j <= d :: !PcOf(Run(s, events[..j]), tid).Idle?)
    && PcOf(Run(s, events[..d + 1]), tid).Idle?
  }

  lemma {:induction false} RunNext<T>(s: State<T>, events: seq<Event<T>>, j: nat)
    requires s.Capacity() > 0 && j < |events|
    ensures Run(s, events[..j + 1]) == Step(Run(s, events[..j]), events[j])
  {
    RunAppend(s, events[..j], events[j]);
    assert events[..j + 1] == events[..j] + [events[j]];
  }

  predicate Dequeues<T>(pc: Pc<T>, h: nat) {
    (pc.DeqLoaded? || pc.DeqChecked? || pc.DeqOwned? || pc.DeqRead?) && pc.ticket == h
  }

  predicate Enqueues<T(==)>(pc: Pc<T>, v: T, t: nat) {
    (pc.EnqLoaded? || pc.EnqChecked? || pc.EnqOwned? || pc.EnqStored?) && pc.ticket == t && pc.item == v
  }

  /** A step of one thread leaves the others where they are. */
  lemma {:induction false} OtherStays<T>(s: State<T>, u: nat, tid: nat)
    requires s.Capacity() > 0 && u != tid
    ensures PcOf(AdvanceThread(s, u), tid) == PcOf(s, tid)
  {
    hide AdvanceThread;
    if Enqueuing(PcOf(s, u)) { EnqueueStays(s, u, tid); } else { DequeueStays(s, u, tid); }
  }

  predicate Enqueuing<T>(pc: Pc<T>) { pc.EnqLoaded? || pc.EnqChecked? || pc.EnqOwned? || pc.EnqStored? }

  lemma {:induction false} EnqueueStays<T>(s: State<T>, u: nat, tid: nat)
    requires s.Capacity() > 0 && u != tid && Enqueuing(PcOf(s, u))
    ensures PcOf(AdvanceThread(s, u), tid) == PcOf(s, tid)
  {
    hide Idx;
  }

  lemma {:induction false} DequeueStays<T>(s: State<T>, u: nat, tid: nat)
    requires s.Capacity() > 0 && u != tid && !Enqueuing(PcOf(s, u))
    ensures PcOf(AdvanceThread(s, u), tid) == PcOf(s, tid)
  {
    hide Idx;
  }

  lemma {:induction false} DequeueKept<T>(s: State<T>, e: Event<T>, tid: nat, h: nat)
    requires s.Capacity() > 0 && Dequeues(PcOf(s, tid), h)
    ensures Dequeues(PcOf(Step(s, e), tid), h) || PcOf(Step(s, e), tid).Idle?
  {
    hide AdvanceThread;
    if e.Advance? {
      if e.tid == tid { OwnDequeueKept(s, tid, h); } else { OtherStays(s, e.tid, tid); }
    }
  }

  lemma {:induction false} OwnDequeueKept<T>(s: State<T>, tid: nat, h: nat)
    requires s.Capacity() > 0 && Dequeues(PcOf(s, tid), h)
    ensures Dequeues(PcOf(AdvanceThread(s, tid), tid), h) || PcOf(AdvanceThread(s, tid), tid).Idle?
  {
    hide Idx;
  }

  lemma {:induction false} EnqueueKept<T>(s: State<T>, e: Event<T>, tid: nat, v: T, t: nat)
    requires s.Capacity() > 0 && Enqueues(PcOf(s, tid), v, t)
    ensures Enqueues(PcOf(Step(s, e), tid), v, t) || PcOf(Step(s, e), tid).Idle?
  {
    hide AdvanceThread;
    if e.Advance? {
      if e.tid == tid { OwnEnqueueKept(s, tid, v, t); } else { OtherStays(s, e.tid, tid); }
    }
  }

  lemma {:induction false} OwnEnqueueKept<T>(s: State<T>, tid: nat, v: T, t: nat)
    requires s.Capacity() > 0 && Enqueues(PcOf(s, tid), v, t)
    ensures Enqueues(PcOf(AdvanceThread(s, tid), tid), v, t) || PcOf(AdvanceThread(s, tid), tid).Idle?
  {
    hide Idx;
  }

  lemma {:induction false} InsideDequeue<T>(s: State<T>, events: seq<Event<T>>, tid: nat, c: nat, d: nat, j: nat)
    requires s.Capacity() > 0 && IsCall(s, events, tid, c, d) && events[c] == CallDequeue(tid) && c < j <= d
    ensures Dequeues(PcOf(Run(s, events[..j]), tid), Run(s, events[..c]).head)
    decreases j
  {
    hide Run, AdvanceThread;
    RunNext(s, events, j - 1);
    if c + 1 < j {
      InsideDequeue(s, events, tid, c, d, j - 1);
      DequeueKept(Run(s, events[..j - 1]), events[j - 1], tid, Run(s, events[..c]).head);
    }
  }

  lemma {:induction false} InsideEnqueue<T>(s: State<T>, events: seq<Event<T>>, tid: nat, v: T, c: nat, d: nat, j: nat)
    requires s.Capacity() > 0 && IsCall(s, events, tid, c, d) && events[c] == CallEnqueue(tid, v) && c < j <= d
    ensures Enqueues(PcOf(Run(s, events[..j]), tid), v, Run(s, events[..c]).tail)
    decreases j
  {
    hide Run, AdvanceThread;
    RunNext(s, events, j - 1);
    if c + 1 < j {
      InsideEnqueue(s, events, tid, v, c, d, j - 1);
      EnqueueKept(Run(s, events[..j - 1]), events[j - 1], tid, v, Run(s, events[..c]).tail);
    }
  }

  /** A call is ended by a step of its own thread. */
  lemma {:induction false} EndedByOwn<T>(r: State<T>, e: Event<T>, tid: nat)
    requires r.Capacity() > 0 && !PcOf(r, tid).Idle? && PcOf(Step(r, e), tid).Idle?
    ensures Step(r, e) == AdvanceThread(r, tid)
  {
    hide AdvanceThread;
    if e.Advance? && e.tid != tid { OtherStays(r, e.tid, tid); }
  }

  /** What a finished dequeue of ticket `h` has returned, if not false. */
  predicate HasTaken<T(==)>(r: State<T>, tid: nat, h: nat) {
    && tid in r.outs && !r.outs[tid].Accepted?
    && (r.outs[tid].Taken? ==> h < |r.enq| && h in r.got && r.outs[tid].item == r.got[h] == r.enq[h])
  }

  /** What a finished enqueue of `v` with ticket `t` has done, if it did not return false. */
  predicate HasPut<T(==)>(r: State<T>, tid: nat, v: T, t: nat) {
    && r.Capacity() > 0 && tid in r.outs && !r.outs[tid].Taken?
    && (r.outs[tid].Accepted? ==>
          t < |r.enq| && r.enq[t] == v && r.slots[Idx(t, r.Capacity())] == Slot(t + 1, v))
  }

  lemma {:induction false} DequeueEnds<T>(r: State<T>, tid: nat, h: nat)
    requires Inv(r) && Dequeues(PcOf(r, tid), h) && PcOf(AdvanceThread(r, tid), tid).Idle?
    ensures HasTaken(AdvanceThread(r, tid), tid, h)
    ensures AdvanceThread(r, tid).outs[tid].Refused? ==> !Ready(r, h)
  {
    hide SlotOk, HistoryOk, Exclusive;
    assert ThreadOk(r, PcOf(r, tid));
  }

  lemma {:induction false} EnqueueEnds<T>(r: State<T>, tid: nat, v: T, t: nat)
    requires Inv(r) && Enqueues(PcOf(r, tid), v, t) && PcOf(AdvanceThread(r, tid), tid).Idle?
    ensures HasPut(AdvanceThread(r, tid), tid, v, t)
    ensures AdvanceThread(r, tid).outs[tid].Refused? ==> !Room(r, t)
  {
    hide SlotOk, HistoryOk, Exclusive;
    assert ThreadOk(r, PcOf(r, tid));
    VersionTellsRoom(r);
  }

  /**
   In every interleaving: a dequeue that returns an item returns the one of the ticket that was next when it was called,
   and one that returns false had an instant at which that item was not ready, or was another thread's.
   */
  lemma {:induction false} DequeueCall<T>(s: State<T>, events: seq<Event<T>>, tid: nat, c: nat, d: nat)
    requires Init(s) && s.Capacity() >= 2 && IsCall(s, events, tid, c, d) && events[c] == CallDequeue(tid)
    ensures var h, r' := Run(s, events[..c]).head, Run(s, events[..d + 1]);
            && HasTaken(r', tid, h)
            && (r'.outs[tid].Refused? ==> exists j | c <= j <= d :: !Ready(Run(s, events[..j]), h))
  {
    hide Run, Inv, Ready, Step, AdvanceThread;
    RunHolds(s, events[..d]);
    InsideDequeue(s, events, tid, c, d, d);
    RunNext(s, events, d);
    EndedByOwn(Run(s, events[..d]), events[d], tid);
    DequeueEnds(Run(s, events[..d]), tid, Run(s, events[..c]).head);
  }

  /**
   In every interleaving: an enqueue that returns true has put its item, under the ticket that was next when it was
   called, and one that returns false had an instant at which there was no room for that ticket, or it was another
   thread's.
   */
  lemma {:induction false} EnqueueCall<T>(s: State<T>, events: seq<Event<T>>, tid: nat, v: T, c: nat, d: nat)
    requires Init(s) && s.Capacity() >= 2 && IsCall(s, events, tid, c, d) && events[c] == CallEnqueue(tid, v)
    ensures var t, r' := Run(s, events[..c]).tail, Run(s, events[..d + 1]);
            && HasPut(r', tid, v, t)
            && (r'.outs[tid].Refused? ==> exists j | c <= j <= d :: !Room(Run(s, events[..j]), t))
  {
    hide Run, Inv, Room, Step, AdvanceThread;
    RunHolds(s, events[..d]);
    InsideEnqueue(s, events, tid, v, c, d, d);
    RunNext(s, events, d);
    EndedByOwn(Run(s, events[..d]), events[d], tid);
    EnqueueEnds(Run(s, events[..d]), tid, v, Run(s, events[..c]).tail);
  }
}
