/**
 The one-producer, one-consumer ring of include/queue.h (class `Queue11`).

 Each atomic load and store of `try_enqueue` and `try_dequeue` is one step; the two threads
 interleave in any way.  `put` and `taken` record the items whose operation has taken effect.
 */
module SpscQueue {
  import opened RingIndex

  datatype ProducerPc<T> =
    | PIdle
    | PLoaded(item: T, tail: nat)   // read m_tail, about to read m_head
    | PRoom(item: T, tail: nat)     // saw room, about to store the item
    | PWrote(item: T, tail: nat)    // item stored, about to store m_tail

  datatype ConsumerPc<T> =
    | CIdle
    | CLoaded(head: nat)            // read m_head, about to read m_tail
    | CData(head: nat)              // saw data, about to read the item
    | CRead(head: nat, item: T)     // item read, about to store m_head

  datatype State<T> = State(
    items: seq<T>,
    head: nat,
    tail: nat,
    prod: ProducerPc<T>,
    cons: ConsumerPc<T>,
    put: seq<T>,
    taken: seq<T>)

  ghost predicate Init<T>(s: State<T>) {
    |s.items| > 0 && s.head == 0 && s.tail == 0 && s.prod == PIdle && s.cons == CIdle && s.put == [] && s.taken == []
  }

  datatype Event<T> = CallEnqueue(arg: T) | CallDequeue | Produce | Consume

  function ProducerStep<T>(s: State<T>): (r: State<T>)
    requires |s.items| > 0
    ensures |r.items| == |s.items|
  {
    var n := |s.items|;
    match s.prod
    case PIdle => s
    case PLoaded(v, t) => s.(prod := if s.head == Idx(t + 1, n) then PIdle else PRoom(v, t))
    case PRoom(v, t) => if t < n then s.(items := s.items[t := v], prod := PWrote(v, t)) else s
    case PWrote(v, t) => s.(tail := Idx(t + 1, n), prod := PIdle, put := s.put + [v])
  }

  function ConsumerStep<T>(s: State<T>): (r: State<T>)
    requires |s.items| > 0
    ensures |r.items| == |s.items|
  {
    match s.cons
    case CIdle => s
    case CLoaded(h) => s.(cons := if s.tail == h then CIdle else CData(h))
    case CData(h) => if h < |s.items| then s.(cons := CRead(h, s.items[h])) else s
    case CRead(h, v) => s.(head := Idx(h + 1, |s.items|), cons := CIdle, taken := s.taken + [v])
  }

  function Step<T>(s: State<T>, e: Event<T>): (r: State<T>)
    requires |s.items| > 0
    ensures |r.items| == |s.items|
  {
    match e
    case CallEnqueue(v) => if s.prod.PIdle? then s.(prod := PLoaded(v, s.tail)) else s
    case CallDequeue => if s.cons.CIdle? then s.(cons := CLoaded(s.head)) else s
    case Produce => ProducerStep(s)
    case Consume => ConsumerStep(s)
  }

  function Run<T>(s: State<T>, events: seq<Event<T>>): (r: State<T>)
    requires |s.items| > 0
    ensures |r.items| == |s.items|
    decreases |events|
  {
    if events == [] then s
    else Step(Run(s, events[..|events| - 1]), events[|events| - 1])
  }

  ghost predicate RingOk<T>(s: State<T>) {
    && |s.items| > 0
    && |s.taken| <= |s.put| < |s.taken| + |s.items|
    && s.taken == s.put[..|s.taken|]
    && s.head == Idx(|s.taken|, |s.items|)
    && s.tail == Idx(|s.put|, |s.items|)
    && (forall k: nat | |s.taken| <= k < |s.put| :: s.items[Idx(k, |s.items|)] == s.put[k])
  }

  ghost predicate ProducerOk<T>(s: State<T>) {
    match s.prod
    case PIdle => true
    case PLoaded(_, t) => t == s.tail
    case PRoom(_, t) => t == s.tail && |s.put| + 1 < |s.taken| + |s.items|
    case PWrote(v, t) => t == s.tail && |s.put| + 1 < |s.taken| + |s.items| && t < |s.items| && s.items[t] == v
  }

  ghost predicate ConsumerOk<T>(s: State<T>) {
    match s.cons
    case CIdle => true
    case CLoaded(h) => h == s.head
    case CData(h) => h == s.head && |s.taken| < |s.put|
    case CRead(h, v) => h == s.head && |s.taken| < |s.put| && v == s.put[|s.taken|]
  }

  ghost predicate Inv<T>(s: State<T>) {
    RingOk(s) && ProducerOk(s) && ConsumerOk(s)
  }

  /** The queue as its users see it. */
  function Contents<T>(s: State<T>): seq<T>
    requires |s.taken| <= |s.put|
  {
    s.put[|s.taken|..]
  }

  // ---------------------------------------------------------------- proofs

  lemma {:induction false} DistinctIdx(a: nat, b: nat, n: nat)
    requires n > 0 && a < b < a + n
    ensures Idx(a, n) != Idx(b, n)
  {
    if Idx(a, n) == Idx(b, n) { SameIdx(a, b, n); }
  }

  lemma {:induction false} SeesRoom<T>(s: State<T>)
    requires RingOk(s)
    ensures s.head == Idx(s.tail + 1, |s.items|) <==> |s.put| + 1 == |s.taken| + |s.items|
  {
    var n := |s.items|;
    IdxNext(|s.put|, n);
    if |s.put| + 1 < |s.taken| + n { DistinctIdx(|s.taken|, |s.put| + 1, n); }
  }

  lemma {:induction false} SeesData<T>(s: State<T>)
    requires RingOk(s)
    ensures s.head == s.tail <==> s.taken == s.put
  {
    if |s.taken| < |s.put| { DistinctIdx(|s.taken|, |s.put|, |s.items|); }
  }

  lemma {:induction false} KeepsStore<T>(s: State<T>)
    requires Inv(s) && s.prod.PRoom?
    ensures Inv(ProducerStep(s))
  {
    var n := |s.items|;
    forall k: nat | |s.taken| <= k < |s.put| ensures Idx(k, n) != s.prod.tail { DistinctIdx(k, |s.put|, n); }
  }

  lemma {:induction false} KeepsCommit<T>(s: State<T>)
    requires Inv(s) && s.prod.PWrote?
    ensures Inv(ProducerStep(s))
  {
    hide Idx;
    var n, r := |s.items|, ProducerStep(s);
    IdxNext(|s.put|, n);
    forall k: nat | |r.taken| <= k < |r.put| ensures r.items[Idx(k, n)] == r.put[k] {
      if k < |s.put| { assert s.items[Idx(k, n)] == s.put[k]; }
    }
    assert r.taken == r.put[..|r.taken|];
  }

  lemma {:induction false} KeepsProducer<T>(s: State<T>)
    requires Inv(s)
    ensures Inv(ProducerStep(s))
  {
    match s.prod
    case PIdle =>
    case PLoaded(v, t) => SeesRoom(s);
    case PRoom(v, t) => KeepsStore(s);
    case PWrote(v, t) => KeepsCommit(s);
  }

  lemma {:induction false} KeepsTake<T>(s: State<T>)
    requires Inv(s) && s.cons.CRead?
    ensures Inv(ConsumerStep(s))
  {
    var k := |s.taken|;
    IdxNext(k, |s.items|);
    assert s.put[..k + 1] == s.put[..k] + [s.put[k]];
  }

  lemma {:induction false} KeepsConsumer<T>(s: State<T>)
    requires Inv(s)
    ensures Inv(ConsumerStep(s))
  {
    match s.cons
    case CIdle =>
    case CLoaded(h) => SeesData(s);
    case CData(h) =>
    case CRead(h, v) => KeepsTake(s);
  }

  lemma {:induction false} KeepsStep<T>(s: State<T>, e: Event<T>)
    requires Inv(s)
    ensures Inv(Step(s, e))
  {
    KeepsProducer(s);
    KeepsConsumer(s);
  }

  lemma {:induction false} RunHolds<T>(s: State<T>, events: seq<Event<T>>)
    requires Init(s)
    ensures Inv(Run(s, events))
    decreases |events|
  {
    if events != [] {
      RunHolds(s, events[..|events| - 1]);
      KeepsStep(Run(s, events[..|events| - 1]), events[|events| - 1]);
    }
  }

  datatype FifoOp<T> = Nop | Push(item: T) | Pop(item: T)

  /** The operation that takes effect with event `e`: the store of m_tail, or the store of m_head. */
  function EffectOf<T>(s: State<T>, e: Event<T>): FifoOp<T> {
    if e.Produce? && s.prod.PWrote? then Push(s.prod.item)
    else if e.Consume? && s.cons.CRead? then Pop(s.cons.item)
    else Nop
  }

  /** A FIFO of at most `bound` items. */
  ghost predicate FifoStep<T>(before: seq<T>, op: FifoOp<T>, after: seq<T>, bound: nat) {
    match op
    case Nop => after == before
    case Push(v) => |before| < bound && after == before + [v]
    case Pop(v) => before != [] && v == before[0] && after == before[1..]
  }

  lemma {:induction false} StepIsFifo<T>(r: State<T>, e: Event<T>)
    requires |r.items| > 0 && |r.taken| <= |r.put| && ProducerOk(r) && ConsumerOk(r)
    ensures |Step(r, e).taken| <= |Step(r, e).put|
    ensures FifoStep(Contents(r), EffectOf(r, e), Contents(Step(r, e)), |r.items| - 1)
  {
    var k := |r.taken|;
    if e.Produce? && r.prod.PWrote? {
      assert (r.put + [r.prod.item])[k..] == r.put[k..] + [r.prod.item];
    } else if e.Consume? && r.cons.CRead? {
      assert r.put[k + 1..] == r.put[k..][1..];
    }
  }

  /**
   Refinement: in every interleaving, each atomic step acts on the contents as one step of a FIFO
   of `capacity - 1` items, and what has been taken is what was put, in the order it was put.
   */
  lemma {:induction false} RefinesFifo<T>(s: State<T>, events: seq<Event<T>>, e: Event<T>)
    requires Init(s)
    ensures var r := Run(s, events);
            && |r.taken| <= |r.put| && r.taken == r.put[..|r.taken|]
            && |Step(r, e).taken| <= |Step(r, e).put|
            && FifoStep(Contents(r), EffectOf(r, e), Contents(Step(r, e)), |s.items| - 1)
  {
    RunHolds(s, events);
    StepIsFifo(Run(s, events), e);
  }

  /** An enqueue is refused only at an instant when `capacity - 1` items are held; a dequeue only when none is. */
  lemma {:induction false} RefusalsAreHonest<T>(s: State<T>, events: seq<Event<T>>)
    requires Init(s)
    ensures var r := Run(s, events);
            && |r.taken| <= |r.put|
            && (r.prod.PLoaded? ==> (ProducerStep(r).prod.PIdle? <==> |Contents(r)| == |s.items| - 1))
            && (r.cons.CLoaded? ==> (ConsumerStep(r).cons.CIdle? <==> Contents(r) == []))
  {
    RunHolds(s, events);
    var r := Run(s, events);
    SeesRoom(r);
    SeesData(r);
  }

  // ---------------------------------------------------------------- whole calls

  lemma {:induction false} RunNext<T>(s: State<T>, events: seq<Event<T>>, j: nat)
    requires |s.items| > 0 && j < |events|
    ensures Run(s, events[..j + 1]) == Step(Run(s, events[..j]), events[j])
  {
    assert events[..j + 1][..j] == events[..j];
  }

  /** The producer is inside one call from event `c`, which starts it, to event `d`, which ends it. */
  ghost predicate IsEnqueue<T>(s: State<T>, events: seq<Event<T>>, v: T, c: nat, d: nat)
    requires |s.items| > 0
  {
    && c < d < |events| && events[c] == CallEnqueue(v)
    && Run(s, events[..c]).prod.PIdle?
    && (forall j | c < j <= d :: !Run(s, events[..j]).prod.PIdle?)
    && Run(s, events[..d + 1]).prod.PIdle?
  }

  ghost predicate IsDequeue<T>(s: State<T>, events: seq<Event<T>>, c: nat, d: nat)
    requires |s.items| > 0
  {
    && c < d < |events| && events[c] == CallDequeue
    && Run(s, events[..c]).cons.CIdle?
    && (forall j | c < j <= d :: !Run(s, events[..j]).cons.CIdle?)
    && Run(s, events[..d + 1]).cons.CIdle?
  }

  lemma {:induction false} InsideEnqueue<T>(s: State<T>, events: seq<Event<T>>, v: T, c: nat, d: nat, j: nat)
    requires |s.items| > 0 && IsEnqueue(s, events, v, c, d) && c < j <= d
    ensures Run(s, events[..j]).prod.item == v && Run(s, events[..j]).put == Run(s, events[..c]).put
    decreases j
  {
    hide Run;
    RunNext(s, events, j - 1);
    if c + 1 < j { InsideEnqueue(s, events, v, c, d, j - 1); }
  }

  lemma {:induction false} InsideDequeue<T>(s: State<T>, events: seq<Event<T>>, c: nat, d: nat, j: nat)
    requires |s.items| > 0 && IsDequeue(s, events, c, d) && c < j <= d
    ensures Run(s, events[..j]).taken == Run(s, events[..c]).taken
    decreases j
  {
    hide Run;
    RunNext(s, events, j - 1);
    if c + 1 < j { InsideDequeue(s, events, c, d, j - 1); }
  }

  /** The ring holds `n` items. */
  predicate Holds<T>(s: State<T>, n: int) { |s.put| - |s.taken| == n }

  /** In every interleaving, an enqueue puts its item, unless at some instant of it `capacity - 1` items are held. */
  lemma {:induction false} EnqueueCall<T>(s: State<T>, events: seq<Event<T>>, v: T, c: nat, d: nat)
    requires Init(s) && IsEnqueue(s, events, v, c, d)
    ensures var r, r' := Run(s, events[..c]), Run(s, events[..d + 1]);
            || r'.put == r.put + [v]
            || (r'.put == r.put && exists j | c <= j <= d :: Holds(Run(s, events[..j]), |s.items| - 1))
  {
    hide Run;
    var r := Run(s, events[..d]);
    RunHolds(s, events[..d]);
    InsideEnqueue(s, events, v, c, d, d);
    RunNext(s, events, d);
    SeesRoom(r);
    assert r.prod.PWrote? || Holds(r, |s.items| - 1);
  }

  /** In every interleaving, a dequeue takes the oldest item, unless at some instant of it none is held. */
  lemma {:induction false} DequeueCall<T>(s: State<T>, events: seq<Event<T>>, c: nat, d: nat)
    requires Init(s) && IsDequeue(s, events, c, d)
    ensures var r, r' := Run(s, events[..c]), Run(s, events[..d + 1]);
            || (|r.taken| < |r'.put| && r'.taken == r.taken + [r'.put[|r.taken|]])
            || (r'.taken == r.taken && exists j | c <= j <= d :: Holds(Run(s, events[..j]), 0))
  {
    hide Run;
    var r := Run(s, events[..d]);
    RunHolds(s, events[..d]);
    InsideDequeue(s, events, c, d, d);
    RunNext(s, events, d);
    SeesData(r);
    assert r.cons.CRead? || Holds(r, 0);
  }

  /** A call that runs alone ends after three steps, and puts its item exactly if fewer than `capacity - 1` are held. */
  lemma {:induction false} LoneEnqueue<T>(s: State<T>, events: seq<Event<T>>, v: T)
    requires Init(s) && Run(s, events).prod.PIdle?
    ensures var r := Run(s, events);
            var r' := ProducerStep(ProducerStep(ProducerStep(Step(r, CallEnqueue(v)))));
            |r.taken| <= |r.put| && r'.prod.PIdle?
            && r'.put == if |Contents(r)| < |s.items| - 1 then r.put + [v] else r.put
  {
    hide Run;
    RunHolds(s, events);
    SeesRoom(Run(s, events));
  }

  /** A call that runs alone ends after three steps, and takes the oldest item if there is one. */
  lemma {:induction false} LoneDequeue<T>(s: State<T>, events: seq<Event<T>>)
    requires Init(s) && Run(s, events).cons.CIdle?
    ensures var r := Run(s, events);
            var r' := ConsumerStep(ConsumerStep(ConsumerStep(Step(r, CallDequeue))));
            |r.taken| <= |r.put| && r'.cons.CIdle?
            && r'.taken == if Contents(r) != [] then r.taken + [Contents(r)[0]] else r.taken
  {
    hide Run;
    RunHolds(s, events);
    SeesData(Run(s, events));
  }
}
