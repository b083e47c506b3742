/**
 The task scheduler of src/core/task.cpp: one submitting thread, any number of workers, each fed
 by its own one-producer, one-consumer ring.  The submitter and the workers interleave at the
 granularity of the rings' atomic steps, and shutdown may be requested at any time.
 */
module TaskScheduler {
  import opened RingIndex
  import Q = SpscQueue

  /** A submitted task; `num` identifies the submission and `runnable` says `doit != nullptr`. */
  datatype Task = Task(num: nat, runnable: bool)

  datatype WorkerPc =
    | Polling            // in the dequeue loop
    | Got(task: Task)    // a dequeue succeeded, the task has not been looked at
    | Stopped

  datatype Worker = Worker(queue: Q.State<Task>, pc: WorkerPc, stop: bool, ran: seq<Task>)

  /** Where the submitter stands inside `submit_task(task, id)`. */
  datatype SubmitPc =
    | SIdle
    | SEntry(id: int)                         // about to check for shutdown
    | SLoop(id: int, i: nat)                  // about to pick the next worker to try
    | STry(id: int, i: nat, target: nat)      // inside try_enqueue on worker `target`
    | SRetry(id: int)                         // every try of this round was refused
    | SDone(assignee: int)                    // about to advance m_next_worker and return

  /** `asked[n]` is the worker that the submission numbered `n` was for, and `results[n]` is what it returned. */
  datatype State = State(
    workers: seq<Worker>,
    next: nat,
    stop: bool,
    pc: SubmitPc,
    task: Task,
    asked: map<nat, int>,
    results: map<nat, int>,
    count: nat)

  datatype Event =
    | Submit(id: int, runnable: bool)
    | Submitter
    | WorkerStep(i: nat)
    | Shutdown
    | ShutdownWorker(i: nat)

  ghost predicate Init(s: State) {
    && |s.workers| > 0
    && (forall i | 0 <= i < |s.workers| ::
          Q.Init(s.workers[i].queue) && s.workers[i].pc == Polling && !s.workers[i].stop && s.workers[i].ran == [])
    && s.next == 0 && !s.stop && s.pc == SIdle && s.asked == map[] && s.results == map[] && s.count == 0
  }

  predicate Direct(s: State, id: int) { 0 <= id < |s.workers| }

  function SetQueue(s: State, i: nat, q: Q.State<Task>): State
    requires i < |s.workers|
  {
    s.(workers := s.workers[i := s.workers[i].(queue := q)])
  }

  predicate Shaped(s: State) {
    && |s.workers| > 0 && s.next < |s.workers|
    && (forall i | 0 <= i < |s.workers| :: |s.workers[i].queue.items| > 0)
    && (s.pc.STry? ==> s.pc.target < |s.workers|)
  }

  /** The submitter starts `try_enqueue` on worker `target`. */
  function Begin(s: State, id: int, i: nat, target: nat): (r: State)
    requires Shaped(s) && target < |s.workers|
    ensures Shaped(r)
  {
    SetQueue(s, target, Q.Step(s.workers[target].queue, Q.CallEnqueue(s.task))).(pc := STry(id, i, target))
  }

  function Return(s: State, result: int): State {
    s.(pc := SIdle, results := if s.count > 0 then s.results[s.count - 1 := result] else s.results)
  }

  function TryStep(s: State, id: int, i: nat, target: nat): (r: State)
    requires Shaped(s) && s.pc == STry(id, i, target)
    ensures Shaped(r)
  {
    var q := s.workers[target].queue;
    var q' := Q.Step(q, Q.Produce);
    var s' := SetQueue(s, target, q');
    if !q'.prod.PIdle? then s'
    else if q.prod.PWrote? then s'.(pc := SDone(target))
    else if Direct(s, id) then s'.(pc := SRetry(id))
    else s'.(next := Idx(s.next + 1, |s.workers|), pc := SLoop(id, i + 1))
  }

  function SubmitterStep(s: State): (r: State)
    requires Shaped(s)
    ensures Shaped(r)
  {
    match s.pc
    case SIdle => s
    case SEntry(id) => if s.stop then Return(s, -1) else s.(pc := SLoop(id, 0))
    case SLoop(id, i) =>
      if Direct(s, id) then Begin(s, id, i, id)
      else if i < |s.workers| then Begin(s, id, i, s.next)
      else s.(pc := SRetry(id))
    case STry(id, i, target) => TryStep(s, id, i, target)
    case SRetry(id) => if s.stop then s.(pc := SDone(-1)) else s.(pc := SLoop(id, 0))
    case SDone(assignee) => Return(s.(next := Idx(s.next + 1, |s.workers|)), assignee)
  }

  function WorkerStepOf(w: Worker): Worker
    requires |w.queue.items| > 0
  {
    match w.pc
    case Stopped => w
    case Polling =>
      if w.queue.cons.CIdle? then
        if w.stop then w.(pc := Stopped) else w.(queue := Q.Step(w.queue, Q.CallDequeue))
      else
        var q' := Q.Step(w.queue, Q.Consume);
        if w.queue.cons.CRead? then w.(queue := q', pc := Got(w.queue.cons.item)) else w.(queue := q')
    case Got(task) =>
      if !task.runnable then w.(pc := Polling)
      else if w.stop then w.(pc := Stopped)
      else w.(ran := w.ran + [task], pc := Polling)
  }

  function Step(s: State, e: Event): (r: State)
    requires Shaped(s)
    ensures Shaped(r)
  {
    match e
    case Submit(id, runnable) =>
      if s.pc.SIdle? then
        s.(pc := SEntry(id), task := Task(s.count, runnable), asked := s.asked[s.count := id], count := s.count + 1)
      else s
    case Submitter => SubmitterStep(s)
    case WorkerStep(i) =>
      if i < |s.workers| then s.(workers := s.workers[i := WorkerStepOf(s.workers[i])]) else s
    case Shutdown => s.(stop := true)
    case ShutdownWorker(i) =>
      if i < |s.workers| then s.(workers := s.workers[i := s.workers[i].(stop := true)]) else s
  }

  function Run(s: State, events: seq<Event>): (r: State)
    requires Shaped(s)
    ensures Shaped(r)
    decreases |events|
  {
    if events == [] then s
    else Step(Run(s, events[..|events| - 1]), events[|events| - 1])
  }

  // ---------------------------------------------------------------- invariant

  /** The tasks of `ts` that have something to run, in order. */
  function Runnable(ts: seq<Task>): seq<Task>
    decreases |ts|
  {
    if ts == [] then []
    else
      var k := |ts| - 1;
      Runnable(ts[..k]) + (if ts[k].runnable then [ts[k]] else [])
  }

  /** A worker has run the runnable tasks it took, in order, except perhaps the last one. */
  ghost predicate WorkerOk(w: Worker) {
    && Q.Inv(w.queue)
    && match w.pc
       case Polling => w.ran == Runnable(w.queue.taken)
       case Got(task) =>
         var t := w.queue.taken;
         t != [] && t[|t| - 1] == task && w.ran == Runnable(t[..|t| - 1]) && w.queue.cons.CIdle?
       case Stopped =>
         var t := w.queue.taken;
         w.stop && (w.ran == Runnable(t) || (t != [] && w.ran == Runnable(t[..|t| - 1])))
  }

  /** Only the ring the submitter is working on has a producer in flight, and it carries the current task. */
  ghost predicate ProducersOk(s: State) {
    forall i | 0 <= i < |s.workers| ::
      var prod := s.workers[i].queue.prod;
      if s.pc.STry? && s.pc.target == i then !prod.PIdle? && prod.item == s.task else prod.PIdle?
  }

  ghost predicate Increasing(ts: seq<Task>) {
    forall j, k | 0 <= j < k < |ts| :: ts[j].num < ts[k].num
  }

  /** The submission numbered `n` is known to have gone to worker `i`. */
  predicate WentTo(s: State, n: nat, i: int) {
    || (n in s.results && s.results[n] == i)
    || (s.pc == SDone(i) && s.count > 0 && n == s.count - 1)
  }

  /** Each placed task is accounted for, and each successful submission is placed. */
  ghost predicate PlacesOk(s: State) {
    && (forall i, k | 0 <= i < |s.workers| && 0 <= k < |s.workers[i].queue.put| ::
          s.workers[i].queue.put[k].num < s.count && WentTo(s, s.workers[i].queue.put[k].num, i))
    && (forall i | 0 <= i < |s.workers| :: Increasing(s.workers[i].queue.put))
    && (forall n: nat, i: int | WentTo(s, n, i) && i != -1 ::
          0 <= i < |s.workers| && exists k | 0 <= k < |s.workers[i].queue.put| :: s.workers[i].queue.put[k].num == n)
    && (forall n | n in s.results :: n < s.count)
  }

  /** While a submission is under way its number is the newest, and it has no result yet. */
  ghost predicate CurrentOk(s: State) {
    && Shaped(s)
    && (!s.pc.SIdle? ==> s.count > 0 && s.task.num == s.count - 1 && s.count - 1 !in s.results)
  }

  ghost predicate WorkersOk(s: State) {
    forall i | 0 <= i < |s.workers| :: WorkerOk(s.workers[i])
  }

  ghost predicate Inv(s: State) {
    && CurrentOk(s)
    && WorkersOk(s)
    && ProducersOk(s)
    && PlacesOk(s)
  }

  // ---------------------------------------------------------------- every step keeps the invariant

  lemma {:induction false} KeepsPolling(w: Worker)
    requires WorkerOk(w) && w.pc.Polling? && !w.queue.cons.CIdle?
    ensures WorkerOk(WorkerStepOf(w))
  {
    Q.KeepsStep(w.queue, Q.Consume);
    if w.queue.cons.CRead? {
      assert (w.queue.taken + [w.queue.cons.item])[..|w.queue.taken|] == w.queue.taken;
    }
  }

  lemma {:induction false} KeepsCall(w: Worker)
    requires WorkerOk(w) && w.pc.Polling? && w.queue.cons.CIdle?
    ensures WorkerOk(WorkerStepOf(w))
  {
    Q.KeepsStep(w.queue, Q.CallDequeue);
  }

  lemma {:induction false} KeepsWorkerOk(w: Worker)
    requires WorkerOk(w)
    ensures WorkerOk(WorkerStepOf(w))
    ensures WorkerStepOf(w).queue.put == w.queue.put && WorkerStepOf(w).queue.prod == w.queue.prod
  {
    hide Q.Inv;
    if w.pc.Polling? {
      if w.queue.cons.CIdle? { KeepsCall(w); } else { KeepsPolling(w); }
    }
  }

  /** The bookkeeping depends only on what was put where and on the results so far. */
  lemma {:induction false} SamePlaces(s: State, s': State)
    requires PlacesOk(s) && |s'.workers| == |s.workers|
    requires forall j | 0 <= j < |s.workers| :: s'.workers[j].queue.put == s.workers[j].queue.put
    requires s'.count == s.count && s'.results == s.results
    requires forall n: nat, j: int | j != -1 :: WentTo(s', n, j) == WentTo(s, n, j)
    ensures PlacesOk(s')
  {
    forall i, k | 0 <= i < |s'.workers| && 0 <= k < |s'.workers[i].queue.put|
      ensures s'.workers[i].queue.put[k].num < s'.count && WentTo(s', s'.workers[i].queue.put[k].num, i)
    {
      assert WentTo(s, s.workers[i].queue.put[k].num, i);
    }
  }

  lemma {:induction false} ReplacePlaces(s: State, i: nat, w: Worker)
    requires PlacesOk(s) && i < |s.workers| && w.queue.put == s.workers[i].queue.put
    ensures PlacesOk(s.(workers := s.workers[i := w]))
  {
    var s' := s.(workers := s.workers[i := w]);
    assert forall j | 0 <= j < |s.workers| :: s'.workers[j].queue.put == s.workers[j].queue.put;
    SamePlaces(s, s');
  }

  lemma {:induction false} ReplaceWorkers(s: State, i: nat, w: Worker)
    requires WorkersOk(s) && CurrentOk(s) && ProducersOk(s) && i < |s.workers|
    requires WorkerOk(w) && w.queue.prod == s.workers[i].queue.prod
    ensures var s' := s.(workers := s.workers[i := w]); WorkersOk(s') && CurrentOk(s') && ProducersOk(s')
  {
    var s' := s.(workers := s.workers[i := w]);
    forall j | 0 <= j < |s.workers| ensures WorkerOk(s'.workers[j]) {
      assert WorkerOk(s.workers[j]);
    }
  }

  /** Replacing worker `i` by one with the same put items and producer leaves the bookkeeping intact. */
  lemma {:induction false} KeepsReplace(s: State, i: nat, w: Worker)
    requires Inv(s) && i < |s.workers|
    requires WorkerOk(w) && w.queue.put == s.workers[i].queue.put && w.queue.prod == s.workers[i].queue.prod
    ensures Inv(s.(workers := s.workers[i := w]))
  {
    ReplacePlaces(s, i, w);
    ReplaceWorkers(s, i, w);
  }

  /** Moving the submitter between points where it holds no ring. */
  lemma {:induction false} KeepsMove(s: State, s': State)
    requires Inv(s) && !s.pc.STry? && !s.pc.SDone? && !s.pc.SIdle?
    requires s' == s.(pc := s'.pc, stop := s'.stop)
    requires s'.pc.SLoop? || s'.pc.SRetry? || s'.pc == SDone(-1)
    ensures Inv(s')
  {
    hide WorkerOk;
    assert forall n: nat, j: int | j != -1 :: WentTo(s', n, j) == WentTo(s, n, j);
  }

  lemma {:induction false} KeepsBegin(s: State, id: int, i: nat, target: nat)
    requires Inv(s) && s.pc.SLoop? && target < |s.workers|
    ensures Inv(Begin(s, id, i, target))
  {
    hide Runnable, Q.Inv;
    var s' := Begin(s, id, i, target);
    Q.KeepsStep(s.workers[target].queue, Q.CallEnqueue(s.task));
    assert forall j | 0 <= j < |s.workers| :: s'.workers[j].queue.put == s.workers[j].queue.put;
    assert forall n: nat, j: int :: WentTo(s', n, j) == WentTo(s, n, j);
  }

  lemma {:induction false} KeepsProduce(w: Worker)
    requires WorkerOk(w)
    ensures WorkerOk(w.(queue := Q.Step(w.queue, Q.Produce)))
  {
    Q.KeepsStep(w.queue, Q.Produce);
  }

  /** What one step inside try_enqueue does to the workers. */
  lemma {:induction false} TryWorkers(s: State)
    requires Shaped(s) && s.pc.STry?
    requires WorkersOk(s)
    ensures WorkersOk(SubmitterStep(s))
  {
    hide Q.Step, WorkerOk;
    KeepsProduce(s.workers[s.pc.target]);
  }

  lemma {:induction false} TryProducers(s: State)
    requires CurrentOk(s) && s.pc.STry? && ProducersOk(s) && WorkerOk(s.workers[s.pc.target])
    ensures ProducersOk(SubmitterStep(s)) && CurrentOk(SubmitterStep(s))
  {
  }

  lemma {:induction false} TryPuts(s: State, j: nat)
    requires Shaped(s) && s.pc.STry? && j < |s.workers|
    ensures SubmitterStep(s).workers[j].queue.put == s.workers[j].queue.put
              + if j == s.pc.target && s.workers[j].queue.prod.PWrote? then [s.workers[j].queue.prod.item] else []
  {
  }

  lemma {:induction false} TryPlaces(s: State)
    requires Shaped(s) && s.pc.STry? && PlacesOk(s) && !s.workers[s.pc.target].queue.prod.PWrote?
    ensures PlacesOk(SubmitterStep(s))
  {
    forall j | 0 <= j < |s.workers| ensures SubmitterStep(s).workers[j].queue.put == s.workers[j].queue.put {
      TryPuts(s, j);
    }
    SamePlaces(s, SubmitterStep(s));
  }

  /** A step inside try_enqueue that stores nothing to m_tail. */
  lemma {:induction false} KeepsTry(s: State)
    requires Inv(s) && s.pc.STry? && !s.workers[s.pc.target].queue.prod.PWrote?
    ensures Inv(SubmitterStep(s))
  {
    TryWorkers(s);
    TryProducers(s);
    TryPlaces(s);
  }

  /** The store of m_tail places the task. */
  lemma {:induction false} KeepsPlace(s: State)
    requires Inv(s) && s.pc.STry? && s.workers[s.pc.target].queue.prod.PWrote?
    ensures Inv(SubmitterStep(s))
  {
    TryWorkers(s);
    TryProducers(s);
    forall j | 0 <= j < |s.workers|
      ensures SubmitterStep(s).workers[j].queue.put ==
              s.workers[j].queue.put + if j == s.pc.target then [s.task] else []
    {
      TryPuts(s, j);
    }
    PlaceNumbers(s, SubmitterStep(s), s.pc.target);
  }

  lemma {:induction false} PlaceNumbers(s: State, s': State, t: nat)
    requires PlacesOk(s) && CurrentOk(s) && t < |s.workers| == |s'.workers| && s.pc.STry?
    requires s'.count == s.count && s'.results == s.results && s'.pc == SDone(t)
    requires s'.workers[t].queue.put == s.workers[t].queue.put + [s.task]
    requires forall j | 0 <= j < |s.workers| && j != t :: s'.workers[j].queue.put == s.workers[j].queue.put
    ensures PlacesOk(s')
  {
    var last := |s.workers[t].queue.put|;
    forall i, k | 0 <= i < |s'.workers| && 0 <= k < |s'.workers[i].queue.put|
      ensures s'.workers[i].queue.put[k].num < s'.count && WentTo(s', s'.workers[i].queue.put[k].num, i)
    {
      if !(i == t && k == last) { assert s'.workers[i].queue.put[k] == s.workers[i].queue.put[k]; }
    }
    forall i | 0 <= i < |s'.workers| ensures Increasing(s'.workers[i].queue.put) {
      assert Increasing(s.workers[i].queue.put);
      if i == t { NewestIsLargest(s, t); }
    }
    forall n: nat, i: int | WentTo(s', n, i) && i != -1
      ensures 0 <= i < |s'.workers|
      ensures exists k | 0 <= k < |s'.workers[i].queue.put| :: s'.workers[i].queue.put[k].num == n
    {
      if n == s.count - 1 {
        assert s'.workers[t].queue.put[last].num == n;
      } else {
        assert WentTo(s, n, i);
        var k :| 0 <= k < |s.workers[i].queue.put| && s.workers[i].queue.put[k].num == n;
        assert s'.workers[i].queue.put[k].num == n;
      }
    }
  }

  /** Everything already placed anywhere is older than the submission under way. */
  lemma {:induction false} NewestIsLargest(s: State, t: nat)
    requires PlacesOk(s) && CurrentOk(s) && t < |s.workers| && s.pc.STry?
    ensures forall k | 0 <= k < |s.workers[t].queue.put| :: s.workers[t].queue.put[k].num < s.task.num
  {
    forall k | 0 <= k < |s.workers[t].queue.put|
      ensures s.workers[t].queue.put[k].num < s.task.num
    {
      assert WentTo(s, s.workers[t].queue.put[k].num, t);
    }
  }

  lemma {:induction false} KeepsReturn(s: State, s': State, result: int)
    requires Inv(s) && (s.pc == SDone(result) || (s.pc.SEntry? && result == -1))
    requires s' == Return(s.(next := s'.next), result) && s'.next < |s.workers|
    ensures Inv(s')
  {
    hide WorkerOk;
    assert forall n: nat, j: int | j != -1 :: WentTo(s', n, j) == WentTo(s, n, j);
  }

  lemma {:induction false} KeepsSubmitter(s: State)
    requires Inv(s)
    ensures Inv(SubmitterStep(s))
  {
    var s' := SubmitterStep(s);
    match s.pc
    case SIdle =>
    case SEntry(id) => if s.stop { KeepsReturn(s, s', -1); } else { KeepsMove(s, s'); }
    case SLoop(id, i) =>
      if Direct(s, id) { KeepsBegin(s, id, i, id); }
      else if i < |s.workers| { KeepsBegin(s, id, i, s.next); }
      else { KeepsMove(s, s'); }
    case STry(id, i, target) => if s.workers[target].queue.prod.PWrote? { KeepsPlace(s); } else { KeepsTry(s); }
    case SRetry(id) => KeepsMove(s, s');
    case SDone(assignee) => KeepsReturn(s, s', assignee);
  }

  lemma {:induction false} KeepsSubmit(s: State, id: int, runnable: bool)
    requires Inv(s) && s.pc.SIdle?
    ensures Inv(Step(s, Submit(id, runnable)))
  {
    var s' := Step(s, Submit(id, runnable));
    assert forall n: nat, j: int :: WentTo(s', n, j) == WentTo(s, n, j);
  }

  lemma {:induction false} KeepsStep(s: State, e: Event)
    requires Inv(s)
    ensures Inv(Step(s, e))
  {
    hide WorkerOk, SubmitterStep, WorkerStepOf;
    match e
    case Submit(id, runnable) => if s.pc.SIdle? { KeepsSubmit(s, id, runnable); }
    case Submitter => KeepsSubmitter(s);
    case WorkerStep(i) =>
      if i < |s.workers| {
        KeepsWorkerOk(s.workers[i]);
        KeepsReplace(s, i, WorkerStepOf(s.workers[i]));
      }
    case Shutdown =>
      var s' := Step(s, e);
      assert forall n: nat, j: int :: WentTo(s', n, j) == WentTo(s, n, j);
    case ShutdownWorker(i) =>
      if i < |s.workers| {
        KeepsShutdown(s.workers[i]);
        KeepsReplace(s, i, s.workers[i].(stop := true));
      }
  }

  lemma {:induction false} KeepsShutdown(w: Worker)
    requires WorkerOk(w)
    ensures WorkerOk(w.(stop := true))
  {
  }

  lemma {:induction false} RunHolds(s: State, events: seq<Event>)
    requires Init(s)
    ensures Inv(Run(s, events))
    decreases |events|
  {
    if events != [] {
      RunHolds(s, events[..|events| - 1]);
      KeepsStep(Run(s, events[..|events| - 1]), events[|events| - 1]);
    }
  }

  // ---------------------------------------------------------------- main results

  /** How many entries of `ts` carry the number `n`. */
  function Occurrences(ts: seq<Task>, n: nat): nat {
    if ts == [] then 0 else (if ts[0].num == n then 1 else 0) + Occurrences(ts[1..], n)
  }

  lemma {:induction false} OccurrencesIncreasing(ts: seq<Task>, n: nat)
    requires Increasing(ts)
    ensures Occurrences(ts, n) == if exists k | 0 <= k < |ts| :: ts[k].num == n then 1 else 0
  {
    if ts != [] {
      OccurrencesIncreasing(ts[1..], n);
      if k :| 0 <= k < |ts[1..]| && ts[1..][k].num == n { assert ts[k + 1].num == n; }
      if k :| 0 <= k < |ts| && ts[k].num == n && k > 0 { assert ts[1..][k - 1].num == n; }
    }
  }

  /**
   A finished submission that returned `id >= 0` put its task exactly once into worker `id`'s
   ring and nowhere else; one that returned -1 put it nowhere.
   */
  lemma {:induction false} PlacedExactlyOnce(s: State, events: seq<Event>, n: nat, i: nat)
    requires Init(s)
    requires n in Run(s, events).results && i < |Run(s, events).workers|
    ensures var r := Run(s, events);
            && (r.results[n] == -1 || 0 <= r.results[n] < |r.workers|)
            && Occurrences(r.workers[i].queue.put, n) == if r.results[n] == i then 1 else 0
  {
    hide WorkerOk, ProducersOk, Run;
    RunHolds(s, events);
    var r := Run(s, events);
    assert WentTo(r, n, r.results[n]);
    OccurrencesIncreasing(r.workers[i].queue.put, n);
    if k :| 0 <= k < |r.workers[i].queue.put| && r.workers[i].queue.put[k].num == n {
      assert WentTo(r, n, i);
    }
  }

  /** What a submission for worker `id` may return: that worker, and -1 only after shutdown was requested. */
  predicate Answers(s: State, id: int, result: int) {
    (Direct(s, id) ==> result == id || result == -1) && (result == -1 ==> s.stop)
  }

  /** Every submission was answered as it was asked. */
  ghost predicate AnsweredOk(s: State) {
    forall n | n in s.results :: n in s.asked && n < s.count && Answers(s, s.asked[n], s.results[n])
  }

  /** The submission under way will be answered as it was asked. */
  ghost predicate WillAnswer(s: State) {
    && (!s.pc.SIdle? ==> s.count > 0 && s.count - 1 in s.asked)
    && (s.pc.SEntry? || s.pc.SLoop? || s.pc.STry? || s.pc.SRetry? ==> s.pc.id == s.asked[s.count - 1])
    && (s.pc.STry? && Direct(s, s.pc.id) ==> s.pc.target == s.pc.id)
    && (s.pc.SDone? ==> Answers(s, s.asked[s.count - 1], s.pc.assignee))
  }

  ghost predicate AskedOk(s: State) { AnsweredOk(s) && WillAnswer(s) }

  /** A step inside try_enqueue changes no results. */
  lemma {:induction false} TryAsked(s: State, id: int, i: nat, target: nat)
    requires Shaped(s) && AskedOk(s) && s.pc == STry(id, i, target)
    ensures AskedOk(TryStep(s, id, i, target))
  {
    hide Q.Step, Idx, AnsweredOk;
    var s' := TryStep(s, id, i, target);
    SameAnswers(s, s');
  }

  lemma {:induction false} SameAnswers(s: State, s': State)
    requires AnsweredOk(s) && |s'.workers| == |s.workers|
    requires s'.asked == s.asked && s'.results == s.results && s'.count == s.count && s'.stop == s.stop
    ensures AnsweredOk(s')
  {
  }

  lemma {:induction false} KeepsAskedSubmitter(s: State)
    requires Shaped(s) && AskedOk(s)
    ensures AskedOk(SubmitterStep(s))
  {
    hide TryStep, Idx, Q.Step;
    match s.pc
    case STry(id, i, target) => TryAsked(s, id, i, target);
    case SLoop(id, i) => SameAnswers(s, SubmitterStep(s));
    case _ =>
  }

  lemma {:induction false} KeepsAsked(s: State, e: Event)
    requires Shaped(s) && AskedOk(s)
    ensures AskedOk(Step(s, e))
  {
    hide SubmitterStep, WorkerStepOf;
    KeepsAskedSubmitter(s);
  }

  lemma {:induction false} RunAsked(s: State, events: seq<Event>)
    requires Init(s)
    ensures AskedOk(Run(s, events))
    decreases |events|
  {
    hide Step;
    if events != [] {
      RunAsked(s, events[..|events| - 1]);
      KeepsAsked(Run(s, events[..|events| - 1]), events[|events| - 1]);
    }
  }

  /** A submission for one worker goes to that worker; none is turned away unless shutdown was requested. */
  lemma {:induction false} AnsweredAsAsked(s: State, events: seq<Event>, n: nat)
    requires Init(s) && n in Run(s, events).results
    ensures var r := Run(s, events);
            && n in r.asked
            && (0 <= r.asked[n] < |r.workers| ==> r.results[n] == r.asked[n] || r.results[n] == -1)
            && (r.results[n] == -1 ==> r.stop)
  {
    hide Run;
    RunAsked(s, events);
  }

  /**
   Each worker has run exactly the runnable tasks among the first `k` placed in its ring, each
   once and in submission order.  While it polls, these are all it has taken; otherwise `k` misses at most the task it
   holds, or dropped at shutdown.  It stops only at shutdown.
   */
  lemma {:induction false} RunsInSubmissionOrder(s: State, events: seq<Event>, i: nat)
    requires Init(s) && i < |Run(s, events).workers|
    ensures var w := Run(s, events).workers[i];
            && Increasing(w.queue.put)
            && exists k: nat | |w.queue.taken| - 1 <= k <= |w.queue.taken| <= |w.queue.put| ::
                 w.ran == Runnable(w.queue.put[..k]) && (w.pc.Polling? ==> k == |w.queue.taken|)
    ensures Run(s, events).workers[i].pc.Stopped? ==> Run(s, events).workers[i].stop
  {
    RunHolds(s, events);
    var w := Run(s, events).workers[i];
    assert WorkerOk(w);
    var n := |w.queue.taken|;
    assert w.queue.put[..n] == w.queue.taken;
    if w.ran == Runnable(w.queue.taken) {
      assert w.ran == Runnable(w.queue.put[..n]);
    } else {
      assert w.queue.put[..n - 1] == w.queue.taken[..n - 1];
    }
  }
}
