/**
 What the submitter and the workers of the task scheduler do when they run alone, in any reachable state: where a task
 goes, and that it is run.
 */
module SchedulerCalls {
  import opened RingIndex
  import opened TaskScheduler

  /** The ring of worker `k` takes no more tasks. */
  predicate Full(s: State, k: nat)
    requires k < |s.workers|
  {
    var q := s.workers[k].queue;
    |q.put| - |q.taken| == |q.items| - 1
  }

  /** The submitter takes `m` steps. */
  function Steps(s: State, m: nat): (r: State)
    requires Shaped(s)
    ensures Shaped(r)
    decreases m
  {
    if m == 0 then s else Steps(SubmitterStep(s), m - 1)
  }

  /** A task more in the ring of worker `k`, and nothing else done to the workers. */
  predicate PutAt(s: State, s': State, k: nat, task: Task)
    requires k < |s.workers|
  {
    && |s'.workers| == |s.workers|
    && s'.workers[k].queue.put == s.workers[k].queue.put + [task]
    && (forall j | 0 <= j < |s.workers| && j != k :: s'.workers[j] == s.workers[j])
  }

  // ---------------------------------------------------------------- one try

  /** `try_enqueue` on a full ring is refused after two steps, and the next worker is up. */
  lemma {:induction false} TryFull(s: State, id: int, i: nat)
    requires Shaped(s) && s.pc == SLoop(id, i) && !Direct(s, id) && i < |s.workers|
    requires Q.Inv(s.workers[s.next].queue) && s.workers[s.next].queue.prod.PIdle? && Full(s, s.next)
    ensures Steps(s, 2) == s.(next := Idx(s.next + 1, |s.workers|), pc := SLoop(id, i + 1))
  {
    var q := s.workers[s.next].queue;
    Q.SeesRoom(q);
    var s1 := SubmitterStep(s);
    assert Q.Step(s1.workers[s.next].queue, Q.Produce) == q;
    assert SubmitterStep(s1).workers == s.workers;
    assert Steps(s, 2) == Steps(s1, 1) == SubmitterStep(s1);
  }

  lemma {:induction false} TwoSteps(s: State, m: nat)
    requires Shaped(s)
    ensures Steps(s, m + 2) == Steps(Steps(s, 2), m)
  {
    assert Steps(s, 2) == Steps(SubmitterStep(s), 1) == SubmitterStep(SubmitterStep(s));
  }

  /** The ring with one more item, after three steps of `try_enqueue`. */
  lemma {:induction false} RingTakes<T>(q: Q.State<T>, v: T)
    requires Q.Inv(q) && q.prod.PIdle? && |q.put| - |q.taken| < |q.items| - 1
    ensures var q1 := Q.Step(q, Q.CallEnqueue(v));
            var q2, q3, q4 := Q.Step(q1, Q.Produce), Q.Step(Q.Step(q1, Q.Produce), Q.Produce),
                              Q.Step(Q.Step(Q.Step(q1, Q.Produce), Q.Produce), Q.Produce);
            && q1.prod.PLoaded? && q2.prod.PRoom? && q3.prod.PWrote? && q4.prod.PIdle?
            && q4.put == q.put + [v]
  {
    Q.SeesRoom(q);
  }

  /** The submitter after its current step inside `try_enqueue` left the ring of `target` as `q`. */
  predicate Trying(s: State, s': State, target: nat, q: Q.State<Task>)
    requires target < |s.workers|
  {
    && |s'.workers| == |s.workers| && s'.count == s.count && s'.results == s.results && s'.task == s.task
    && s'.next == s.next && s'.workers[target].queue == q
    && (forall j | 0 <= j < |s.workers| && j != target :: s'.workers[j] == s.workers[j])
  }

  lemma {:induction false} TryOn(s: State, s0: State, id: int, i: nat, target: nat)
    requires Shaped(s) && Shaped(s0) && target < |s0.workers| && s.pc == STry(id, i, target)
    requires Trying(s0, s, target, s.workers[target].queue)
    ensures var q, s' := s.workers[target].queue, SubmitterStep(s);
            var q' := Q.Step(q, Q.Produce);
            && (!q'.prod.PIdle? ==> s'.pc == s.pc && Trying(s0, s', target, q'))
            && (q'.prod.PIdle? && q.prod.PWrote? ==> s'.pc == SDone(target) && Trying(s0, s', target, q'))
  {
    hide Q.Step, Idx;
  }

  /** The worker that the submitter tries next. */
  function Target(s: State, id: int): int { if Direct(s, id) then id else s.next }

  predicate HasRoom(q: Q.State<Task>) { |q.put| - |q.taken| < |q.items| - 1 }

  lemma {:induction false} FiveSteps(s: State)
    requires Shaped(s)
    ensures Steps(s, 5) == SubmitterStep(SubmitterStep(SubmitterStep(SubmitterStep(SubmitterStep(s)))))
  {
    hide SubmitterStep;
    var s1 := SubmitterStep(s);
    var s2 := SubmitterStep(s1);
    var s3 := SubmitterStep(s2);
    assert Steps(s, 5) == Steps(s1, 4) && Steps(s1, 4) == Steps(s2, 3) && Steps(s2, 3) == Steps(s3, 2);
    assert Steps(s3, 2) == Steps(SubmitterStep(s3), 1) == SubmitterStep(SubmitterStep(s3));
  }

  /** `try_enqueue` on a ring with room puts the task, and the submission returns that worker, after five steps. */
  lemma {:induction false} TryRoom(s: State, id: int, i: nat)
    requires Shaped(s) && s.pc == SLoop(id, i) && i < |s.workers| && s.count > 0
    requires var k := Target(s, id);
             Q.Inv(s.workers[k].queue) && s.workers[k].queue.prod.PIdle? && HasRoom(s.workers[k].queue)
    ensures var k, s' := Target(s, id), Steps(s, 5);
            && s'.pc == SIdle && s'.count == s.count && s'.results == s.results[s.count - 1 := k]
            && s'.next == Idx(s.next + 1, |s.workers|) && PutAt(s, s', k, s.task)
  {
    hide Q.Step, Q.Inv, TryStep, Idx;
    var k := Target(s, id);
    var q := s.workers[k].queue;
    RingTakes(q, s.task);
    var s1 := SubmitterStep(s);
    assert s1 == Begin(s, id, i, k);
    var s2 := SubmitterStep(s1);
    TryOn(s1, s, id, i, k);
    var s3 := SubmitterStep(s2);
    TryOn(s2, s, id, i, k);
    var s4 := SubmitterStep(s3);
    TryOn(s3, s, id, i, k);
    var s5 := SubmitterStep(s4);
    FiveSteps(s);
  }

  // ---------------------------------------------------------------- a submission alone

  lemma {:induction false} IdxPlus(a: nat, x: nat, n: nat)
    requires n > 0
    ensures Idx(Idx(a, n) + x, n) == Idx(a + x, n)
    decreases a
  {
    if a >= n {
      IdxPlus(a - n, x, n);
      assert Idx(a + x, n) == Idx(a + x - n, n);
    }
  }

  /** The worker `x` places after the one that is up. */
  function Nth(s: State, x: nat): (k: nat)
    requires |s.workers| > 0
    ensures k < |s.workers|
  {
    Idx(s.next + x, |s.workers|)
  }

  /** The workers are in order, and no ring has a producer at work. */
  ghost predicate AtRest(s: State) {
    forall k | 0 <= k < |s.workers| :: Q.Inv(s.workers[k].queue) && s.workers[k].queue.prod.PIdle?
  }

  lemma {:induction false} RoomUnlessFull(s: State, k: nat)
    requires k < |s.workers| && AtRest(s) && !Full(s, k)
    ensures HasRoom(s.workers[k].queue)
  {
  }

  lemma {:induction false} SameWorkersPut(s: State, r: State, s': State, k: nat, task: Task)
    requires k < |s.workers| && r.workers == s.workers && PutAt(s, s', k, task)
    ensures PutAt(r, s', k, task)
  {
  }

  /** The worker `j` places after the one that is up is the first with room. */
  predicate FirstRoom(s: State, j: nat)
    requires |s.workers| > 0
  {
    (forall x: nat | x < j :: Full(s, Nth(s, x))) && HasRoom(s.workers[Nth(s, j)].queue)
  }

  lemma {:induction false} FirstRoomNext(s: State, s': State, j: nat)
    requires |s.workers| > 0 && FirstRoom(s, j) && j > 0
    requires s'.workers == s.workers && s'.next == Idx(s.next + 1, |s.workers|)
    ensures FirstRoom(s', j - 1) && Nth(s', j - 1) == Nth(s, j)
  {
    hide Idx;
    forall x: nat ensures Nth(s', x) == Nth(s, x + 1) { IdxPlus(s.next + 1, x, |s.workers|); }
    forall x: nat | x < j - 1 ensures Full(s', Nth(s', x)) {
      var y := x + 1;
      assert Full(s, Nth(s, y));
    }
  }

  lemma {:induction false} UpIsFirst(s: State, j: nat)
    requires Shaped(s) && FirstRoom(s, j)
    ensures Nth(s, 0) == s.next && if j == 0 then HasRoom(s.workers[s.next].queue) else Full(s, s.next)
  {
    if j > 0 { assert Full(s, Nth(s, 0)); }
  }

  /** The first worker with room gets the task. */
  lemma {:induction false} TryRound(s: State, id: int, i: nat, j: nat)
    requires Shaped(s) && s.pc == SLoop(id, i) && !Direct(s, id) && i + j < |s.workers| && s.count > 0 && AtRest(s)
    requires FirstRoom(s, j)
    ensures var k, s' := Nth(s, j), Steps(s, 2 * j + 5);
            && s'.pc == SIdle && s'.count == s.count && s'.results == s.results[s.count - 1 := k]
            && s'.next == Idx(k + 1, |s.workers|) && PutAt(s, s', k, s.task)
    decreases j
  {
    hide Steps, Q.Inv, SubmitterStep, PutAt, FirstRoom, Nth, Full, HasRoom;
    UpIsFirst(s, j);
    if j == 0 {
      TryRoom(s, id, i);
    } else {
      TryFull(s, id, i);
      TwoSteps(s, 2 * j + 3);
      var s2 := Steps(s, 2);
      FirstRoomNext(s, s2, j);
      TryRound(s2, id, i + 1, j - 1);
      SameWorkersPut(s2, s, Steps(s, 2 * j + 5), Nth(s, j), s.task);
    }
  }

  lemma {:induction false} Entered(s: State, id: int, m: nat)
    requires Shaped(s) && s.pc == SEntry(id) && !s.stop
    ensures Shaped(s.(pc := SLoop(id, 0))) && Steps(s, m + 1) == Steps(s.(pc := SLoop(id, 0)), m)
  {
  }

  lemma {:induction false} RestHolds(s: State, events: seq<Event>)
    requires Init(s) && Run(s, events).pc.SIdle?
    ensures AtRest(Run(s, events))
  {
    hide Run, PlacesOk, Q.Inv;
    RunHolds(s, events);
    var r := Run(s, events);
    forall k | 0 <= k < |r.workers| ensures Q.Inv(r.workers[k].queue) && r.workers[k].queue.prod.PIdle? {
      assert WorkerOk(r.workers[k]);
    }
  }

  /**
   In every reachable state, unless shutdown was requested, a submission that runs alone puts its task once into the
   ring of the first worker with room, counting round from the one that is up, and returns that worker; the one after
   it is up next.  A submission for a worker whose ring has room goes there.
   */
  lemma {:induction false} LoneSubmit(s: State, events: seq<Event>, id: int, runnable: bool, j: nat)
    requires Init(s) && Run(s, events).pc.SIdle? && !Run(s, events).stop
    requires var r := Run(s, events);
             if Direct(r, id) then j == 0 && !Full(r, id)
             else j < |r.workers| && (forall x: nat | x < j :: Full(r, Nth(r, x))) && !Full(r, Nth(r, j))
    ensures var r := Run(s, events);
            var k := if Direct(r, id) then id else Nth(r, j);
            var r' := Steps(Step(r, Submit(id, runnable)), 2 * j + 6);
            && r'.pc == SIdle && r'.count == r.count + 1 && r'.results == r.results[r.count := k]
            && PutAt(r, r', k, Task(r.count, runnable))
            && r'.next == Idx((if Direct(r, id) then r.next else k) + 1, |r.workers|)
  {
    hide Run, Q.Inv, PutAt, SubmitterStep, Steps;
    var r := Run(s, events);
    RestHolds(s, events);
    var r1 := Step(r, Submit(id, runnable));
    var r2 := r1.(pc := SLoop(id, 0));
    Entered(r1, id, 2 * j + 5);
    var k := if Direct(r, id) then id else Nth(r, j);
    RoomUnlessFull(r, k);
    if Direct(r, id) {
      TryRoom(r2, id, 0);
    } else {
      forall x: nat | x < j ensures Full(r2, Nth(r2, x)) { assert Full(r, Nth(r, x)); }
      TryRound(r2, id, 0, j);
    }
    SameWorkersPut(r2, r, Steps(r2, 2 * j + 5), k, Task(r.count, runnable));
  }

  // ---------------------------------------------------------------- a worker alone

  function WorkerSteps(w: Worker, m: nat): (r: Worker)
    requires |w.queue.items| > 0
    decreases m
  {
    if m == 0 then w else WorkerSteps(WorkerStepOf(w), m - 1)
  }

  /**
   In every reachable state, a worker between two polls that runs alone takes the oldest task in its ring and runs it,
   if it is runnable; with an empty ring it stays as it is; after shutdown it stops, leaving the rest in the ring.
   */
  lemma {:induction false} LoneWorker(s: State, events: seq<Event>, i: nat)
    requires Init(s) && i < |Run(s, events).workers|
    requires var w := Run(s, events).workers[i]; w.pc.Polling? && w.queue.cons.CIdle?
    ensures var w := Run(s, events).workers[i];
            && |w.queue.items| > 0 && |w.queue.taken| <= |w.queue.put|
            && if w.stop then WorkerSteps(w, 1) == w.(pc := Stopped)
               else if |w.queue.taken| == |w.queue.put| then WorkerSteps(w, 2) == w
               else
                 var task, w' := w.queue.put[|w.queue.taken|], WorkerSteps(w, 5);
                 && w'.pc.Polling? && w'.queue.put == w.queue.put && w'.queue.taken == w.queue.taken + [task]
                 && w'.ran == w.ran + if task.runnable then [task] else []
  {
    hide Run;
    RunHolds(s, events);
    var w := Run(s, events).workers[i];
    assert WorkerOk(w);
    WorkerAlone(w);
  }

  lemma {:induction false} WorkerAlone(w: Worker)
    requires Q.Inv(w.queue) && w.pc.Polling? && w.queue.cons.CIdle?
    ensures w.stop ==> WorkerSteps(w, 1) == w.(pc := Stopped)
    ensures !w.stop && w.queue.taken == w.queue.put ==> WorkerSteps(w, 2) == w
    ensures !w.stop && w.queue.taken != w.queue.put ==>
              var task, w' := w.queue.put[|w.queue.taken|], WorkerSteps(w, 5);
              && w'.pc.Polling? && w'.queue.put == w.queue.put && w'.queue.taken == w.queue.taken + [task]
              && w'.ran == w.ran + if task.runnable then [task] else []
  {
    Q.SeesData(w.queue);
    var w1 := WorkerStepOf(w);
    var w2 := WorkerStepOf(w1);
    assert WorkerSteps(w, 1) == w1;
    assert WorkerSteps(w, 2) == WorkerSteps(w1, 1) == w2;
    if !w.stop && w.queue.taken != w.queue.put {
      var w3 := WorkerStepOf(w2);
      var w4 := WorkerStepOf(w3);
      assert WorkerSteps(w, 5) == WorkerSteps(w2, 3) && WorkerSteps(w2, 3) == WorkerSteps(w4, 1);
      assert w.ran + [] == w.ran;
    }
  }

  // ---------------------------------------------------------------- shutdown

  lemma {:induction false} StoppedWorker(s: State, e: Event, i: nat)
    requires Shaped(s) && i < |s.workers| && s.workers[i].stop
    ensures |Step(s, e).workers| == |s.workers|
    ensures Step(s, e).workers[i].stop && Step(s, e).workers[i].ran == s.workers[i].ran
  {
    hide SubmitterStep, Q.Step;
    SubmitterLeaves(s, i);
  }

  /** The submitter changes nothing of a worker but its ring. */
  lemma {:induction false} SubmitterLeaves(s: State, i: nat)
    requires Shaped(s) && i < |s.workers|
    ensures |SubmitterStep(s).workers| == |s.workers|
    ensures SubmitterStep(s).workers[i] == s.workers[i].(queue := SubmitterStep(s).workers[i].queue)
  {
    hide TryStep, Q.Step, Idx;
    match s.pc
    case STry(id, k, target) => TryLeaves(s, id, k, target, i);
    case _ =>
  }

  lemma {:induction false} TryLeaves(s: State, id: int, k: nat, target: nat, i: nat)
    requires Shaped(s) && i < |s.workers| && s.pc == STry(id, k, target)
    ensures var s' := TryStep(s, id, k, target);
            |s'.workers| == |s.workers| && s'.workers[i] == s.workers[i].(queue := s'.workers[i].queue)
  {
    hide Q.Step, Idx;
  }

  /** Once a worker was told to stop it runs no further task, whatever happens. */
  lemma {:induction false} NothingRunsAfterStop(s: State, events: seq<Event>, more: seq<Event>, i: nat)
    requires Init(s) && i < |Run(s, events).workers| && Run(s, events).workers[i].stop
    ensures var r, r' := Run(s, events), Run(s, events + more);
            i < |r'.workers| && r'.workers[i].stop && r'.workers[i].ran == r.workers[i].ran
    decreases |more|
  {
    hide Step;
    if more == [] {
      assert events + more == events;
    } else {
      var k := |more| - 1;
      NothingRunsAfterStop(s, events, more[..k], i);
      StoppedWorker(Run(s, events + more[..k]), more[k], i);
      assert (events + more)[..|events| + k] == events + more[..k];
    }
  }
}
