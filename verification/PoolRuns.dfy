/**
 Whole runs of a pool: how many objects it holds after any sequence of allocations, frees and collections, in terms of
 how many were in use when the last twelve collections were made.
 */
module PoolRuns {
  import opened Arith
  import opened RecyclePool

  /** `OpFree` gives back the `i`-th of the objects that are held, if there is one. */
  datatype Op = OpAlloc | OpFree(i: nat, recycled: bool) | OpCollect(force: bool)

  datatype Counts = Counts(inUse: nat, total: nat, records: seq<nat>)

  const Nothing := Counts(0, 0, [])

  /** The last twelve of the records. */
  function LastTwelve(records: seq<nat>): seq<nat> { if |records| <= 12 then records else records[|records| - 12..] }

  /** What one operation does to the numbers; `records` are the objects in use at every collection. */
  function Count(c: Counts, op: Op): Counts {
    match op
    case OpAlloc => Counts(c.inUse + 1, if c.inUse < c.total then c.total else c.total + 1, c.records)
    case OpFree(i, recycled) =>
      if i >= c.inUse then c
      else Counts(c.inUse - 1, if recycled || c.total == 0 then c.total else c.total - 1, c.records)
    case OpCollect(force) =>
      var records := c.records + [c.inUse];
      if force || |records| % 12 == 0
      then Counts(c.inUse, Min(c.total, MaxOf(LastTwelve(records))), records)
      else c.(records := records)
  }

  function CountAll(ops: seq<Op>): Counts {
    if ops == [] then Nothing else Count(CountAll(ops[..|ops| - 1]), ops[|ops| - 1])
  }

  // ---------------------------------------------------------------- what that means

  /** The most objects that were ever in use at once. */
  function Peak(ops: seq<Op>): (m: nat)
    ensures forall k | 0 <= k <= |ops| :: CountAll(ops[..k]).inUse <= m
    ensures exists k | 0 <= k <= |ops| :: CountAll(ops[..k]).inUse == m
  {
    assert ops[..|ops|] == ops;
    if ops == [] then 0
    else
      var front := ops[..|ops| - 1];
      assert forall k | 0 <= k < |ops| :: ops[..k] == front[..k];
      var m := Peak(front);
      if m < CountAll(ops).inUse then CountAll(ops).inUse else m
  }

  /** A pool never holds more objects than were ever in use at once, and never fewer than are. */
  lemma {:induction false} NeverAbovePeak(ops: seq<Op>)
    ensures CountAll(ops).inUse <= CountAll(ops).total <= Peak(ops)
  {
    hide Peak;
    assert ops[..|ops|] == ops;
    if ops != [] {
      var front, op := ops[..|ops| - 1], ops[|ops| - 1];
      NeverAbovePeak(front);
      PeakGrows(ops);
      if op.OpCollect? { RecordsInUse(CountAll(front)); }
    }
  }

  lemma {:induction false} PeakGrows(ops: seq<Op>)
    requires ops != []
    ensures Peak(ops[..|ops| - 1]) <= Peak(ops) && CountAll(ops).inUse <= Peak(ops)
  {
    assert ops[..|ops|] == ops;
  }

  lemma {:induction false} RecordsInUse(c: Counts)
    ensures c.inUse <= MaxOf(LastTwelve(c.records + [c.inUse]))
  {
    var last := LastTwelve(c.records + [c.inUse]);
    assert last[|last| - 1] == c.inUse;
  }

  // ---------------------------------------------------------------- the pool

  /** The ring of records: the last twelve of them, each at its number modulo twelve, and nothing before the first. */
  ghost predicate Holds(usage: seq<nat>, idx: nat, records: seq<nat>) {
    && |usage| == 12 && idx == |records| % 12
    && (forall k | 0 <= k < |records| && |records| - 12 <= k :: usage[k % 12] == records[k])
    && (forall j | |records| <= j < 12 :: usage[j] == 0)
  }

  lemma {:induction false} HoldsNext(usage: seq<nat>, idx: nat, records: seq<nat>, n: nat)
    requires Holds(usage, idx, records)
    ensures Holds(usage[idx := n], (idx + 1) % 12, records + [n])
  {
    var r := |records|;
    var next := records + [n];
    forall k | 0 <= k < |next| && |next| - 12 <= k ensures usage[idx := n][k % 12] == next[k] {
      if k < r { assert usage[k % 12] == records[k]; }
    }
  }

  lemma {:induction false} HoldsIdx(usage: seq<nat>, idx: nat, records: seq<nat>)
    requires Holds(usage, idx, records)
    ensures idx == |records| % 12
  {
  }

  /** The greatest of the ring is the greatest of the last twelve records. */
  lemma {:induction false} SameMax(usage: seq<nat>, idx: nat, records: seq<nat>)
    requires Holds(usage, idx, records)
    ensures MaxOf(usage) == MaxOf(LastTwelve(records))
  {
    hide MaxOf, Holds;
    var last := LastTwelve(records);
    forall i | 0 <= i < |last| ensures last[i] in usage { LastIsHeld(usage, idx, records, i); }
    forall j | 0 <= j < |usage| ensures usage[j] == 0 || usage[j] in last { HeldIsLast(usage, idx, records, j); }
  }

  lemma {:induction false} LastIsHeld(usage: seq<nat>, idx: nat, records: seq<nat>, i: nat)
    requires Holds(usage, idx, records) && i < |LastTwelve(records)|
    ensures LastTwelve(records)[i] in usage
  {
    var last := LastTwelve(records);
    var k := |records| - |last| + i;
    assert usage[k % 12] == records[k] == last[i];
  }

  lemma {:induction false} HeldIsLast(usage: seq<nat>, idx: nat, records: seq<nat>, j: nat)
    requires Holds(usage, idx, records) && j < |usage|
    ensures usage[j] == 0 || usage[j] in LastTwelve(records)
  {
    var last, r := LastTwelve(records), |records|;
    if j < r {
      var k := r - 1 - (r - 1 - j) % 12;
      LatestOf(r, j);
      assert usage[j] == records[k] == last[k - (r - |last|)];
    }
  }

  /** The last number below `r` that is `j` modulo twelve. */
  lemma {:induction false} LatestOf(r: nat, j: nat)
    requires j < r && j < 12
    ensures var k := r - 1 - (r - 1 - j) % 12; k % 12 == j && 0 <= k < r && r - 12 <= k
  {
  }

  /** The pool is as the numbers say. */
  ghost predicate Agrees(pool: RecyclePool, held: seq<Recyclable>, c: Counts)
    reads pool, pool.list
  {
    && pool.Valid() && |held| == |pool.used| == c.inUse && pool.total == c.total
    && (forall i | 0 <= i < |held| :: held[i] in pool.used)
    && (forall i, j | 0 <= i < j < |held| :: held[i] != held[j])
    && Holds(pool.usage, pool.usageIdx, c.records)
  }

  /** Any sequence of operations on a new pool leaves as many objects in use and in all as the numbers say. */
  method Replay(ops: seq<Op>) returns (pool: RecyclePool, held: seq<Recyclable>)
    ensures Agrees(pool, held, CountAll(ops))
  {
    hide CountAll, Count, Holds;
    pool := new RecyclePool();
    held := [];
    CountNone();
    var n := 0;
    assert ops[..0] == [];
    while n < |ops|
      invariant n <= |ops| && Agrees(pool, held, CountAll(ops[..n]))
      invariant fresh(pool) && fresh(pool.list) && fresh(held)
    {
      CountSnoc(ops, n);
      var next := Perform(pool, held, ops[n], CountAll(ops[..n]));
      assert forall i | 0 <= i < |pool.list| :: pool.list[i] in pool.list;
      assert forall i | 0 <= i < |next| :: next[i] in next;
      held := next;
      n := n + 1;
    }
    assert ops[..n] == ops;
  }

  lemma {:induction false} CountNone()
    ensures CountAll([]) == Nothing && Holds(seq(12, i => 0), 0, [])
  {
  }

  lemma {:induction false} CountSnoc(ops: seq<Op>, n: nat)
    requires n < |ops|
    ensures CountAll(ops[..n + 1]) == Count(CountAll(ops[..n]), ops[n])
  {
    hide Count;
    assert ops[..n + 1][..n] == ops[..n];
  }

  method DoAlloc(pool: RecyclePool, held: seq<Recyclable>, ghost c: Counts) returns (held': seq<Recyclable>)
    requires Agrees(pool, held, c)
    modifies pool, pool.list
    ensures Agrees(pool, held', Count(c, OpAlloc))
    ensures forall o | o in pool.list :: o in old(pool.list)
    ensures forall o | o in held' :: o in old(pool.list) || o in held || fresh(o)
  {
    hide Holds, MaxOf, Nth;
    var r := pool.Alloc();
    held' := held + [r];
  }

  method DoFree(pool: RecyclePool, held: seq<Recyclable>, i: nat, recycled: bool, ghost c: Counts)
    returns (held': seq<Recyclable>)
    requires Agrees(pool, held, c)
    modifies pool, held
    ensures Agrees(pool, held', Count(c, OpFree(i, recycled)))
    ensures forall o | o in pool.list :: o in old(pool.list) || o in held
    ensures forall o | o in held' :: o in held
  {
    hide Holds, MaxOf, Nth;
    held' := held;
    if i < |held| {
      var r := held[i];
      pool.Free(r, recycled);
      held' := held[..i] + held[i + 1..];
    }
  }

  method DoCollect(pool: RecyclePool, held: seq<Recyclable>, force: bool, ghost c: Counts)
    requires Agrees(pool, held, c)
    modifies pool
    ensures Agrees(pool, held, Count(c, OpCollect(force)))
    ensures forall o | o in pool.list :: o in old(pool.list)
  {
    hide Holds, MaxOf, Nth;
    HoldsNext(pool.usage, pool.usageIdx, c.records, |pool.used|);
    pool.CollectGarbage(force);
    SameMax(pool.usage, pool.usageIdx, c.records + [c.inUse]);
    HoldsIdx(pool.usage, pool.usageIdx, c.records + [c.inUse]);
  }

  /** One operation. */
  method Perform(pool: RecyclePool, held: seq<Recyclable>, op: Op, ghost c: Counts) returns (held': seq<Recyclable>)
    requires Agrees(pool, held, c)
    modifies pool, pool.list, held
    ensures Agrees(pool, held', Count(c, op))
    ensures forall o | o in pool.list :: o in old(pool.list) || o in held
    ensures forall o | o in held' :: o in old(pool.list) || o in held || fresh(o)
  {
    hide Agrees, Count;
    held' := held;
    match op
    case OpAlloc => held' := DoAlloc(pool, held, c);
    case OpFree(i, recycled) => held' := DoFree(pool, held, i, recycled, c);
    case OpCollect(force) => DoCollect(pool, held, force, c);
  }
}
