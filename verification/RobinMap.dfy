/**
 The open-addressing hash map of include/tsl/robin_hash.h, updated in place, and its agreement with
 a plain finite map.  Distances are unbounded and the load factors are the defaults: grow at half
 full, never shrink.
 */
module RobinMap {
  import opened Sequences
  import opened Bits
  import opened RingIndex
  import opened GrowthPolicy
  import opened RobinTable

  /** A displaced entry this far from home makes the table grow at the next insertion. */
  const DIST_FROM_IDEAL_BUCKET_LIMIT: nat := 4096

  datatype FindResult<V> = Found(value: V) | NotFound

  datatype InsertResult = Inserted(at: nat) | AlreadyThere(at: nat) | LengthError

  /** `next_bucket`: masking the incremented index wraps round at the last bucket. */
  method NextBucket(i: nat, mask: nat) returns (j: nat)
    requires IsPow2(mask + 1) && i <= mask
    ensures j == Next(i, mask + 1)
  {
    TruncatedHashSameBucket(i + 1, mask + 1);
    IdxIsMod(i + 1, mask + 1);
    j := And(i + 1, mask);
  }

  /** `bucket_for_hash`: masking the hash gives the key's home. */
  method HomeBucket<K>(h: K -> nat, key: K, mask: nat) returns (i: nat)
    requires IsPow2(mask + 1)
    ensures i == Home(h, key, mask + 1)
  {
    TruncatedHashSameBucket(h(key), mask + 1);
    IdxIsMod(h(key), mask + 1);
    i := BucketForHash(h(key), mask);
  }

  /** One turn of the insertion loops at a full bucket: displace a richer entry or pass by, then move on. */
  method CarryOn<K(==), V>(a: array<Bucket<K, V>>, h: K -> nat, i: nat, c: Bucket<K, V>, ghost m: map<K, V>)
    returns (i': nat, c': Bucket<K, V>)
    requires IsPow2(a.Length) && i < a.Length && a[i].Full?
    requires Carries(a[..], h, i, c) && ReflectsWith(a[..], c, m)
    modifies a
    ensures i' == Next(i, a.Length) && Carries(a[..], h, i', c') && ReflectsWith(a[..], c', m)
    ensures Count(a[..]) == old(Count(a[..]))
    ensures forall j | 0 <= j < a.Length && j != i :: a[j] == old(a[j])
    ensures a[i] == if c.dist > old(a[i].dist) then c else old(a[i])
  {
    ghost var t := a[..];
    if c.dist > a[i].dist {
      SwapCarries(t, h, i, c);
      SwapReflects(t, i, c, m);
      CountUpdate(t, i, c);
      c' := Further(a[i]);
      a[i] := c;
      assert a[..] == t[i := c];
    } else {
      SkipCarries(t, h, i, c);
      c' := Further(c);
    }
    i' := NextBucket(i, a.Length - 1);
  }

  /** The carried entry settles in the empty bucket `i`. */
  method Settle<K(==), V>(a: array<Bucket<K, V>>, h: K -> nat, i: nat, c: Bucket<K, V>, ghost m: map<K, V>)
    requires i < a.Length && a[i].Empty?
    requires Carries(a[..], h, i, c) && ReflectsWith(a[..], c, m)
    modifies a
    ensures TableOk(a[..], h) && Reflects(a[..], m) && Count(a[..]) == old(Count(a[..])) + 1
    ensures a[i] == c && forall j | 0 <= j < a.Length && j != i :: a[j] == old(a[j])
  {
    ghost var t := a[..];
    DropKeeps(t, h, i, c, m);
    a[i] := c;
    assert a[..] == t[i := c];
  }

  /** `insert_value_on_rehash` */
  method InsertValueOnRehash<K(==), V>(a: array<Bucket<K, V>>, h: K -> nat, start: nat, entry: Bucket<K, V>,
                                       ghost m: map<K, V>)
    requires IsPow2(a.Length) && Count(a[..]) < a.Length && start < a.Length
    requires Carries(a[..], h, start, entry) && ReflectsWith(a[..], entry, m)
    modifies a
    ensures TableOk(a[..], h) && Reflects(a[..], m) && Count(a[..]) == old(Count(a[..])) + 1
  {
    var i: nat, c := start, entry;
    ghost var e := EmptyExists(a[..]);
    while !a[i].Empty?
      invariant i < a.Length && e < a.Length && a[e].Empty?
      invariant Carries(a[..], h, i, c) && ReflectsWith(a[..], c, m)
      invariant Count(a[..]) == old(Count(a[..]))
      decreases Ahead(i, e, a.Length)
    {
      i, c := CarryOn(a, h, i, c, m);
    }
    Settle(a, h, i, c, m);
  }

  /** An entry other than the one at `start` was displaced by one that is at least 4096 buckets from its home. */
  ghost predicate LongMove<K, V>(t: seq<Bucket<K, V>>, t': seq<Bucket<K, V>>, start: nat) {
    |t| == |t'| && exists j | 0 <= j < |t| && j != start :: t[j].Full? && t'[j] != t[j] && Dist(t'[j]) >= 4096
  }

  /** The buckets from `i` on up to the empty one at `e` are still as they were. */
  ghost predicate Untouched<K, V>(t: seq<Bucket<K, V>>, t': seq<Bucket<K, V>>, i: nat, e: nat)
    requires i < |t| && e < |t|
  {
    |t| == |t'| && forall j: nat | j < |t| && Ahead(j, e, |t|) <= Ahead(i, e, |t|) :: t'[j] == t[j]
  }

  /** One bucket more behind: a long move is noticed when it is made. */
  lemma {:induction false} MoveNoticed<K, V>(t: seq<Bucket<K, V>>, now: seq<Bucket<K, V>>, after: seq<Bucket<K, V>>,
                                             start: nat, i: nat, e: nat, c: Bucket<K, V>)
    requires i < |t| == |now| && e < |t| && i != e && i != start && Untouched(t, now, i, e) && now[i].Full? && c.Full?
    requires after == if c.dist > now[i].dist then now[i := c] else now
    ensures Untouched(t, after, Next(i, |t|), e)
    ensures LongMove(t, after, start) <==> LongMove(t, now, start) || (c.dist > now[i].dist && c.dist >= 4096)
  {
    if j: nat :| j < |t| && j != start && t[j].Full? && now[j] != t[j] && Dist(now[j]) >= 4096 {
      assert after[j] == now[j];
    }
    if c.dist > now[i].dist && c.dist >= 4096 { assert after[i] != t[i] && Dist(after[i]) >= 4096; }
  }

  lemma {:induction false} MoveStarts<K, V>(t: seq<Bucket<K, V>>, now: seq<Bucket<K, V>>, start: nat, e: nat)
    requires start < |t| == |now| && e < |t| && start != e && forall j | 0 <= j < |t| && j != start :: now[j] == t[j]
    ensures Untouched(t, now, Next(start, |t|), e) && !LongMove(t, now, start)
  {
  }

  lemma {:induction false} MoveSettles<K, V>(t: seq<Bucket<K, V>>, now: seq<Bucket<K, V>>, after: seq<Bucket<K, V>>,
                                             start: nat, i: nat, e: nat)
    requires i < |t| == |now| == |after| && e < |t| && Untouched(t, now, i, e) && now[i].Empty?
    requires forall j | 0 <= j < |t| && j != i :: after[j] == now[j]
    ensures LongMove(t, after, start) <==> LongMove(t, now, start)
  {
    if j: nat :| j < |t| && j != start && t[j].Full? && now[j] != t[j] && Dist(now[j]) >= 4096 {
      assert after[j] == now[j];
    }
  }

  /** One turn of the loop of `insert_value_impl`; `long` says that it was a long move. */
  method CarryNoting<K(==), V>(a: array<Bucket<K, V>>, h: K -> nat, i: nat, c: Bucket<K, V>, ghost m: map<K, V>,
                               ghost t: seq<Bucket<K, V>>, ghost start: nat, ghost e: nat)
    returns (i': nat, c': Bucket<K, V>, long: bool)
    requires IsPow2(a.Length) && i < a.Length && a[i].Full? && Count(a[..]) < a.Length
    requires Carries(a[..], h, i, c) && ReflectsWith(a[..], c, m)
    requires |t| == a.Length && e < a.Length && i != e && i != start && Untouched(t, a[..], i, e)
    modifies a
    ensures i' == Next(i, a.Length) && Carries(a[..], h, i', c') && ReflectsWith(a[..], c', m)
    ensures Count(a[..]) == old(Count(a[..]))
    ensures forall j | 0 <= j < a.Length && j != i :: a[j] == old(a[j])
    ensures Untouched(t, a[..], i', e) && (LongMove(t, a[..], start) <==> LongMove(t, old(a[..]), start) || long)
    ensures long ==> old(Count(a[..])) >= DIST_FROM_IDEAL_BUCKET_LIMIT
  {
    hide LongMove, Untouched, TableOk, ReflectsWith, Count, IsPow2;
    long := c.dist > a[i].dist && c.dist >= DIST_FROM_IDEAL_BUCKET_LIMIT;
    if long { CarriedPast(a[..], h, i, c); }
    ghost var now := a[..];
    i', c' := CarryOn(a, h, i, c, m);
    assert a[..] == if c.dist > now[i].dist then now[i := c] else now;
    MoveNoticed(t, now, a[..], start, i, e, c);
  }

  /** `insert_value_impl`: takes the bucket of a richer entry, then finds a bucket for what it displaced. */
  method InsertValueImpl<K(==), V>(a: array<Bucket<K, V>>, h: K -> nat, start: nat, entry: Bucket<K, V>,
                                   ghost m: map<K, V>)
    returns (grow: bool)
    requires IsPow2(a.Length) && Count(a[..]) < a.Length && start < a.Length && a[start].Full?
    requires Carries(a[..], h, start, entry) && ReflectsWith(a[..], entry, m) && entry.dist > a[start].dist
    modifies a
    ensures TableOk(a[..], h) && Reflects(a[..], m) && Count(a[..]) == old(Count(a[..])) + 1
    ensures a[start] == entry
    ensures grow <==> LongMove(old(a[..]), a[..], start)
    ensures grow ==> old(Count(a[..])) >= DIST_FROM_IDEAL_BUCKET_LIMIT
  {
    hide LongMove, Untouched, TableOk, ReflectsWith, Count, Reflects, Carries, IsPow2;
    ghost var t := a[..];
    ghost var e := EmptyExists(a[..]);
    var i: nat, c := CarryOn(a, h, start, entry, m);
    MoveStarts(t, a[..], start, e);
    grow := false;
    while !a[i].Empty?
      invariant i < a.Length && e < a.Length && a[e].Empty?
      invariant a[start] == entry && Ahead(i, e, a.Length) < Ahead(start, e, a.Length)
      invariant Carries(a[..], h, i, c) && ReflectsWith(a[..], c, m)
      invariant Count(a[..]) == old(Count(a[..]))
      invariant grow ==> old(Count(a[..])) >= DIST_FROM_IDEAL_BUCKET_LIMIT
      invariant Untouched(t, a[..], i, e) && (grow <==> LongMove(t, a[..], start))
      decreases Ahead(i, e, a.Length)
    {
      var long;
      i, c, long := CarryNoting(a, h, i, c, m, t, start, e);
      grow := grow || long;
    }
    ghost var now := a[..];
    Settle(a, h, i, c, m);
    MoveSettles(t, now, a[..], start, i, e);
  }

  /** The end of `insert_impl`: into an empty bucket, or by displacing a richer entry. */
  method Place<K(==), V>(a: array<Bucket<K, V>>, h: K -> nat, i: nat, entry: Bucket<K, V>, ghost m: map<K, V>)
    returns (grow: bool)
    requires IsPow2(a.Length) && Count(a[..]) < a.Length && i < a.Length
    requires Carries(a[..], h, i, entry) && ReflectsWith(a[..], entry, m) && entry.dist > Dist(a[i])
    modifies a
    ensures TableOk(a[..], h) && Reflects(a[..], m) && Count(a[..]) == old(Count(a[..])) + 1
    ensures a[i] == entry
    ensures grow <==> LongMove(old(a[..]), a[..], i)
    ensures grow ==> old(Count(a[..])) >= DIST_FROM_IDEAL_BUCKET_LIMIT
  {
    if a[i].Empty? {
      Settle(a, h, i, entry, m);
      grow := false;
    } else {
      grow := InsertValueImpl(a, h, i, entry, m);
    }
  }

  /**
   The probe loop shared by `find_impl` and `insert_impl`.  It stops at the key's bucket, or at
   the first bucket poorer than the probe: the key would have to be before it, so it is absent.
   */
  method Probe<K(==), V>(a: array<Bucket<K, V>>, h: K -> nat, mask: nat, key: K)
    returns (found: bool, i: nat, dist: nat)
    requires IsPow2(a.Length) && mask == a.Length - 1 && TableOk(a[..], h) && Count(a[..]) < a.Length
    ensures ProbeStands(a[..], h, key, i, dist)
    ensures found <==> Has(a[..], key)
    ensures if found then Holds(a[i], key) else Dist(a[i]) < dist
  {
    ghost var t := a[..];
    ghost var e := EmptyExists(t);
    i := HomeBucket(h, key, mask);
    ProbeStarts(t, h, key);
    dist := 0;
    while dist <= Dist(a[i])
      invariant ProbeStands(t, h, key, i, dist)
      decreases Ahead(i, e, a.Length)
    {
      if a[i].key == key {
        assert Holds(t[i], key);
        return true, i, dist;
      }
      ProbeMovesOn(t, h, key, i, dist);
      i := NextBucket(i, mask);
      dist := dist + 1;
    }
    EarlyStopIsRight(t, h, key, dist);
    found := false;
  }

  /** `erase_from_bucket`: empties bucket `p` and shifts the entries after it one bucket back. */
  method EraseFromBucket<K(==), V>(a: array<Bucket<K, V>>, h: K -> nat, mask: nat, p: nat, ghost m: map<K, V>)
    requires IsPow2(a.Length) && mask == a.Length - 1 && p < a.Length && a[p].Full?
    requires TableOk(a[..], h) && Reflects(a[..], m) && Count(a[..]) < a.Length
    modifies a
    ensures TableOk(a[..], h) && Reflects(a[..], m - {old(a[p].key)}) && Count(a[..]) == old(Count(a[..])) - 1
  {
    ghost var t := a[..];
    ghost var e := EmptyExists(t);
    ghost var m' := m - {a[p].key};
    ClearMakesHole(t, h, p);
    ClearReflects(t, p, m);
    a[p] := Empty;
    assert a[..] == t[p := Empty];
    var hole: nat := p;
    var i := NextBucket(p, mask);
    while Dist(a[i]) > 0
      invariant hole < a.Length && i == Next(hole, a.Length) && HoleAt(a[..], h, hole)
      invariant Reflects(a[..], m') && Count(a[..]) == old(Count(a[..])) - 1
      invariant a[e].Empty? && e != hole
      decreases Ahead(i, e, a.Length)
    {
      hole, i := ShiftOne(a, h, mask, hole, i, m');
    }
    HoleCloses(a[..], h, hole);
  }

  /** One turn of the backward shift. */
  method ShiftOne<K(==), V>(a: array<Bucket<K, V>>, h: K -> nat, mask: nat, hole: nat, i: nat, ghost m: map<K, V>)
    returns (hole': nat, i': nat)
    requires IsPow2(a.Length) && mask == a.Length - 1 && hole < a.Length && i == Next(hole, a.Length)
    requires HoleAt(a[..], h, hole) && Reflects(a[..], m) && Dist(a[i]) > 0
    modifies a
    ensures hole' == i && i' == Next(i, a.Length)
    ensures HoleAt(a[..], h, hole') && Reflects(a[..], m) && Count(a[..]) == old(Count(a[..]))
    ensures forall j | 0 <= j < a.Length && j != hole && j != i :: a[j] == old(a[j])
  {
    ghost var t := a[..];
    ShiftKeepsHole(t, h, hole);
    ShiftReflects(t, hole, m);
    a[hole] := a[i].(dist := a[i].dist - 1);
    a[i] := Empty;
    assert a[..] == Shifted(t, hole);
    hole' := i;
    i' := NextBucket(i, mask);
  }

  /**
   `rehash_impl`: a new table of `n` buckets with the same entries, placed by their stored 32-bit
   hash when the bucket count allows it.
   */
  method RehashInto<K(==), V>(source: array<Bucket<K, V>>, h: K -> nat, n: nat, ghost m: map<K, V>)
    returns (a: array<Bucket<K, V>>)
    requires IsPow2(n) && Count(source[..]) < n
    requires source.Length > 0 ==> TableOk(source[..], h)
    requires Reflects(source[..], m)
    ensures fresh(a) && a.Length == n
    ensures TableOk(a[..], h) && Reflects(a[..], m) && Count(a[..]) == Count(source[..])
  {
    a := new Bucket<K, V>[n](_ => Empty);
    BlankTable(a[..], h);
    ghost var t := source[..];
    assert t[..0] == [];
    for k := 0 to source.Length
      invariant source[..] == t
      invariant TableOk(a[..], h) && Reflects(a[..], StoredIn(t, k)) && Count(a[..]) == Count(t[..k])
    {
      CountPrefix(t, k);
      if source[k].Full? {
        StoredKeys(t, k, source[k].key);
        MoveEntry(a, h, source[k], k, t);
      }
    }
    assert t[..|t|] == t;
    StoredInAll(t, m);
  }

  /** The hash used on rehash, truncated for storing, and the bucket it selects: the key's true home. */
  method RehashBucket<K>(h: K -> nat, key: K, stored: nat, n: nat) returns (truncated: nat, i: nat)
    requires IsPow2(n) && stored == Truncate32(h(key))
    ensures truncated == Truncate32(h(key)) && i == Home(h, key, n)
  {
    var hash := if StoredHashSuffices(n) then stored else h(key);
    TruncatedHashSameBucket(h(key), n);
    IdxIsMod(h(key), n);
    truncated, i := Truncate32(hash), BucketForHash(hash, n - 1);
  }

  /** Rehashing one entry. */
  method MoveEntry<K(==), V>(a: array<Bucket<K, V>>, h: K -> nat, b: Bucket<K, V>,
                             ghost k: nat, ghost t: seq<Bucket<K, V>>)
    requires IsPow2(a.Length) && Count(a[..]) < a.Length && k < |t| && t[k] == b && b.Full?
    requires TableOk(t, h) && TableOk(a[..], h) && Reflects(a[..], StoredIn(t, k)) && b.key !in StoredIn(t, k)
    modifies a
    ensures TableOk(a[..], h) && Reflects(a[..], StoredIn(t, k + 1)) && Count(a[..]) == old(Count(a[..])) + 1
  {
    assert FitsAt(t[k], h, k, |t|);
    var hash, i := RehashBucket(h, b.key, b.hash, a.Length);
    var entry := Full(0, hash, b.key, b.value);
    FreshCarries(a[..], h, entry, StoredIn(t, k));
    InsertValueOnRehash(a, h, i, entry, StoredIn(t, k + 1));
  }

  /** `n` is the least power of two that is not below `count`, or 0 for 0. */
  ghost predicate Least(count: nat, n: nat) {
    if count == 0 then n == 0 else IsPow2(n) && count <= n && forall q: nat | IsPow2(q) && count <= q :: n <= q
  }

  lemma {:induction false} DoubleIsLeast(n: nat, length: nat)
    requires if length == 0 then n == 1 else n == length && IsPow2(length)
    ensures forall m: nat | Least(2 * n, m) :: m == 2 * n
  {
    hide Pow2;
    assert IsPow2(2 * n) by {
      if length == 0 { TwoIsPower(); } else {
        var k: nat :| n == Pow2(k);
        DoublePower(k);
      }
    }
  }

  lemma {:induction false} TwoIsPower()
    ensures IsPow2(2)
  {
    assert 2 == Pow2(1);
  }

  lemma {:induction false} DoublePower(k: nat)
    ensures IsPow2(2 * Pow2(k))
  {
    assert 2 * Pow2(k) == Pow2(k + 1);
  }

  class RobinMap<K(==), V> {
    const hashOf: K -> nat
    var buckets: array<Bucket<K, V>>
    var mask: nat
    var nbElements: nat
    var loadThreshold: nat
    var growOnNextInsert: bool
    var tryShrinkOnNextInsert: bool

    /** The finite map this table stands for. */
    ghost var model: map<K, V>

    ghost predicate Valid()
      reads this, buckets
    {
      && nbElements == |model|
      && loadThreshold == buckets.Length / 2 && 2 * nbElements <= buckets.Length
      && if buckets.Length == 0 then mask == 0 && model == map[]
         else
           && IsPow2(buckets.Length) && mask == buckets.Length - 1
           && TableOk(buckets[..], hashOf) && Reflects(buckets[..], model)
           && Count(buckets[..]) == nbElements < buckets.Length
    }

    /** `rehash_on_extreme_load` will ask for more buckets. */
    ghost predicate WantsRoom()
      reads this
    {
      growOnNextInsert || nbElements >= loadThreshold
    }

    /** The operation exceeds the maximum table size. */
    ghost predicate Refuses(op: Op<K, V>)
      reads this
    {
      match op
      case OpFind(_) => false
      case OpInsert(k, _) => k !in model && WantsRoom() && !CanGrow(mask)
      case OpErase(_) => false
      case OpRehash(count) => count > MaxBucketCount() || 2 * nbElements > MaxBucketCount()
    }

    /** A table with no buckets, as the default constructor makes it. */
    constructor (hashOf: K -> nat)
      ensures Valid() && model == map[] && this.hashOf == hashOf && fresh(buckets) && !growOnNextInsert
    {
      this.hashOf := hashOf;
      buckets := new Bucket<K, V>[0];
      mask, nbElements, loadThreshold := 0, 0, 0;
      growOnNextInsert, tryShrinkOnNextInsert := false, false;
      model := map[];
    }

    /** `find`: exactly the lookup of a finite map. */
    method Find(key: K) returns (r: FindResult<V>)
      requires Valid()
      ensures r == if key in model then Found(model[key]) else NotFound
    {
      if buckets.Length == 0 { return NotFound; }
      var found, i, _ := Probe(buckets, hashOf, mask, key);
      r := if found then Found(buckets[i].value) else NotFound;
    }

    /** `erase(key)`: exactly the removal from a finite map. */
    method Erase(key: K) returns (removed: nat)
      requires Valid()
      modifies this, buckets
      ensures Valid() && model == old(model) - {key} && removed == (if key in old(model) then 1 else 0)
      ensures buckets == old(buckets) && growOnNextInsert == old(growOnNextInsert)
    {
      hide TableOk, IsPow2, Count, ProbeStands, Reflects, Has;
      removed := 0;
      if buckets.Length > 0 {
        var found, i, _ := Probe(buckets, hashOf, mask, key);
        if found {
          EraseAt(i);
          removed := 1;
        } else {
          NotStored(buckets[..], model, key);
        }
      }
    }

    method EraseAt(i: nat)
      requires Valid() && i < buckets.Length && buckets[i].Full?
      modifies `model, `nbElements, `tryShrinkOnNextInsert, buckets
      ensures Valid() && model == old(model) - {old(buckets[i].key)} && old(buckets[i].key) in old(model)
    {
      hide TableOk, IsPow2, Count;
      ghost var m := model - {buckets[i].key};
      EraseFromBucket(buckets, hashOf, mask, i, model);
      model := m;
      nbElements := nbElements - 1;
      tryShrinkOnNextInsert := true;
    }

    /** `rehash_impl`: the abstract map is untouched. */
    method RehashImpl(count: nat)
      requires Valid() && count <= MaxBucketCount()
      requires 2 * nbElements <= count
      modifies this
      ensures Valid() && model == old(model) && nbElements == old(nbElements)
      ensures fresh(buckets) && Least(count, buckets.Length) && !growOnNextInsert && !tryShrinkOnNextInsert
    {
      hide TableOk, Reflects, Count, MaxBucketCount, IsPow2;
      if count == 0 {
        buckets := new Bucket<K, V>[0];
        mask := 0;
        assert model == map[];
      } else {
        var n := RoundUpToPowerOfTwo(count);
        buckets := RehashInto(buckets, hashOf, n, model);
        mask := n - 1;
      }
      loadThreshold := buckets.Length / 2;
      growOnNextInsert, tryShrinkOnNextInsert := false, false;
    }

    /** `rehash(count)` raises the request to what the elements need at half load. */
    method Rehash(count: nat)
      requires Valid() && count <= MaxBucketCount() && 2 * nbElements <= MaxBucketCount()
      modifies this
      ensures Valid() && model == old(model) && fresh(buckets) && !growOnNextInsert
      ensures Least(if count < 2 * nbElements then 2 * nbElements else count, buckets.Length)
    {
      RehashImpl(if count < 2 * nbElements then 2 * nbElements else count);
    }

    /** Puts an absent key where its probe stopped. */
    method InsertAt(i: nat, dist: nat, key: K, value: V) returns (grow: bool)
      requires Valid() && 2 * (nbElements + 1) <= buckets.Length && key !in model
      requires ProbeStands(buckets[..], hashOf, key, i, dist) && Dist(buckets[i]) < dist
      modifies `model, `nbElements, buckets
      ensures Valid() && model == old(model)[key := value]
      ensures i < buckets.Length && Holds(buckets[i], key) && buckets[i].value == value
      ensures grow <==> LongMove(old(buckets[..]), buckets[..], i)
      ensures grow ==> old(nbElements) >= DIST_FROM_IDEAL_BUCKET_LIMIT
    {
      hide TableOk, ReflectsWith, Carries, Count, IsPow2, Truncate32, LongMove;
      var entry := Full(dist, Truncate32(hashOf(key)), key, value);
      ProbeCarries(buckets[..], hashOf, entry, i, model);
      grow := Place(buckets, hashOf, i, entry, model[key := value]);
      model := model[key := value];
      nbElements := nbElements + 1;
    }

    method NoteLongProbe(grow: bool)
      requires Valid()
      modifies this`growOnNextInsert
      ensures Valid() && growOnNextInsert == (old(growOnNextInsert) || grow)
    {
      growOnNextInsert := growOnNextInsert || grow;
    }

    /** `rehash_on_extreme_load`: afterwards there is room for one more element. */
    method RehashOnExtremeLoad() returns (rehashed: bool, error: bool)
      requires Valid()
      modifies this
      ensures Valid() && model == old(model)
      ensures error <==> old(WantsRoom()) && !CanGrow(old(mask))
      ensures if error then WantsRoom() && mask == old(mask) else 2 * (nbElements + 1) <= buckets.Length
      ensures rehashed <==> old(WantsRoom()) && !error
      ensures if rehashed then fresh(buckets) && buckets.Length == 2 * (old(mask) + 1) && !growOnNextInsert
              else buckets == old(buckets) && growOnNextInsert == old(growOnNextInsert)
    {
      hide TableOk, Reflects, Count, MaxBucketCount, IsPow2;
      error, rehashed := false, false;
      if growOnNextInsert || nbElements >= loadThreshold {
        if CanGrow(mask) {
          ghost var n := mask + 1;
          DoubleIsLeast(n, buckets.Length);
          RehashImpl(NextBucketCount(mask));
          assert Least(2 * n, buckets.Length);
          rehashed := true;
        } else {
          error := true;
        }
      } else {
        tryShrinkOnNextInsert := false;
      }
    }

    /**
     How an insertion treats the buckets.  When the table was to grow, a new key doubles their number; otherwise they
     stay, and the table is to grow next time exactly if the insertion made a long move.
     */
    ghost predicate Grown(wanted: bool, mask0: nat, buckets0: array<Bucket<K, V>>, t: seq<Bucket<K, V>>,
                          r: InsertResult)
      reads this, buckets
    {
      match r
      case Inserted(at) =>
        if wanted then buckets.Length == 2 * (mask0 + 1)
        else buckets == buckets0 && (growOnNextInsert <==> LongMove(t, buckets[..], at))
      case _ => buckets == buckets0 && buckets[..] == t
    }

    /** The part of `insert_impl` after the key was not found; `i` and `dist` say where its probe stopped. */
    method InsertAbsent(key: K, value: V, stop: nat, stopDist: nat) returns (r: InsertResult)
      requires Valid() && key !in model
      requires buckets.Length > 0 ==>
                 ProbeStands(buckets[..], hashOf, key, stop, stopDist) && Dist(buckets[stop]) < stopDist
      modifies this, buckets
      ensures Valid()
      ensures r.LengthError? <==> old(WantsRoom()) && !CanGrow(old(mask))
      ensures if r.LengthError? then model == old(model) && WantsRoom() && mask == old(mask)
              else
                && r.Inserted? && model == old(model)[key := value]
                && r.at < buckets.Length && Holds(buckets[r.at], key)
      ensures growOnNextInsert ==> old(growOnNextInsert) || old(nbElements) >= DIST_FROM_IDEAL_BUCKET_LIMIT
      ensures Grown(old(WantsRoom()), old(mask), old(buckets), old(buckets[..]), r)
      ensures fresh(buckets) || buckets == old(buckets)
    {
      hide TableOk, Count, ProbeStands, IsPow2, CanGrow, LongMove;
      var rehashed, error := RehashOnExtremeLoad();
      if error { return LengthError; }
      var found, i: nat, dist: nat := false, stop, stopDist;
      if rehashed { found, i, dist := Probe(buckets, hashOf, mask, key); }
      var grow := InsertAt(i, dist, key, value);
      NoteLongProbe(grow);
      r := Inserted(i);
    }

    /** `insert`: adds an absent key, and leaves a present one and its value alone. */
    method Insert(key: K, value: V) returns (r: InsertResult)
      requires Valid()
      modifies this, buckets
      ensures Valid()
      ensures r.AlreadyThere? <==> key in old(model)
      ensures r.LengthError? <==> old(Refuses(OpInsert(key, value)))
      ensures model == if r.Inserted? then old(model)[key := value] else old(model)
      ensures r.LengthError? ==> Refuses(OpInsert(key, value))
      ensures growOnNextInsert ==> old(growOnNextInsert) || old(nbElements) >= DIST_FROM_IDEAL_BUCKET_LIMIT
      ensures !r.LengthError? ==> r.at < buckets.Length && Holds(buckets[r.at], key)
      ensures Grown(old(WantsRoom()), old(mask), old(buckets), old(buckets[..]), r)
      ensures fresh(buckets) || buckets == old(buckets)
    {
      hide TableOk, Count, IsPow2, LongMove;
      var found, i: nat, dist: nat := false, 0, 0;
      if buckets.Length > 0 {
        found, i, dist := Probe(buckets, hashOf, mask, key);
      }
      if found {
        r := AlreadyThere(i);
      } else {
        r := InsertAbsent(key, value, i, dist);
      }
    }
  }

  // ---------------------------------------------------------------- any sequence of operations

  datatype Op<K, V> = OpFind(key: K) | OpInsert(key: K, value: V) | OpErase(key: K) | OpRehash(count: nat)

  datatype Answer<V> =
    FindAnswer(found: FindResult<V>) | InsertAnswer(added: bool) | EraseAnswer(removed: nat) | RehashAnswer

  /** The same operations on a plain finite map. */
  function MapAfter<K, V>(ops: seq<Op<K, V>>): map<K, V>
    decreases |ops|
  {
    if ops == [] then map[]
    else
      var m := MapAfter(ops[..|ops| - 1]);
      match ops[|ops| - 1]
      case OpFind(_) => m
      case OpInsert(k, v) => if k in m then m else m[k := v]
      case OpErase(k) => m - {k}
      case OpRehash(_) => m
  }

  function MapAnswer<K, V>(m: map<K, V>, op: Op<K, V>): Answer<V> {
    match op
    case OpFind(k) => FindAnswer(if k in m then Found(m[k]) else NotFound)
    case OpInsert(k, _) => InsertAnswer(k !in m)
    case OpErase(k) => EraseAnswer(if k in m then 1 else 0)
    case OpRehash(_) => RehashAnswer
  }

  /** One operation on the table; `ok` is false exactly when the table refuses it for its size. */
  method Apply<K(==), V>(table: RobinMap<K, V>, op: Op<K, V>, ghost before: seq<Op<K, V>>)
    returns (answer: Answer<V>, ok: bool)
    requires table.Valid() && table.model == MapAfter(before)
    modifies table, table.buckets
    ensures table.Valid() && (fresh(table.buckets) || table.buckets == old(table.buckets))
    ensures ok <==> !old(table.Refuses(op))
    ensures if ok then answer == MapAnswer(MapAfter(before), op) && table.model == MapAfter(before + [op])
            else table.model == MapAfter(before) && table.Refuses(op)
    ensures table.growOnNextInsert ==>
              old(table.growOnNextInsert) || |MapAfter(before)| >= DIST_FROM_IDEAL_BUCKET_LIMIT
  {
    assert (before + [op])[..|before|] == before;
    ok, answer := true, RehashAnswer;
    match op {
      case OpFind(k) =>
        var r := table.Find(k);
        answer := FindAnswer(r);
      case OpInsert(k, v) =>
        var r := table.Insert(k, v);
        answer, ok := InsertAnswer(r.Inserted?), !r.LengthError?;
      case OpErase(k) =>
        var n := table.Erase(k);
        answer := EraseAnswer(n);
      case OpRehash(count) =>
        if count <= MaxBucketCount() && 2 * table.nbElements <= MaxBucketCount() {
          table.Rehash(count);
        } else {
          ok := false;
        }
    }
  }

  /** The answers to the operations from number `k` on agree with the finite map, one by one. */
  ghost predicate Agree<K, V>(answers: seq<Answer<V>>, ops: seq<Op<K, V>>, k: nat) {
    && k + |answers| <= |ops|
    && (forall i | 0 <= i < |answers| :: answers[i] == MapAnswer(MapAfter(ops[..k + i]), ops[k + i]))
  }

  lemma {:induction false} AgreeNone<K, V>(ops: seq<Op<K, V>>, k: nat)
    requires k <= |ops|
    ensures Agree([], ops, k)
  {
  }

  lemma {:induction false} AgreeOneMore<K, V>(answers: seq<Answer<V>>, ops: seq<Op<K, V>>, k: nat, answer: Answer<V>)
    requires k < |ops| && Agree(answers, ops, k + 1)
    requires answer == MapAnswer(MapAfter(ops[..k]), ops[k])
    ensures Agree([answer] + answers, ops, k)
  {
  }

  /**
   During the first `n` operations the finite map never holds as many keys as the distance limit, and no rehash asks
   for too many buckets.
   */
  ghost predicate Modest<K, V>(ops: seq<Op<K, V>>, n: nat)
    requires n <= |ops|
  {
    forall i | 0 <= i < n ::
      && |MapAfter(ops[..i])| < DIST_FROM_IDEAL_BUCKET_LIMIT
      && (ops[i].OpRehash? ==> ops[i].count <= MaxBucketCount())
  }

  /** A table that cannot grow has very many buckets. */
  lemma {:induction false} CannotGrowIsHuge(mask: nat)
    requires !CanGrow(mask)
    ensures mask + 1 > 4 * DIST_FROM_IDEAL_BUCKET_LIMIT && 2 * DIST_FROM_IDEAL_BUCKET_LIMIT <= MaxBucketCount()
  {
    Pow2Mono(16, WORD_BITS - 1);
    assert Pow2(4) == 16 && Pow2(8) == 16 * Pow2(4) && Pow2(12) == 16 * Pow2(8) && Pow2(16) == 16 * Pow2(12);
  }

  /** While few keys are stored and no probe was long, no operation is refused. */
  lemma {:induction false} FewKeysFit<K, V>(table: RobinMap<K, V>, op: Op<K, V>)
    requires table.Valid() && !table.growOnNextInsert && |table.model| < DIST_FROM_IDEAL_BUCKET_LIMIT
    requires op.OpRehash? ==> op.count <= MaxBucketCount()
    ensures !table.Refuses(op)
  {
    CannotGrowIsHuge(MaxBucketCount());
    if !CanGrow(table.mask) { CannotGrowIsHuge(table.mask); }
  }

  /** Performs the operations from number `k` on, until the table refuses one. */
  method ReplayFrom<K(==), V>(table: RobinMap<K, V>, ops: seq<Op<K, V>>, k: nat) returns (answers: seq<Answer<V>>)
    requires k <= |ops| && table.Valid() && table.model == MapAfter(ops[..k])
    modifies table, table.buckets
    ensures table.Valid() && Agree(answers, ops, k) && table.model == MapAfter(ops[..k + |answers|])
    ensures k + |answers| < |ops| ==> table.Refuses(ops[k + |answers|])
    ensures k + |answers| < |ops| && !old(table.growOnNextInsert) ==> !Modest(ops, k + |answers| + 1)
    decreases |ops| - k
  {
    hide MapAfter, MapAnswer, Agree, RobinMap.Valid, RobinMap.Refuses;
    AgreeNone(ops, k);
    if k == |ops| { return []; }
    PrefixOneMore(ops, k);
    if Modest(ops, k + 1) && !table.growOnNextInsert { FewKeysFit(table, ops[k]); }
    var answer, ok := Apply(table, ops[k], ops[..k]);
    if !ok { return []; }
    answers := ReplayFrom(table, ops, k + 1);
    AgreeOneMore(answers, ops, k, answer);
    answers := [answer] + answers;
  }

  /**
   Starting from an empty table, every answer is the one a finite map would give, and the table
   ends up storing that map.  The run stops early only at an insertion of a new key into a table
   that wants to grow and cannot, or at a rehash to too many buckets, and then not before as many
   keys as the distance limit were stored at once or such a rehash was asked for.
   */
  method Replay<K(==), V>(hashOf: K -> nat, ops: seq<Op<K, V>>)
    returns (table: RobinMap<K, V>, answers: seq<Answer<V>>)
    ensures table.Valid() && Agree(answers, ops, 0) && table.model == MapAfter(ops[..|answers|])
    ensures |answers| < |ops| ==> table.Refuses(ops[|answers|]) && !Modest(ops, |answers| + 1)
    ensures Modest(ops, |ops|) ==> |answers| == |ops|
  {
    table := new RobinMap<K, V>(hashOf);
    assert ops[..0] == [];
    answers := ReplayFrom(table, ops, 0);
  }
}
