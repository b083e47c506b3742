/**
 The circular bucket array of include/tsl/robin_hash.h as a value, its invariant, and the effect of
 the three moves the table is built from: displacing a richer entry, filling an empty bucket, and
 shifting an entry back into a hole.
 */
module RobinTable {
  import opened RingIndex
  import opened GrowthPolicy

  /** A bucket; the source marks an empty one with distance -1. */
  datatype Bucket<K, V> = Empty | Full(dist: nat, hash: nat, key: K, value: V)

  function Dist<K, V>(b: Bucket<K, V>): int {
    if b.Empty? then -1 else b.dist
  }

  function Next(i: nat, n: nat): (j: nat)
    requires i < n
    ensures j < n
  {
    if i + 1 == n then 0 else i + 1
  }

  function Prev(i: nat, n: nat): (j: nat)
    requires i < n
    ensures j < n && Next(j, n) == i
  {
    if i == 0 then n - 1 else i - 1
  }

  /** Where key `k` ideally lives. */
  function Home<K>(h: K -> nat, k: K, n: nat): (i: nat)
    requires n > 0
    ensures i < n
  {
    Idx(h(k), n)
  }

  /** Entry `b` may sit in bucket `i`: its distance from home and its stored hash are right. */
  ghost predicate FitsAt<K, V>(b: Bucket<K, V>, h: K -> nat, i: nat, n: nat)
    requires n > 0
  {
    b.Full? ==> Idx(Home(h, b.key, n) + b.dist, n) == i && b.hash == Truncate32(h(b.key))
  }

  ghost predicate Placed<K, V>(t: seq<Bucket<K, V>>, h: K -> nat) {
    forall i | 0 <= i < |t| :: FitsAt(t[i], h, i, |t|)
  }

  /** The robin-hood order: going right, the distance grows by at most one. */
  ghost predicate Ordered<K, V>(t: seq<Bucket<K, V>>) {
    forall i | 0 <= i < |t| :: Dist(t[Next(i, |t|)]) <= Dist(t[i]) + 1
  }

  ghost predicate Distinct<K, V>(t: seq<Bucket<K, V>>) {
    forall i, j | 0 <= i < j < |t| && t[i].Full? && t[j].Full? :: t[i].key != t[j].key
  }

  ghost predicate TableOk<K, V>(t: seq<Bucket<K, V>>, h: K -> nat) {
    |t| > 0 && Placed(t, h) && Ordered(t) && Distinct(t)
  }

  predicate Holds<K(==), V>(b: Bucket<K, V>, k: K) {
    b.Full? && b.key == k
  }

  ghost predicate Has<K, V>(t: seq<Bucket<K, V>>, k: K) {
    exists i | 0 <= i < |t| :: Holds(t[i], k)
  }

  /** The table stores exactly the finite map `m`. */
  ghost predicate Reflects<K, V>(t: seq<Bucket<K, V>>, m: map<K, V>) {
    && (forall i | 0 <= i < |t| && t[i].Full? :: t[i].key in m && m[t[i].key] == t[i].value)
    && (forall k | k in m :: Has(t, k))
  }

  lemma {:induction false} NotStored<K, V>(t: seq<Bucket<K, V>>, m: map<K, V>, k: K)
    requires Reflects(t, m) && !Has(t, k)
    ensures k !in m && m - {k} == m
  {
  }

  function Count<K, V>(t: seq<Bucket<K, V>>): (c: nat)
    ensures c <= |t|
  {
    if t == [] then 0 else (if t[0].Full? then 1 else 0) + Count(t[1..])
  }

  // ---------------------------------------------------------------- general facts

  lemma {:induction false} CountUpdate<K, V>(t: seq<Bucket<K, V>>, i: nat, b: Bucket<K, V>)
    requires i < |t|
    ensures Count(t[i := b]) == Count(t) - (if t[i].Full? then 1 else 0) + (if b.Full? then 1 else 0)
  {
    if i == 0 {
      assert t[i := b][1..] == t[1..];
    } else {
      CountUpdate(t[1..], i - 1, b);
      assert t[i := b][1..] == t[1..][i - 1 := b];
    }
  }

  lemma {:induction false} EmptyExists<K, V>(t: seq<Bucket<K, V>>) returns (e: nat)
    requires Count(t) < |t|
    ensures e < |t| && t[e].Empty?
  {
    if t[0].Empty? {
      e := 0;
    } else {
      var e' := EmptyExists(t[1..]);
      e := e' + 1;
    }
  }

  lemma {:induction false} NextIsIdx(i: nat, n: nat)
    requires i < n
    ensures Next(i, n) == Idx(i + 1, n)
  {
  }

  /** Walking on from ticket `t` moves to the next bucket. */
  lemma {:induction false} WalkOn(t: nat, n: nat)
    requires n > 0
    ensures Next(Idx(t, n), n) == Idx(t + 1, n)
  {
    NextIsIdx(Idx(t, n), n);
    IdxNext(t, n);
  }

  /** Walking back: if ticket `t + 1` is in bucket `Next(p)` then ticket `t` is in bucket `p`. */
  lemma {:induction false} WalkBack(t: nat, p: nat, n: nat)
    requires p < n && Idx(t + 1, n) == Next(p, n)
    ensures Idx(t, n) == p
  {
    WalkOn(t, n);
  }

  /** How far ahead of bucket `i` bucket `e` is. */
  function Ahead(i: nat, e: nat, n: nat): (d: nat)
    requires i < n && e < n
    ensures d < n && (d == 0 <==> i == e)
    ensures d > 0 ==> Next(i, n) != i && Ahead(Next(i, n), e, n) == d - 1
    decreases if e >= i then e - i else e + n - i
  {
    if e >= i then e - i else e + n - i
  }

  // ---------------------------------------------------------------- probing

  /** The bucket that the probe of `k` looks at after `d` others. */
  function ProbeAt<K>(h: K -> nat, k: K, n: nat, d: nat): (i: nat)
    requires n > 0
    ensures i < n
  {
    Idx(Home(h, k, n) + d, n)
  }

  /** A stored key is found on its probe path: no bucket before it stops the search. */
  lemma {:induction false} ProbeReaches<K, V>(t: seq<Bucket<K, V>>, h: K -> nat, j: nat, d: nat)
    requires TableOk(t, h) && j < |t| && t[j].Full? && d <= t[j].dist
    ensures Dist(t[ProbeAt(h, t[j].key, |t|, d)]) >= d
    decreases t[j].dist - d
  {
    var home := Home(h, t[j].key, |t|);
    assert FitsAt(t[j], h, j, |t|);
    if d < t[j].dist {
      ProbeReaches(t, h, j, d + 1);
      WalkOn(home + d, |t|);
    }
  }

  /** The probe of `k` has looked at `d` buckets, none of them holding `k` nor ending the search. */
  ghost predicate Probed<K, V>(t: seq<Bucket<K, V>>, h: K -> nat, k: K, d: nat)
    requires |t| > 0
  {
    forall e: nat | e < d :: !Holds(t[ProbeAt(h, k, |t|, e)], k)
  }

  /** The probe of `k` stands at bucket `i`, `d` buckets from home. */
  ghost predicate ProbeStands<K, V>(t: seq<Bucket<K, V>>, h: K -> nat, k: K, i: nat, d: nat) {
    && i < |t| && i == ProbeAt(h, k, |t|, d)
    && d <= Dist(t[Prev(i, |t|)]) + 1
    && Probed(t, h, k, d)
  }

  lemma {:induction false} ProbeStarts<K, V>(t: seq<Bucket<K, V>>, h: K -> nat, k: K)
    requires |t| > 0
    ensures ProbeStands(t, h, k, Home(h, k, |t|), 0)
  {
    assert Idx(Home(h, k, |t|), |t|) == Home(h, k, |t|);
  }

  lemma {:induction false} ProbeMovesOn<K, V>(t: seq<Bucket<K, V>>, h: K -> nat, k: K, i: nat, d: nat)
    requires ProbeStands(t, h, k, i, d) && d <= Dist(t[i]) && !Holds(t[i], k)
    ensures ProbeStands(t, h, k, Next(i, |t|), d + 1)
  {
    WalkOn(Home(h, k, |t|) + d, |t|);
    assert Prev(Next(i, |t|), |t|) == i;
    forall e: nat | e < d + 1 ensures !Holds(t[ProbeAt(h, k, |t|, e)], k) {
      if e == d { assert ProbeAt(h, k, |t|, e) == i; }
    }
  }

  /** When the probe meets a bucket poorer than itself, the key is nowhere in the table. */
  lemma {:induction false} EarlyStopIsRight<K, V>(t: seq<Bucket<K, V>>, h: K -> nat, k: K, d: nat)
    requires TableOk(t, h) && Probed(t, h, k, d)
    requires Dist(t[ProbeAt(h, k, |t|, d)]) < d
    ensures !Has(t, k)
  {
    if j :| 0 <= j < |t| && Holds(t[j], k) {
      assert FitsAt(t[j], h, j, |t|);
      assert ProbeAt(h, k, |t|, t[j].dist) == j;
      if d <= t[j].dist { ProbeReaches(t, h, j, d); }
    }
  }

  // ---------------------------------------------------------------- carrying an entry along the probe path

  /** Entry `c` is looking for a bucket and has come to `i`; the table without it is in order. */
  ghost predicate Carries<K, V>(t: seq<Bucket<K, V>>, h: K -> nat, i: nat, c: Bucket<K, V>) {
    && TableOk(t, h)
    && i < |t| && c.Full? && FitsAt(c, h, i, |t|)
    && c.dist <= Dist(t[Prev(i, |t|)]) + 1
    && !Has(t, c.key)
  }

  /** The table together with the carried entry stores `m`. */
  ghost predicate ReflectsWith<K, V>(t: seq<Bucket<K, V>>, c: Bucket<K, V>, m: map<K, V>) {
    && c.Full? && c.key in m && m[c.key] == c.value
    && (forall i | 0 <= i < |t| && t[i].Full? :: t[i].key in m && m[t[i].key] == t[i].value)
    && (forall k | k in m :: k == c.key || Has(t, k))
  }

  function Further<K, V>(c: Bucket<K, V>): Bucket<K, V>
    requires c.Full?
  {
    c.(dist := c.dist + 1)
  }

  lemma {:induction false} FitsFurther<K, V>(c: Bucket<K, V>, h: K -> nat, i: nat, n: nat)
    requires i < n && c.Full? && FitsAt(c, h, i, n)
    ensures FitsAt(Further(c), h, Next(i, n), n)
  {
    WalkOn(Home(h, c.key, n) + c.dist, n);
  }

  lemma {:induction false} HasUpdate<K, V>(t: seq<Bucket<K, V>>, i: nat, c: Bucket<K, V>, k: K)
    requires i < |t|
    ensures Has(t[i := c], k) ==> Has(t, k) || Holds(c, k)
    ensures Has(t, k) ==> Has(t[i := c], k) || Holds(t[i], k)
    ensures Holds(c, k) ==> Has(t[i := c], k)
  {
    var t' := t[i := c];
    if j :| 0 <= j < |t| && Holds(t'[j], k) && j != i { assert Holds(t[j], k); }
    if j :| 0 <= j < |t| && Holds(t[j], k) && j != i { assert Holds(t'[j], k); }
    if Holds(c, k) { assert Holds(t'[i], k); }
  }

  /** Writing `c` into bucket `i`, whose entry was poorer or absent, keeps the table in order. */
  lemma {:induction false} WriteKeepsOrder<K, V>(t: seq<Bucket<K, V>>, h: K -> nat, i: nat, c: Bucket<K, V>)
    requires Carries(t, h, i, c) && c.dist > Dist(t[i])
    ensures Placed(t[i := c], h) && Ordered(t[i := c])
  {
    var t' := t[i := c];
    var n := |t|;
    forall j | 0 <= j < n ensures FitsAt(t'[j], h, j, n) { assert FitsAt(t[j], h, j, n); }
    forall j | 0 <= j < n ensures Dist(t'[Next(j, n)]) <= Dist(t'[j]) + 1 {
      assert Dist(t[Next(j, n)]) <= Dist(t[j]) + 1;
      if Next(j, n) == i { assert j == Prev(i, n); }
    }
  }

  lemma {:induction false} WriteKeepsDistinct<K, V>(t: seq<Bucket<K, V>>, i: nat, c: Bucket<K, V>)
    requires Distinct(t) && i < |t| && c.Full? && !Has(t, c.key)
    ensures Distinct(t[i := c])
  {
    assert forall j | 0 <= j < |t| :: !Holds(t[j], c.key);
  }

  /** An entry that is taken out is no longer in the table. */
  lemma {:induction false} TakenOut<K, V>(t: seq<Bucket<K, V>>, i: nat, c: Bucket<K, V>)
    requires Distinct(t) && i < |t| && t[i].Full? && !Holds(c, t[i].key)
    ensures !Has(t[i := c], t[i].key)
  {
    var t' := t[i := c];
    assert forall j | 0 <= j < |t| :: !Holds(t'[j], t[i].key);
  }

  /** Displacement: the carried entry takes the bucket of a richer one, which is carried on. */
  lemma {:induction false} SwapCarries<K, V>(t: seq<Bucket<K, V>>, h: K -> nat, i: nat, c: Bucket<K, V>)
    requires Carries(t, h, i, c) && t[i].Full? && c.dist > t[i].dist
    ensures Carries(t[i := c], h, Next(i, |t|), Further(t[i]))
  {
    WriteKeepsOrder(t, h, i, c);
    WriteKeepsDistinct(t, i, c);
    assert FitsAt(t[i], h, i, |t|);
    FitsFurther(t[i], h, i, |t|);
    assert !Holds(c, t[i].key) by { assert !Holds(t[i], c.key); }
    TakenOut(t, i, c);
    assert Prev(Next(i, |t|), |t|) == i;
  }

  lemma {:induction false} SwapReflects<K, V>(t: seq<Bucket<K, V>>, i: nat, c: Bucket<K, V>, m: map<K, V>)
    requires i < |t| && t[i].Full? && ReflectsWith(t, c, m)
    ensures ReflectsWith(t[i := c], Further(t[i]), m)
  {
    forall k | k in m ensures k == t[i].key || Has(t[i := c], k) { HasUpdate(t, i, c, k); }
  }

  lemma {:induction false} SkipCarries<K, V>(t: seq<Bucket<K, V>>, h: K -> nat, i: nat, c: Bucket<K, V>)
    requires Carries(t, h, i, c) && c.dist <= Dist(t[i])
    ensures Carries(t, h, Next(i, |t|), Further(c))
  {
    FitsFurther(c, h, i, |t|);
    assert Prev(Next(i, |t|), |t|) == i;
  }

  /** The carried entry finds an empty bucket. */
  lemma {:induction false} DropKeeps<K, V>(t: seq<Bucket<K, V>>, h: K -> nat, i: nat, c: Bucket<K, V>, m: map<K, V>)
    requires Carries(t, h, i, c) && ReflectsWith(t, c, m) && t[i].Empty?
    ensures TableOk(t[i := c], h) && Reflects(t[i := c], m)
    ensures Count(t[i := c]) == Count(t) + 1
  {
    WriteKeepsOrder(t, h, i, c);
    WriteKeepsDistinct(t, i, c);
    CountUpdate(t, i, c);
    forall k | k in m ensures Has(t[i := c], k) { HasUpdate(t, i, c, k); }
  }

  // ---------------------------------------------------------------- how crowded a long probe path is

  /** How many steps lead from bucket `e` to bucket `i`. */
  function StepsTo(e: nat, i: nat, n: nat): int {
    if i >= e then i - e else i + n - e
  }

  /** Between the empty bucket `e` and bucket `i` the robin-hood order holds. */
  ghost predicate OrderedFrom<K, V>(t: seq<Bucket<K, V>>, e: nat, i: nat) {
    forall j | 0 <= j < |t| && StepsTo(e, j, |t|) < StepsTo(e, i, |t|) :: Dist(t[Next(j, |t|)]) <= Dist(t[j]) + 1
  }

  lemma {:induction false} ClearKeepsOrderBehind<K, V>(t: seq<Bucket<K, V>>, e: nat, i: nat)
    requires e < |t| && i < |t| && e != i && OrderedFrom(t, e, i)
    ensures OrderedFrom(t[i := Empty], e, Prev(i, |t|))
  {
    var t': seq<Bucket<K, V>> := t[i := Empty];
    forall j | 0 <= j < |t| && StepsTo(e, j, |t|) < StepsTo(e, Prev(i, |t|), |t|)
      ensures Dist(t'[Next(j, |t|)]) <= Dist(t'[j]) + 1
    {
      assert Dist(t[Next(j, |t|)]) <= Dist(t[j]) + 1;
      assert j != i && Next(j, |t|) != i;
    }
  }

  /** An entry at distance `d` has `d` more entries right behind it, all different. */
  lemma {:induction false} CrowdBehind<K, V>(t: seq<Bucket<K, V>>, e: nat, i: nat, d: nat)
    requires e < |t| && i < |t| && t[e].Empty? && OrderedFrom(t, e, i) && Dist(t[i]) >= d
    ensures Count(t) >= d + 1
    decreases d
  {
    CountUpdate(t, i, Empty);
    if d > 0 {
      var p := Prev(i, |t|);
      assert StepsTo(e, p, |t|) < StepsTo(e, i, |t|);
      assert Dist(t[Next(p, |t|)]) <= Dist(t[p]) + 1;
      ClearKeepsOrderBehind(t, e, i);
      hide Count, OrderedFrom;
      CrowdBehind(t[i := Empty], e, p, d - 1);
    }
  }

  /** An entry carried `d` buckets from home has passed `d` others. */
  lemma {:induction false} CarriedPast<K, V>(t: seq<Bucket<K, V>>, h: K -> nat, i: nat, c: Bucket<K, V>)
    requires Carries(t, h, i, c) && Count(t) < |t|
    ensures Count(t) >= c.dist
  {
    if c.dist > 0 {
      var e := EmptyExists(t);
      CrowdBehind(t, e, Prev(i, |t|), c.dist - 1);
    }
  }

  // ---------------------------------------------------------------- shifting entries back into a hole

  /** Bucket `p` was emptied; everything is in order but for the step out of the hole. */
  ghost predicate HoleAt<K, V>(t: seq<Bucket<K, V>>, h: K -> nat, p: nat) {
    && Placed(t, h) && Distinct(t)
    && p < |t| && t[p].Empty?
    && (forall i | 0 <= i < |t| && i != p :: Dist(t[Next(i, |t|)]) <= Dist(t[i]) + 1)
    && Dist(t[Next(p, |t|)]) <= Dist(t[Prev(p, |t|)]) + 2
  }

  lemma {:induction false} ClearMakesHole<K, V>(t: seq<Bucket<K, V>>, h: K -> nat, p: nat)
    requires TableOk(t, h) && p < |t| && t[p].Full?
    requires exists e | 0 <= e < |t| :: t[e].Empty?
    ensures HoleAt(t[p := Empty], h, p)
  {
    var n := |t|;
    var t' := t[p := Empty];
    forall j | 0 <= j < n ensures FitsAt(t'[j], h, j, n) { assert FitsAt(t[j], h, j, n); }
    forall j | 0 <= j < n && j != p ensures Dist(t'[Next(j, n)]) <= Dist(t'[j]) + 1 {
      assert Dist(t[Next(j, n)]) <= Dist(t[j]) + 1;
    }
    assert Dist(t[Next(Prev(p, n), n)]) <= Dist(t[Prev(p, n)]) + 1;
    assert Dist(t[Next(p, n)]) <= Dist(t[p]) + 1;
  }

  /** The table after the entry right of hole `p` was moved into it. */
  function Shifted<K, V>(t: seq<Bucket<K, V>>, p: nat): seq<Bucket<K, V>>
    requires p < |t| && t[Next(p, |t|)].Full? && t[Next(p, |t|)].dist > 0
  {
    var b := t[Next(p, |t|)];
    t[p := b.(dist := b.dist - 1)][Next(p, |t|) := Empty]
  }

  lemma {:induction false} ShiftKeepsHole<K, V>(t: seq<Bucket<K, V>>, h: K -> nat, p: nat)
    requires HoleAt(t, h, p) && Dist(t[Next(p, |t|)]) > 0
    ensures HoleAt(Shifted(t, p), h, Next(p, |t|))
  {
    var n := |t|;
    var q := Next(p, n);
    var t' := Shifted(t, p);
    assert FitsAt(t[q], h, q, n);
    WalkBack(Home(h, t[q].key, n) + t[q].dist - 1, p, n);
    forall j | 0 <= j < n ensures FitsAt(t'[j], h, j, n) { assert FitsAt(t[j], h, j, n); }
    forall j | 0 <= j < n && j != q ensures Dist(t'[Next(j, n)]) <= Dist(t'[j]) + 1 {
      if j != p { assert Dist(t[Next(j, n)]) <= Dist(t[j]) + 1; }
      if Next(j, n) == p { assert j == Prev(p, n); }
    }
    assert Prev(q, n) == p;
    assert Dist(t[Next(q, n)]) <= Dist(t[q]) + 1;
  }

  lemma {:induction false} ShiftReflects<K, V>(t: seq<Bucket<K, V>>, p: nat, m: map<K, V>)
    requires p < |t| && t[p].Empty? && Dist(t[Next(p, |t|)]) > 0 && Reflects(t, m)
    ensures Reflects(Shifted(t, p), m)
    ensures Count(Shifted(t, p)) == Count(t)
  {
    var q := Next(p, |t|);
    var b := t[q].(dist := t[q].dist - 1);
    var t1 := t[p := b];
    CountUpdate(t, p, b);
    CountUpdate(t1, q, Empty);
    forall k | k in m ensures Has(Shifted(t, p), k) {
      var j :| 0 <= j < |t| && Holds(t[j], k);
      if j == q { assert Holds(Shifted(t, p)[p], k); } else { assert Holds(Shifted(t, p)[j], k); }
    }
  }

  /** The shifting may stop at an entry in its ideal bucket, or at an empty bucket. */
  lemma {:induction false} HoleCloses<K, V>(t: seq<Bucket<K, V>>, h: K -> nat, p: nat)
    requires HoleAt(t, h, p) && Dist(t[Next(p, |t|)]) <= 0
    ensures TableOk(t, h)
  {
  }

  /** Clearing the bucket of a key removes that key and no other. */
  lemma {:induction false} ClearReflects<K, V>(t: seq<Bucket<K, V>>, p: nat, m: map<K, V>)
    requires p < |t| && t[p].Full? && Distinct(t) && Reflects(t, m)
    ensures Reflects(t[p := Empty], m - {t[p].key})
    ensures Count(t[p := Empty]) == Count(t) - 1
  {
    var t': seq<Bucket<K, V>> := t[p := Empty];
    CountUpdate(t, p, Empty);
    TakenOut(t, p, Empty);
    forall i | 0 <= i < |t| && t'[i].Full? ensures t'[i].key != t[p].key {
      assert !Holds(t'[i], t[p].key);
    }
    forall k | k in m && k != t[p].key ensures Has(t', k) { HasUpdate(t, p, Empty, k); }
  }

  // ---------------------------------------------------------------- reading a table bucket by bucket

  /** The map stored in the first `k` buckets. */
  ghost function StoredIn<K, V>(t: seq<Bucket<K, V>>, k: nat): map<K, V>
    requires k <= |t|
  {
    if k == 0 then map[]
    else
      var m := StoredIn(t, k - 1);
      if t[k - 1].Full? then m[t[k - 1].key := t[k - 1].value] else m
  }

  lemma {:induction false} StoredKeys<K, V>(t: seq<Bucket<K, V>>, k: nat, key: K)
    requires k <= |t|
    ensures key in StoredIn(t, k) <==> exists i | 0 <= i < k :: Holds(t[i], key)
  {
    if k > 0 {
      StoredKeys(t, k - 1, key);
      if Holds(t[k - 1], key) { assert Holds(t[k - 1], key); }
    }
  }

  lemma {:induction false} StoredReflects<K, V>(t: seq<Bucket<K, V>>, k: nat, m: map<K, V>)
    requires k <= |t| && Reflects(t, m)
    ensures forall key | key in StoredIn(t, k) :: key in m && m[key] == StoredIn(t, k)[key]
  {
    if k > 0 { StoredReflects(t, k - 1, m); }
  }

  lemma {:induction false} StoredInAll<K, V>(t: seq<Bucket<K, V>>, m: map<K, V>)
    requires Reflects(t, m)
    ensures StoredIn(t, |t|) == m
  {
    StoredReflects(t, |t|, m);
    forall key | key in m ensures key in StoredIn(t, |t|) {
      assert Has(t, key);
      StoredKeys(t, |t|, key);
    }
  }

  lemma {:induction false} CountPrefix<K, V>(t: seq<Bucket<K, V>>, k: nat)
    requires k < |t|
    ensures Count(t[..k + 1]) == Count(t[..k]) + (if t[k].Full? then 1 else 0)
    ensures Count(t[..k + 1]) <= Count(t)
  {
    if k == 0 {
      assert t[..1] == [t[0]] && t[..1][1..] == [];
    } else {
      CountPrefix(t[1..], k - 1);
      assert t[..k + 1][1..] == t[1..][..k] && t[..k][1..] == t[1..][..k - 1];
    }
  }

  /** Where the probe of an absent key stopped, its entry can be carried on. */
  lemma {:induction false} ProbeCarries<K, V>(t: seq<Bucket<K, V>>, h: K -> nat, c: Bucket<K, V>, i: nat, m: map<K, V>)
    requires TableOk(t, h) && Reflects(t, m) && c.Full? && c.key !in m
    requires c.hash == Truncate32(h(c.key)) && ProbeStands(t, h, c.key, i, c.dist)
    ensures Carries(t, h, i, c) && ReflectsWith(t, c, m[c.key := c.value])
  {
    assert !Has(t, c.key);
  }

  /** A key not yet met can be carried from its home into a table holding only the earlier ones. */
  lemma {:induction false} FreshCarries<K, V>(t: seq<Bucket<K, V>>, h: K -> nat, c: Bucket<K, V>, m: map<K, V>)
    requires TableOk(t, h) && Reflects(t, m) && c.Full? && c.dist == 0 && c.key !in m
    requires c.hash == Truncate32(h(c.key))
    ensures Carries(t, h, Home(h, c.key, |t|), c)
    ensures ReflectsWith(t, c, m[c.key := c.value])
  {
    assert Idx(Home(h, c.key, |t|), |t|) == Home(h, c.key, |t|);
    assert !Has(t, c.key);
  }

  lemma {:induction false} BlankTable<K, V>(t: seq<Bucket<K, V>>, h: K -> nat)
    requires forall i | 0 <= i < |t| :: t[i] == Empty
    ensures |t| > 0 ==> TableOk(t, h)
    ensures Reflects(t, map[]) && Count(t) == 0
  {
    if t != [] { BlankTable(t[1..], h); }
  }
}
