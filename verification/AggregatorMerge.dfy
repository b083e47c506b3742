/**
 The merge of src/agg/aggregate.cpp: vectors of points, each in order of time, are merged into one point
 per time, whose value is aggregated from the points at that time.  The loop copies the next point of a source over
 the one it has consumed.  A source may repeat a time; then the result repeats it too, and its entries at that time
 are aggregated from the first points of the sources at it, from the second ones, and so on.
 */
module AggregatorMerge {
  import opened Stats

  datatype Point = Point(t: nat, v: real)

  /** TT_INVALID_TIMESTAMP: the largest 64-bit number, after every timestamp. */
  const NEVER: nat := 0xFFFF_FFFF_FFFF_FFFF

  predicate Sorted(s: seq<Point>) {
    (forall j | 0 <= j < |s| :: s[j].t < NEVER) && (forall j, k | 0 <= j < k < |s| :: s[j].t <= s[k].t)
  }

  // ---------------------------------------------------------------- repeated times

  /** How often the time of point `j` comes right before it. */
  function Rank(s: seq<Point>, j: nat): (r: nat)
    requires j < |s|
    ensures r <= j
  {
    if j == 0 || s[j - 1].t != s[j].t then 0 else Rank(s, j - 1) + 1
  }

  /** Time first, then rank. */
  predicate Below(t: nat, r: nat, u: nat, q: nat) { t < u || (t == u && r < q) }

  /** Point `j` comes before time `ts` with rank `r`. */
  predicate IsBefore(s: seq<Point>, j: nat, ts: nat, r: nat)
    requires j < |s|
  {
    Below(s[j].t, Rank(s, j), ts, r)
  }

  lemma {:induction false} RankFront(s: seq<Point>, k: nat, j: nat)
    requires j < k <= |s|
    ensures Rank(s[..k], j) == Rank(s, j)
    decreases j
  {
    if j > 0 { RankFront(s, k, j - 1); }
  }

  /** In a sorted source, later points are of later times or of higher ranks. */
  lemma {:induction false} RanksRise(s: seq<Point>, j: nat, k: nat)
    requires Sorted(s) && j < k < |s|
    ensures Below(s[j].t, Rank(s, j), s[k].t, Rank(s, k))
    decreases k
  {
    if s[j].t == s[k].t {
      assert s[j].t <= s[k - 1].t <= s[k].t;
      if j < k - 1 { RanksRise(s, j, k - 1); }
    }
  }

  // ---------------------------------------------------------------- what the result should be

  /** The value of a source at time `t` with rank `r`, if it has one. */
  function At(s: seq<Point>, t: nat, r: nat): seq<real> {
    if s == [] then []
    else
      var k := |s| - 1;
      if s[k].t == t && Rank(s, k) == r then [s[k].v] else At(s[..k], t, r)
  }

  /** The values at time `t` with rank `r` of the first `n` sources, in their order. */
  function ValuesAt(src: seq<seq<Point>>, n: nat, t: nat, r: nat): seq<real>
    requires n <= |src|
  {
    if n == 0 then [] else ValuesAt(src, n - 1, t, r) + At(src[n - 1], t, r)
  }

  predicate Occurs(src: seq<seq<Point>>, t: nat, r: nat) {
    exists i, j | 0 <= i < |src| && 0 <= j < |src[i]| :: src[i][j].t == t && Rank(src[i], j) == r
  }

  /** How often the time of entry `k` comes right before it. */
  function EntryRank(dst: seq<Item>, k: nat): nat
    requires k < |dst|
  {
    if k == 0 || dst[k - 1].t != dst[k].t then 0 else EntryRank(dst, k - 1) + 1
  }

  /**
   `dst` is the merge of the sources, as far as times and ranks below `ts` and `r` go: its times and ranks rise, they
   are exactly those of the sources, and every entry is about exactly the points at its time and rank.
   */
  ghost predicate Merged(src: seq<seq<Point>>, ts: nat, r: nat, dst: seq<Item>) {
    && (forall k, m | 0 <= k < m < |dst| :: Below(dst[k].t, EntryRank(dst, k), dst[m].t, EntryRank(dst, m)))
    && (forall k | 0 <= k < |dst| :: Below(dst[k].t, EntryRank(dst, k), ts, r) && Exact(src, dst, k))
    && (forall i, j | 0 <= i < |src| && 0 <= j < |src[i]| && IsBefore(src[i], j, ts, r) ::
          Has(dst, src[i][j].t, Rank(src[i], j)))
  }

  ghost predicate Exact(src: seq<seq<Point>>, dst: seq<Item>, k: nat)
    requires k < |dst|
  {
    var t, r := dst[k].t, EntryRank(dst, k);
    Occurs(src, t, r) && dst[k].s == StatsOf(ValuesAt(src, |src|, t, r))
  }

  predicate Has(dst: seq<Item>, t: nat, r: nat) {
    exists k | 0 <= k < |dst| :: dst[k].t == t && EntryRank(dst, k) == r
  }

  // ---------------------------------------------------------------- what remains of the sources

  /** The time of the next point. */
  function HeadTime(s: seq<Point>): nat { if s == [] then NEVER else s[0].t }

  function Least(a: nat, b: nat): nat { if a > b then b else a }

  /** The points before `k` come before `ts` and `r`, and the others do not. */
  ghost predicate CutAt(s: seq<Point>, k: nat, ts: nat, r: nat) {
    && k <= |s|
    && (forall j | 0 <= j < k :: IsBefore(s, j, ts, r))
    && (forall j | k <= j < |s| :: !IsBefore(s, j, ts, r))
  }

  ghost predicate Cut(src: seq<seq<Point>>, idx: seq<nat>, ts: nat, r: nat) {
    |idx| == |src| && forall i | 0 <= i < |src| :: CutAt(src[i], idx[i], ts, r)
  }

  /** The next point, if it is at `ts`, is the one with rank `r`. */
  lemma {:induction false} HeadRank(s: seq<Point>, k: nat, ts: nat, r: nat)
    requires CutAt(s, k, ts, r) && k < |s| && s[k].t == ts
    ensures Rank(s, k) == r
  {
    assert !IsBefore(s, k, ts, r);
    if k > 0 { assert IsBefore(s, k - 1, ts, r); }
  }

  lemma {:induction false} AtPoint(s: seq<Point>, k: nat)
    requires Sorted(s) && k < |s|
    ensures At(s, s[k].t, Rank(s, k)) == [s[k].v]
    decreases |s|
  {
    var m := |s| - 1;
    if k < m {
      RanksRise(s, k, m);
      RankFront(s, m, k);
      AtPoint(s[..m], k);
    }
  }

  lemma {:induction false} AtNone(s: seq<Point>, t: nat, r: nat)
    requires forall j | 0 <= j < |s| :: s[j].t == t ==> Rank(s, j) != r
    ensures At(s, t, r) == []
  {
    if s != [] {
      var m := |s| - 1;
      forall j | 0 <= j < m ensures s[..m][j].t == t ==> Rank(s[..m], j) != r { RankFront(s, m, j); }
      AtNone(s[..m], t, r);
    }
  }

  /** What a source contributes at the current time is decided by its next point. */
  lemma {:induction false} AtHead(s: seq<Point>, k: nat, ts: nat, r: nat)
    requires Sorted(s) && CutAt(s, k, ts, r)
    ensures At(s, ts, r) == if k < |s| && s[k].t == ts then [s[k].v] else []
  {
    hide At;
    if k < |s| && s[k].t == ts {
      HeadRank(s, k, ts, r);
      AtPoint(s, k);
    } else {
      forall j | 0 <= j < |s| ensures s[j].t == ts ==> Rank(s, j) != r {
        if j < k { assert IsBefore(s, j, ts, r); } else { Later(s, k, ts, r, j); }
      }
      AtNone(s, ts, r);
    }
  }

  lemma {:induction false} Later(s: seq<Point>, k: nat, ts: nat, r: nat, j: nat)
    requires Sorted(s) && CutAt(s, k, ts, r) && k <= j < |s|
    ensures ts <= s[k].t <= s[j].t
  {
    assert !IsBefore(s, k, ts, r);
  }

  // ---------------------------------------------------------------- one round

  /** One source in one round: its point at `ts` is taken, and the next one is copied over it. */
  method Visit(v: array<Point>, k: nat, ts: nat, next: nat, acc: Stats) returns (k': nat, next': nat, acc': Stats)
    requires k <= v.Length && next <= NEVER
    modifies v
    ensures k' <= v.Length && v[k'..] == old(v[k'..])
    ensures if k < v.Length && old(v[k].t) == ts then k' == k + 1 && acc' == Added(acc, old(v[k].v))
            else k' == k && acc' == acc
    ensures next' == Least(next, HeadTime(old(v[k'..]))) <= next
  {
    k', next', acc' := k, next, acc;
    if v.Length <= k { return; }
    if v[k].t == ts {
      acc' := Added(acc, v[k].v);
      k' := k + 1;
      if k' < v.Length {
        v[k] := v[k'];
        if next > v[k].t { next' := v[k].t; }
      }
    } else if next > v[k].t {
      next' := v[k].t;
    }
  }

  /** After a round, of one source: what was at `ts` and `r` is taken, and `next` is not after what remains. */
  ghost predicate Passed(s: seq<Point>, k: nat, ts: nat, r: nat, next: nat) {
    CutAt(s, k, ts, r + 1) && forall j | k <= j < |s| :: ts <= s[j].t && next <= s[j].t
  }

  lemma {:induction false} PassedLower(s: seq<Point>, k: nat, ts: nat, r: nat, next: nat, lower: nat)
    requires Passed(s, k, ts, r, next) && lower <= next
    ensures Passed(s, k, ts, r, lower)
  {
    hide CutAt;
  }

  /** `next` is the time of some remaining point of the first `n` sources, or there is none. */
  ghost predicate IsHead(src: seq<seq<Point>>, idx: seq<nat>, n: nat, next: nat)
    requires n <= |src| == |idx|
  {
    next == NEVER || exists i | 0 <= i < n :: idx[i] < |src[i]| && src[i][idx[i]].t == next
  }

  /** The arrays still hold the unconsumed points of the sources. */
  ghost predicate Unconsumed(src: seq<array<Point>>, s: seq<seq<Point>>, idx: seq<nat>)
    reads src
  {
    && |src| == |s| == |idx|
    && (forall i | 0 <= i < |src| ::
          src[i].Length == |s[i]| && idx[i] <= |s[i]| && src[i][idx[i]..] == s[i][idx[i]..])
  }

  ghost predicate Distinct(src: seq<array<Point>>) {
    forall i, j | 0 <= i < j < |src| :: src[i] != src[j]
  }

  lemma {:induction false} ValuesNext(s: seq<seq<Point>>, n: nat, ts: nat, r: nat, k: nat, acc: Stats)
    requires n < |s| && Sorted(s[n]) && CutAt(s[n], k, ts, r) && acc == StatsOf(ValuesAt(s, n, ts, r))
    ensures StatsOf(ValuesAt(s, n + 1, ts, r)) ==
            if k < |s[n]| && s[n][k].t == ts then Added(acc, s[n][k].v) else acc
  {
    hide StatsOf, At, Sorted;
    AtHead(s[n], k, ts, r);
    var vs := ValuesAt(s, n, ts, r);
    if k < |s[n]| && s[n][k].t == ts {
      StatsSnoc(vs, s[n][k].v);
    } else {
      assert vs + [] == vs;
    }
  }

  /** One source, among the others. */
  method VisitSource(src: seq<array<Point>>, idx: seq<nat>, i: nat, ts: nat, next: nat, acc: Stats,
                     ghost s: seq<seq<Point>>)
    returns (k': nat, next': nat, acc': Stats)
    requires Distinct(src) && Unconsumed(src, s, idx) && i < |src| && next <= NEVER
    modifies src[i]
    ensures k' <= |s[i]| && Unconsumed(src, s, idx[i := k'])
    ensures if idx[i] < |s[i]| && s[i][idx[i]].t == ts then k' == idx[i] + 1 && acc' == Added(acc, s[i][idx[i]].v)
            else k' == idx[i] && acc' == acc
    ensures next' == Least(next, HeadTime(s[i][k'..])) <= next
  {
    hide Least, HeadTime, Added;
    ghost var w := src[i][..];
    SlicesAgree(w, s[i], idx[i]);
    k', next', acc' := Visit(src[i], idx[i], ts, next, acc);
  }

  lemma {:induction false} SlicesAgree(w: seq<Point>, s: seq<Point>, k: nat)
    requires |w| == |s| && k <= |s| && w[k..] == s[k..]
    ensures k < |s| ==> w[k] == s[k] && w[k + 1..] == s[k + 1..]
  {
    if k < |s| {
      assert w[k..][0] == s[k..][0];
      assert w[k..][1..] == s[k..][1..];
      assert w[k..][1..] == w[k + 1..] && s[k..][1..] == s[k + 1..];
    }
  }

  /** One round over all sources; `r` is the number of rounds at the same time before it. */
  method Round(src: seq<array<Point>>, idx: seq<nat>, ts: nat, ghost r: nat, ghost s: seq<seq<Point>>)
    returns (idx': seq<nat>, next: nat, acc: Stats)
    requires Distinct(src) && Unconsumed(src, s, idx) && Cut(s, idx, ts, r)
    requires forall i | 0 <= i < |s| :: Sorted(s[i])
    modifies set i | 0 <= i < |src| :: src[i]
    ensures Unconsumed(src, s, idx') && next <= NEVER
    ensures forall i | 0 <= i < |s| :: Passed(s[i], idx'[i], ts, r, next)
    ensures IsHead(s, idx', |s|, next)
    ensures acc == StatsOf(ValuesAt(s, |s|, ts, r))
  {
    hide StatsOf, ValuesAt, Sorted, Passed, IsHead, HeadTime, Least, CutAt;
    idx', next, acc := idx, NEVER, Empty;
    NothingYet(s, ts, r);
    NoHeadYet(s, idx);
    var i := 0;
    while i < |src|
      invariant 0 <= i <= |src| && Unconsumed(src, s, idx') && next <= NEVER
      invariant forall j | i <= j < |src| :: idx'[j] == idx[j]
      invariant forall j | 0 <= j < i :: Passed(s[j], idx'[j], ts, r, next)
      invariant IsHead(s, idx', i, next)
      invariant acc == StatsOf(ValuesAt(s, i, ts, r))
    {
      ghost var k, before := idx'[i], next;
      assert CutAt(s[i], idx[i], ts, r);
      ValuesNext(s, i, ts, r, k, acc);
      var k';
      k', next, acc := VisitSource(src, idx', i, ts, next, acc, s);
      VisitPasses(s[i], k, k', ts, r, before, next);
      HeadStep(s, idx', i, k', before, next);
      idx' := idx'[i := k'];
      forall j | 0 <= j < i ensures Passed(s[j], idx'[j], ts, r, next) {
        PassedLower(s[j], idx'[j], ts, r, before, next);
      }
      i := i + 1;
    }
  }

  lemma {:induction false} NothingYet(s: seq<seq<Point>>, ts: nat, r: nat)
    ensures StatsOf(ValuesAt(s, 0, ts, r)) == Empty
  {
  }

  lemma {:induction false} NoHeadYet(s: seq<seq<Point>>, idx: seq<nat>)
    requires |s| == |idx|
    ensures IsHead(s, idx, 0, NEVER)
  {
  }

  lemma {:induction false} HeadStep(s: seq<seq<Point>>, idx: seq<nat>, i: nat, k: nat, before: nat, next: nat)
    requires i < |s| == |idx| && k <= |s[i]| && IsHead(s, idx, i, before) && before <= NEVER
    requires next == Least(before, HeadTime(s[i][k..]))
    ensures IsHead(s, idx[i := k], i + 1, next)
  {
    var idx' := idx[i := k];
    if next == before && next != NEVER {
      var j :| 0 <= j < i && idx[j] < |s[j]| && s[j][idx[j]].t == next;
      assert idx'[j] == idx[j];
    } else if next != before {
      assert s[i][k..][0] == s[i][k] && idx'[i] == k;
    }
  }

  lemma {:induction false} VisitCuts(s: seq<Point>, k: nat, k': nat, ts: nat, r: nat)
    requires Sorted(s) && CutAt(s, k, ts, r)
    requires k' == if k < |s| && s[k].t == ts then k + 1 else k
    ensures CutAt(s, k', ts, r + 1)
  {
    hide Rank;
    var q := r + 1;
    if k' == k + 1 { HeadRank(s, k, ts, r); }
    forall j | 0 <= j < k' ensures IsBefore(s, j, ts, q) {
      if j < k { assert IsBefore(s, j, ts, r); }
    }
    forall j | k' <= j < |s| ensures !IsBefore(s, j, ts, q) {
      Later(s, k, ts, r, j);
      if k < j { RanksRise(s, k, j); }
    }
  }

  lemma {:induction false} VisitPasses(s: seq<Point>, k: nat, k': nat, ts: nat, r: nat, before: nat, next: nat)
    requires Sorted(s) && CutAt(s, k, ts, r)
    requires k' == if k < |s| && s[k].t == ts then k + 1 else k
    requires next == Least(before, HeadTime(s[k'..]))
    ensures Passed(s, k', ts, r, next)
  {
    VisitCuts(s, k, k', ts, r);
    forall j | k' <= j < |s| ensures ts <= s[j].t && next <= s[j].t {
      Later(s, k, ts, r, j);
      assert s[k'..][0] == s[k'];
    }
  }

  // ---------------------------------------------------------------- the merge

  lemma {:induction false} CountIsLength(vs: seq<real>)
    ensures StatsOf(vs).cnt == |vs|
  {
    if vs != [] { CountIsLength(vs[..|vs| - 1]); }
  }

  lemma {:induction false} SomeValue(s: seq<seq<Point>>, n: nat, i: nat, k: nat)
    requires i < n <= |s| && k < |s[i]| && Sorted(s[i])
    ensures ValuesAt(s, n, s[i][k].t, Rank(s[i], k)) != []
    decreases n
  {
    hide Sorted, Rank, At;
    if i < n - 1 { SomeValue(s, n - 1, i, k); } else { AtPoint(s[i], k); }
  }

  /** The round after this one: at a later time, or at the same time again. */
  function NextRank(ts: nat, r: nat, next: nat): nat { if next == ts then r + 1 else 0 }

  /** A round makes the entry of its time and rank, and the next time is the least that remains. */
  lemma {:induction false} RoundMerges(s: seq<seq<Point>>, idx: seq<nat>, idx': seq<nat>, ts: nat, r: nat, next: nat,
                                       dst: seq<Item>, acc: Stats)
    requires Merged(s, ts, r, dst) && Cut(s, idx, ts, r) && ts < NEVER && IsHead(s, idx, |s|, ts)
    requires |idx'| == |s| && next <= NEVER && (forall i | 0 <= i < |s| :: Sorted(s[i]))
    requires forall i | 0 <= i < |s| :: Passed(s[i], idx'[i], ts, r, next)
    requires IsHead(s, idx', |s|, next) && acc == StatsOf(ValuesAt(s, |s|, ts, r))
    requires r > 0 ==> dst != [] && dst[|dst| - 1].t == ts && EntryRank(dst, |dst| - 1) == r - 1
    ensures acc.cnt > 0 && ts <= next && Cut(s, idx', next, NextRank(ts, r, next)) && r < Total(s)
    ensures var dst' := dst + [Item(ts, acc)];
            Merged(s, next, NextRank(ts, r, next), dst') && EntryRank(dst', |dst|) == r
  {
    hide StatsOf, ValuesAt, Sorted, Passed, CutAt, Merged, EntryRank, Rank;
    var i :| 0 <= i < |s| && idx[i] < |s[i]| && s[i][idx[i]].t == ts;
    assert CutAt(s[i], idx[i], ts, r);
    HeadRank(s[i], idx[i], ts, r);
    AtMostTotal(s, i);
    SomeValue(s, |s|, i, idx[i]);
    CountIsLength(ValuesAt(s, |s|, ts, r));
    NotEarlier(s, idx', ts, r, next);
    RoundCuts(s, idx', ts, r, next);
    NewRank(s, dst, ts, r, acc);
    assert Occurs(s, ts, r);
    RoundExtends(s, idx', ts, r, next, dst, acc);
  }

  function Total(s: seq<seq<Point>>): nat { if s == [] then 0 else Total(s[..|s| - 1]) + |s[|s| - 1]| }

  lemma {:induction false} AtMostTotal(s: seq<seq<Point>>, i: nat)
    requires i < |s|
    ensures |s[i]| <= Total(s)
  {
    if i < |s| - 1 { AtMostTotal(s[..|s| - 1], i); }
  }

  lemma {:induction false} NotEarlier(s: seq<seq<Point>>, idx: seq<nat>, ts: nat, r: nat, next: nat)
    requires |idx| == |s| && ts < NEVER && (forall i | 0 <= i < |s| :: Passed(s[i], idx[i], ts, r, next))
    requires IsHead(s, idx, |s|, next)
    ensures ts <= next
  {
    hide CutAt;
    if next != NEVER {
      var i :| 0 <= i < |s| && idx[i] < |s[i]| && s[i][idx[i]].t == next;
      assert Passed(s[i], idx[i], ts, r, next);
    }
  }

  lemma {:induction false} RoundCuts(s: seq<seq<Point>>, idx: seq<nat>, ts: nat, r: nat, next: nat)
    requires |idx| == |s| && ts <= next && (forall i | 0 <= i < |s| :: Passed(s[i], idx[i], ts, r, next))
    ensures Cut(s, idx, next, NextRank(ts, r, next))
  {
    hide Rank;
    forall i | 0 <= i < |s| ensures CutAt(s[i], idx[i], next, NextRank(ts, r, next)) {
      assert Passed(s[i], idx[i], ts, r, next);
      forall j | 0 <= j < idx[i] ensures IsBefore(s[i], j, next, NextRank(ts, r, next)) {
        assert IsBefore(s[i], j, ts, r + 1);
      }
      forall j | idx[i] <= j < |s[i]| ensures !IsBefore(s[i], j, next, NextRank(ts, r, next)) {
        assert !IsBefore(s[i], j, ts, r + 1);
      }
    }
  }

  lemma {:induction false} EntryRankFront(dst: seq<Item>, x: Item, k: nat)
    requires k < |dst|
    ensures EntryRank(dst + [x], k) == EntryRank(dst, k)
    decreases k
  {
    if k > 0 { EntryRankFront(dst, x, k - 1); }
  }

  lemma {:induction false} NewRank(s: seq<seq<Point>>, dst: seq<Item>, ts: nat, r: nat, acc: Stats)
    requires Merged(s, ts, r, dst)
    requires r > 0 ==> dst != [] && dst[|dst| - 1].t == ts && EntryRank(dst, |dst| - 1) == r - 1
    ensures EntryRank(dst + [Item(ts, acc)], |dst|) == r
  {
    hide Exact;
    var m := |dst| - 1;
    if dst != [] {
      assert Below(dst[m].t, EntryRank(dst, m), ts, r);
      EntryRankFront(dst, Item(ts, acc), m);
    }
  }

  lemma {:induction false} RoundExtends(s: seq<seq<Point>>, idx: seq<nat>, ts: nat, r: nat, next: nat,
                                        dst: seq<Item>, acc: Stats)
    requires Merged(s, ts, r, dst) && |idx| == |s| && ts <= next && Occurs(s, ts, r)
    requires acc == StatsOf(ValuesAt(s, |s|, ts, r)) && EntryRank(dst + [Item(ts, acc)], |dst|) == r
    requires forall i | 0 <= i < |s| :: Passed(s[i], idx[i], ts, r, next)
    ensures Merged(s, next, NextRank(ts, r, next), dst + [Item(ts, acc)])
  {
    hide StatsOf, ValuesAt, Occurs, EntryRank, Rank;
    var x, q := Item(ts, acc), NextRank(ts, r, next);
    var dst' := dst + [x];
    forall k | 0 <= k < |dst| ensures EntryRank(dst', k) == EntryRank(dst, k) { EntryRankFront(dst, x, k); }
    forall k | 0 <= k < |dst'| ensures Below(dst'[k].t, EntryRank(dst', k), next, q) && Exact(s, dst', k) {
      if k < |dst| { assert Below(dst[k].t, EntryRank(dst, k), ts, r) && Exact(s, dst, k); }
    }
    forall k, m | 0 <= k < m < |dst'| ensures Below(dst'[k].t, EntryRank(dst', k), dst'[m].t, EntryRank(dst', m)) {
      if m < |dst| { assert Below(dst[k].t, EntryRank(dst, k), dst[m].t, EntryRank(dst, m)); }
      else { assert Below(dst[k].t, EntryRank(dst, k), ts, r); }
    }
    forall i, j | 0 <= i < |s| && 0 <= j < |s[i]| && IsBefore(s[i], j, next, q)
      ensures Has(dst', s[i][j].t, Rank(s[i], j))
    {
      assert Passed(s[i], idx[i], ts, r, next);
      TakenOrNow(s[i], idx[i], ts, r, next, j);
      if IsBefore(s[i], j, ts, r) {
        assert Has(dst, s[i][j].t, Rank(s[i], j));
        var k :| 0 <= k < |dst| && dst[k].t == s[i][j].t && EntryRank(dst, k) == Rank(s[i], j);
        assert dst'[k] == dst[k];
      } else {
        assert dst'[|dst|] == x;
      }
    }
  }

  /** What comes before the next round was taken before this one, or in it. */
  lemma {:induction false} TakenOrNow(s: seq<Point>, k: nat, ts: nat, r: nat, next: nat, j: nat)
    requires Passed(s, k, ts, r, next) && ts <= next && j < |s| && IsBefore(s, j, next, NextRank(ts, r, next))
    ensures IsBefore(s, j, ts, r) || (s[j].t == ts && Rank(s, j) == r)
  {
    hide Rank;
    assert IsBefore(s, j, ts, r + 1) <==> j < k;
  }

  /** The earliest first point. */
  method FirstTime(src: seq<array<Point>>, ghost s: seq<seq<Point>>, ghost idx: seq<nat>) returns (ts: nat)
    requires |s| == |src| == |idx| && (forall i | 0 <= i < |s| :: idx[i] == 0 && src[i][..] == s[i] && Sorted(s[i]))
    ensures ts <= NEVER && IsHead(s, idx, |s|, ts) && Cut(s, idx, ts, 0)
  {
    ts := NEVER;
    var i := 0;
    while i < |src|
      invariant 0 <= i <= |src| && ts <= NEVER && IsHead(s, idx, i, ts)
      invariant forall k | 0 <= k < i :: |s[k]| > 0 ==> ts <= s[k][0].t
    {
      assert |s[i]| == src[i].Length;
      if src[i].Length > 0 && ts > src[i][0].t {
        assert src[i][0] == s[i][0] && idx[i] == 0;
        ts := src[i][0].t;
      }
      i := i + 1;
    }
    FirstCut(s, idx, ts);
  }

  lemma {:induction false} FirstCut(s: seq<seq<Point>>, idx: seq<nat>, ts: nat)
    requires |s| == |idx| && (forall i | 0 <= i < |s| :: idx[i] == 0 && Sorted(s[i]))
    requires forall k | 0 <= k < |s| :: |s[k]| > 0 ==> ts <= s[k][0].t
    ensures Cut(s, idx, ts, 0)
  {
    hide Rank;
    forall i, j | 0 <= i < |s| && 0 <= j < |s[i]| ensures !IsBefore(s[i], j, ts, 0) {
      assert Sorted(s[i]);
      assert j == 0 || s[i][0].t <= s[i][j].t;
    }
  }

  ghost function Contents(src: seq<array<Point>>): (s: seq<seq<Point>>)
    reads src
    ensures |s| == |src| && forall i | 0 <= i < |src| :: s[i] == src[i][..]
  {
    if src == [] then [] else [src[0][..]] + Contents(src[1..])
  }

  /** `merge`: exactly one entry for every time and rank that occurs, aggregated from exactly the points at it. */
  method Merge(src: seq<array<Point>>) returns (dst: seq<Item>)
    requires Distinct(src) && forall i | 0 <= i < |src| :: Sorted(src[i][..])
    modifies set i | 0 <= i < |src| :: src[i]
    ensures Merged(old(Contents(src)), NEVER, 0, dst)
    ensures IncreasingTimes(dst) <==> forall i | 0 <= i < |src| :: Increasing(old(src[i][..]))
  {
    hide StatsOf, ValuesAt, Passed, IsHead, Cut, Merged, Contents, Sorted, EntryRank, Total;
    hide Increasing, IncreasingTimes;
    ghost var s := Contents(src);
    var idx := seq(|src|, i => 0);
    dst := [];
    var ts := FirstTime(src, s, idx);
    ghost var r: nat := 0;
    MergedNone(s, idx, ts);
    while ts != NEVER
      invariant Unconsumed(src, s, idx) && ts <= NEVER && (ts == NEVER ==> r == 0) && r <= Total(s)
      invariant Cut(s, idx, ts, r) && IsHead(s, idx, |s|, ts) && Merged(s, ts, r, dst)
      invariant r > 0 ==> dst != [] && dst[|dst| - 1].t == ts && EntryRank(dst, |dst| - 1) == r - 1
      decreases NEVER - ts, Total(s) - r
    {
      var idx', next, acc := Round(src, idx, ts, r, s);
      RoundMerges(s, idx, idx', ts, r, next, dst, acc);
      if acc.cnt == 0 { break; }
      dst := dst + [Item(ts, acc)];
      r := NextRank(ts, r, next);
      idx, ts := idx', next;
    }
    StrictIffSourcesStrict(s, dst);
  }

  lemma {:induction false} MergedNone(s: seq<seq<Point>>, idx: seq<nat>, ts: nat)
    requires Cut(s, idx, ts, 0) && forall i | 0 <= i < |s| :: idx[i] == 0
    ensures Merged(s, ts, 0, [])
  {
    hide Rank;
    forall i, j | 0 <= i < |s| && 0 <= j < |s[i]| ensures !IsBefore(s[i], j, ts, 0) {
      assert CutAt(s[i], idx[i], ts, 0);
    }
  }

  // ---------------------------------------------------------------- when the times strictly increase

  predicate Increasing(s: seq<Point>) { forall j, k | 0 <= j < k < |s| :: s[j].t < s[k].t }

  predicate IncreasingTimes(dst: seq<Item>) { forall k, m | 0 <= k < m < |dst| :: dst[k].t < dst[m].t }

  lemma {:induction false} NoRank(s: seq<Point>, j: nat)
    requires Increasing(s) && j < |s|
    ensures Rank(s, j) == 0
  {
    assert j == 0 || s[j - 1].t < s[j].t;
  }

  predicate Unranked(s: seq<Point>) { forall j | 0 <= j < |s| :: Rank(s, j) == 0 }

  lemma {:induction false} UnrankedIncreases(s: seq<Point>)
    requires Sorted(s) && Unranked(s)
    ensures Increasing(s)
  {
    hide Rank;
    forall j, k | 0 <= j < k < |s| ensures s[j].t < s[k].t {
      RanksRise(s, j, k);
      assert Rank(s, j) == 0 && Rank(s, k) == 0;
    }
  }

  /** Without repeated times in the result there are no ranks. */
  lemma {:induction false} NoEntryRank(dst: seq<Item>, k: nat)
    requires IncreasingTimes(dst) && k < |dst|
    ensures EntryRank(dst, k) == 0
  {
    assert k == 0 || dst[k - 1].t < dst[k].t;
  }

  lemma {:induction false} StrictSource(s: seq<seq<Point>>, dst: seq<Item>, i: nat)
    requires Merged(s, NEVER, 0, dst) && i < |s| && Sorted(s[i]) && IncreasingTimes(dst)
    ensures Increasing(s[i])
  {
    hide StatsOf, ValuesAt, Rank, EntryRank, Increasing, IncreasingTimes;
    forall j | 0 <= j < |s[i]| ensures Rank(s[i], j) == 0 {
      assert IsBefore(s[i], j, NEVER, 0);
      assert Has(dst, s[i][j].t, Rank(s[i], j));
      var k :| 0 <= k < |dst| && dst[k].t == s[i][j].t && EntryRank(dst, k) == Rank(s[i], j);
      NoEntryRank(dst, k);
    }
    UnrankedIncreases(s[i]);
  }

  lemma {:induction false} StrictResult(s: seq<seq<Point>>, dst: seq<Item>, k: nat)
    requires Merged(s, NEVER, 0, dst) && k < |dst| && forall i | 0 <= i < |s| :: Sorted(s[i]) && Increasing(s[i])
    ensures EntryRank(dst, k) == 0
  {
    hide StatsOf, ValuesAt, Rank, EntryRank, Increasing;
    assert Exact(s, dst, k);
    var i, j :| 0 <= i < |s| && 0 <= j < |s[i]| && s[i][j].t == dst[k].t && Rank(s[i], j) == EntryRank(dst, k);
    NoRank(s[i], j);
  }

  /** The times of the result strictly increase if and only if those of every source do. */
  lemma {:induction false} StrictIffSourcesStrict(s: seq<seq<Point>>, dst: seq<Item>)
    requires Merged(s, NEVER, 0, dst) && forall i | 0 <= i < |s| :: Sorted(s[i])
    ensures IncreasingTimes(dst) <==> forall i | 0 <= i < |s| :: Increasing(s[i])
  {
    hide Exact, Has, Rank, EntryRank, Increasing, Sorted;
    if IncreasingTimes(dst) {
      forall i | 0 <= i < |s| ensures Increasing(s[i]) { StrictSource(s, dst, i); }
    }
    if forall i | 0 <= i < |s| :: Increasing(s[i]) {
      forall k, m | 0 <= k < m < |dst| ensures dst[k].t < dst[m].t {
        StrictResult(s, dst, k);
        StrictResult(s, dst, m);
        assert Below(dst[k].t, EntryRank(dst, k), dst[m].t, EntryRank(dst, m));
      }
    }
  }

  // ---------------------------------------------------------------- there is only one such result

  lemma {:induction false} HasAfter(d: seq<Item>, e: seq<Item>, k: nat, s: seq<seq<Point>>, ts: nat, r: nat)
    requires Merged(s, ts, r, d) && Merged(s, ts, r, e) && k < |d| && k <= |e|
    requires forall j | 0 <= j < k :: d[j].t == e[j].t && EntryRank(d, j) == EntryRank(e, j)
    ensures k < |e| && !Below(d[k].t, EntryRank(d, k), e[k].t, EntryRank(e, k))
  {
    hide StatsOf, ValuesAt, Rank, EntryRank;
    var t, q := d[k].t, EntryRank(d, k);
    assert Exact(s, d, k) && Below(t, q, ts, r);
    var i, j :| 0 <= i < |s| && 0 <= j < |s[i]| && s[i][j].t == t && Rank(s[i], j) == q;
    assert IsBefore(s[i], j, ts, r);
    assert Has(e, t, q);
    var m :| 0 <= m < |e| && e[m].t == t && EntryRank(e, m) == q;
    assert forall j | 0 <= j < k :: Below(d[j].t, EntryRank(d, j), t, q);
    assert m == k || Below(e[k].t, EntryRank(e, k), e[m].t, EntryRank(e, m));
  }

  lemma {:induction false} SameKeys(d: seq<Item>, e: seq<Item>, k: nat, s: seq<seq<Point>>, ts: nat, r: nat)
    requires Merged(s, ts, r, d) && Merged(s, ts, r, e) && k <= |d| && k <= |e|
    ensures forall j | 0 <= j < k :: d[j].t == e[j].t && EntryRank(d, j) == EntryRank(e, j)
  {
    hide Merged, EntryRank;
    if k > 0 {
      SameKeys(d, e, k - 1, s, ts, r);
      HasAfter(d, e, k - 1, s, ts, r);
      HasAfter(e, d, k - 1, s, ts, r);
    }
  }

  /** The sources determine their merge. */
  lemma {:induction false} MergedUnique(d: seq<Item>, e: seq<Item>, s: seq<seq<Point>>, ts: nat, r: nat)
    requires Merged(s, ts, r, d) && Merged(s, ts, r, e)
    ensures d == e
  {
    hide StatsOf, ValuesAt, Has, EntryRank, Occurs;
    var k := if |d| < |e| then |d| else |e|;
    SameKeys(d, e, k, s, ts, r);
    if |d| < |e| { HasAfter(e, d, k, s, ts, r); } else if |e| < |d| { HasAfter(d, e, k, s, ts, r); }
    forall j | 0 <= j < |d| ensures d[j] == e[j] {
      assert Exact(s, d, j) && Exact(s, e, j);
    }
  }
}
