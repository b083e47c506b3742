/**
 Rollup entries lose precision in their files, where `RollupCompressor_v1` rounds the least and greatest value
 and the sum: what is left of it in the answer to a query.
 */
module RollupPrecision {
  import opened Calendar
  import opened Stats
  import opened RollupManager
  import opened RollupReader
  import opened Downsample
  import opened DownsampleMeaning
  import opened RollupQuery
  import opened FixedPointCode
  import opened ByteCode
  import opened StreamCode
  import Codec = RollupCodec

  // ---------------------------------------------------------------- rounding adds up

  /** `n` times `h`, by addition so that proofs about it stay linear. */
  function Multiple(h: real, n: nat): real { if n == 0 then 0.0 else Multiple(h, n - 1) + h }

  lemma {:induction false} MultipleIsProduct(h: real, n: nat)
    ensures Multiple(h, n) == h * n as real
  {
    if n > 0 { MultipleIsProduct(h, n - 1); }
  }

  /** The statistics of `n` rounded entries, next to those of the entries themselves. */
  predicate NearStats(a: Stats, b: Stats, h: real, n: nat) {
    && b.cnt == a.cnt
    && Near(b.min, a.min, h) && Near(b.max, a.max, h) && Near(b.sum, a.sum, Multiple(h, n))
  }

  predicate NearAll(ss: seq<Stats>, rs: seq<Stats>, h: real) {
    |rs| == |ss| && forall i | 0 <= i < |ss| :: ss[i].cnt > 0 && NearStats(ss[i], rs[i], h, 1)
  }

  lemma {:induction false} CombineNear(a: Stats, a': Stats, n: nat, b: Stats, b': Stats, h: real)
    requires NearStats(a, a', h, n) && NearStats(b, b', h, 1)
    ensures NearStats(Combine(a, b), Combine(a', b'), h, n + 1)
  {
    assert Multiple(h, 1) == Multiple(h, 0) + h;
  }

  lemma {:induction false} CombineAllNear(ss: seq<Stats>, rs: seq<Stats>, h: real)
    requires ss != [] && NearAll(ss, rs, h)
    ensures NearStats(CombineAll(ss), CombineAll(rs), h, |ss|) && CombineAll(ss).cnt >= |ss|
    decreases |ss|
  {
    hide NearStats, Combine;
    var k := |ss| - 1;
    assert NearStats(ss[k], rs[k], h, 1);
    if k > 0 {
      CombineAllNear(ss[..k], rs[..k], h);
      CombineNear(CombineAll(ss[..k]), CombineAll(rs[..k]), k, ss[k], rs[k], h);
      CombinedCount(CombineAll(ss[..k]), ss[k]);
    }
  }

  lemma {:induction false} CombinedCount(a: Stats, b: Stats)
    ensures Combine(a, b).cnt == a.cnt + b.cnt
  {
  }

  /** How far off a result can be: a count is exact, a sum is off by `h` for every entry, all else by `h`. */
  predicate NearResult(kind: Kind, v: real, r: real, h: real, n: nat) {
    match kind
    case Counting => r == v
    case Summing => Near(r, v, h * n as real)
    case _ => Near(r, v, h)
  }

  lemma {:induction false} MultipleMono(h: real, n: nat, c: nat)
    requires h >= 0.0 && n <= c
    ensures Multiple(h, n) <= Multiple(h, c)
  {
    if n < c { MultipleMono(h, n, c - 1); }
  }

  lemma {:induction false} ScaleAtLeast(h: real, n: nat, c: Precision)
    requires h >= 0.0 && n <= c
    ensures h * n as real <= Scale(h, c)
  {
    hide Multiple;
    MultipleMono(h, n, c);
    MultipleIsProduct(h, n);
    MultipleIsProduct(h, c);
  }

  lemma {:induction false} AverageNear(x: real, y: real, h: real, n: nat, c: Precision)
    requires Near(y, x, h * n as real) && n <= c && h >= 0.0
    ensures Near(Over(y, c), Over(x, c), h)
  {
    hide Over, Scale;
    ScaleAtLeast(h, n, c);
    OverScale(h, c);
    OverDiff(y, x, c);
    OverMono(y - x, Scale(h, c), c);
    OverDiff(0.0, Scale(h, c), c);
    OverMono(0.0 - Scale(h, c), y - x, c);
    OverDiff(0.0, 0.0, c);
  }

  lemma {:induction false} ResultNear(kind: Kind, a: Stats, b: Stats, h: real, n: nat)
    requires NearStats(a, b, h, n) && 0 < n <= a.cnt && h >= 0.0
    ensures NearResult(kind, Result(kind, a), Result(kind, b), h, n)
  {
    hide Near;
    MultipleIsProduct(h, n);
    if kind == Average { AverageNear(a.sum, b.sum, h, n, a.cnt); }
  }

  // ---------------------------------------------------------------- the output

  /** The same items at the same times, rounded. */
  predicate NearItems(xs: seq<Item>, ys: seq<Item>, h: real) {
    && |ys| == |xs|
    && (forall i | 0 <= i < |xs| :: ys[i].t == xs[i].t && xs[i].s.cnt > 0 && NearStats(xs[i].s, ys[i].s, h, 1))
  }

  predicate SameTimes(xs: seq<Item>, ys: seq<Item>) {
    |ys| == |xs| && forall i | 0 <= i < |xs| :: ys[i].t == xs[i].t
  }

  lemma {:induction false} MembersNear(q: Query, xs: seq<Item>, ys: seq<Item>, h: real, t: nat)
    requires QueryOk(q) && NearItems(xs, ys, h)
    ensures NearAll(Members(q, xs, t), Members(q, ys, t), h)
    decreases |xs|
  {
    hide Step, NearStats;
    if xs != [] {
      var k := |xs| - 1;
      MembersNear(q, xs[..k], ys[..k], h, t);
    }
  }

  lemma {:induction false} GroupsSameTimes(q: Query, xs: seq<Item>, ys: seq<Item>)
    requires QueryOk(q) && SameTimes(xs, ys)
    ensures SameTimes(Groups(q, xs), Groups(q, ys))
    decreases |xs|
  {
    hide Step, Combine;
    if xs != [] { GroupsSameTimes(q, xs[..|xs| - 1], ys[..|ys| - 1]); }
  }

  /** The same times, and values and fillers in the same places. */
  predicate SameShape(ps: seq<Point>, rs: seq<Point>) {
    |rs| == |ps| && forall i | 0 <= i < |ps| :: rs[i].t == ps[i].t && (rs[i].cell.Filler? <==> ps[i].cell.Filler?)
  }

  lemma {:induction false} RenderSameShape(q: Query, kind: Kind, gs: seq<Item>, hs: seq<Item>)
    requires QueryOk(q) && SameTimes(gs, hs)
    ensures SameShape(Render(q, kind, gs), Render(q, kind, hs))
    decreases |gs|
  {
    hide Result, FirstTick, Fillers, Render;
    if gs == [] {
      RenderNone(q, kind);
    } else {
      var k := |gs| - 1;
      RenderSameShape(q, kind, gs[..k], hs[..k]);
      RenderSnoc(q, kind, gs);
      RenderSnoc(q, kind, hs);
    }
  }

  lemma {:induction false} DownSameShape(q: Query, kind: Kind, xs: seq<Item>, ys: seq<Item>)
    requires QueryOk(q) && SameTimes(xs, ys)
    ensures SameShape(Down(q, kind, xs), Down(q, kind, ys))
  {
    hide Groups, Render, Fillers, Step;
    GroupsSameTimes(q, xs, ys);
    RenderSameShape(q, kind, Groups(q, xs), Groups(q, ys));
  }

  /** Every value is near the one for the items themselves. */
  ghost predicate NearOutput(q: Query, kind: Kind, xs: seq<Item>, out: seq<Point>, rounded: seq<Point>, h: real)
    requires QueryOk(q)
  {
    && SameShape(out, rounded)
    && (forall i | 0 <= i < |out| && out[i].cell.Value? ::
          NearResult(kind, out[i].cell.v, rounded[i].cell.v, h, |Members(q, xs, out[i].t)|))
  }

  /** What rounding every item by at most `h` does to the output. */
  lemma {:induction false} RoundedOutput(q: Query, kind: Kind, xs: seq<Item>, ys: seq<Item>, h: real)
    requires QueryOk(q) && Series(q, xs) && NearItems(xs, ys, h) && h >= 0.0
    ensures NearOutput(q, kind, xs, Down(q, kind, xs), Down(q, kind, ys), h)
  {
    hide Down, Members, Result, CombineAll, NearStats, NearAll, NearResult;
    var out, rounded := Down(q, kind, xs), Down(q, kind, ys);
    DownSameShape(q, kind, xs, ys);
    DownMeaning(q, kind, xs);
    DownMeaning(q, kind, ys);
    forall i | 0 <= i < |out| && out[i].cell.Value?
      ensures NearResult(kind, out[i].cell.v, rounded[i].cell.v, h, |Members(q, xs, out[i].t)|)
    {
      var ss, rs := Members(q, xs, out[i].t), Members(q, ys, out[i].t);
      MembersNear(q, xs, ys, h, out[i].t);
      CombineAllNear(ss, rs, h);
      ResultNear(kind, CombineAll(ss), CombineAll(rs), h, |ss|);
    }
  }

  // ---------------------------------------------------------------- the files

  /** What is read back of a value. */
  function CodedValue(v: real, p: Precision): real { Over(Rounded(Scale(v, p)) as real, p) }

  /** What is read back of an entry; an empty one has only its count. */
  function Coded(s: Stats, p: Precision): Stats {
    if s.cnt == 0 then Stats(0, 0.0, 0.0, 0.0)
    else Stats(s.cnt, CodedValue(s.min, p), CodedValue(s.max, p), CodedValue(s.sum, p))
  }

  function EntryOf(tid: Codec.U32, s: Stats): Codec.Entry
    requires s.cnt < TWO32
  {
    Codec.Entry(tid, s.cnt, s.min, s.max, s.sum)
  }

  /** It is indeed what the codec reads back of what it wrote. */
  lemma {:induction false} CodedIsRead(tid: Codec.U32, s: Stats, p: Precision, rest: seq<bv8>)
    requires s.cnt < TWO32 && Codec.Storable(EntryOf(tid, s), p)
    ensures Codec.Parse(Codec.Encode(EntryOf(tid, s), p) + rest, p) == Got(EntryOf(tid, Coded(s, p)), rest)
  {
    hide Codec.Parse, Codec.Encode, Codec.Storable, Rounded, Scale, Over;
    Codec.EncodeParses(EntryOf(tid, s), rest, p);
  }

  function CodedLog(log: seq<Record>, p: Precision): (r: seq<Record>)
    ensures |r| == |log| && forall i | 0 <= i < |r| :: r[i] == Record(log[i].month, Coded(log[i].entry, p))
  {
    if log == [] then []
    else CodedLog(log[..|log| - 1], p) + [Record(log[|log| - 1].month, Coded(log[|log| - 1].entry, p))]
  }

  lemma {:induction false} CodedNear(s: Stats, p: Precision)
    requires s.cnt > 0
    ensures Coded(s, p).cnt == s.cnt && NearStats(s, Coded(s, p), Over(0.5, p), 1)
  {
    hide Rounded, Scale, Over, Near;
    Codec.RoundedWithinHalf(s.min, p);
    Codec.RoundedWithinHalf(s.max, p);
    Codec.RoundedWithinHalf(s.sum, p);
    assert Multiple(Over(0.5, p), 1) == Multiple(Over(0.5, p), 0) + Over(0.5, p);
  }

  lemma {:induction false} PartCoded(log: seq<Record>, p: Precision, lo: nat, hi: nat)
    ensures Part(CodedLog(log, p), lo, hi) == CodedLog(Part(log, lo, hi), p)
  {
    hide Coded;
    if log != [] {
      var k := |log| - 1;
      PartCoded(log[..k], p, lo, hi);
      assert CodedLog(log, p)[..k] == CodedLog(log[..k], p);
      var part := Part(log[..k], lo, hi);
      assert (part + [log[k]])[..|part|] == part;
    }
  }

  lemma {:induction false} CodedCount(s: Stats, p: Precision)
    ensures Coded(s, p).cnt == s.cnt
  {
  }

  lemma {:induction false} CodedDates(log: seq<Record>, r: Record, p: Precision)
    ensures Dated(CodedLog(log + [r], p)) == Dated(CodedLog(log, p)) +
            if r.entry.cnt == 0 then [] else [Item(LastDate(log + [r]), Coded(r.entry, p))]
  {
    hide Coded, Dated;
    assert (log + [r])[..|log|] == log;
    var r' := Record(r.month, Coded(r.entry, p));
    assert CodedLog(log + [r], p) == CodedLog(log, p) + [r'];
    DatedSnoc(CodedLog(log, p), r');
    CodedCount(r.entry, p);
    assert LastDate(CodedLog(log + [r], p)) == LastDate(log + [r]);
  }

  lemma {:induction false} NoDates(p: Precision)
    ensures Dated([]) == [] == Dated(CodedLog([], p))
  {
  }

  lemma {:induction false} DatedNear(log: seq<Record>, p: Precision)
    ensures NearItems(Dated(log), Dated(CodedLog(log, p)), Over(0.5, p))
  {
    hide Coded, NearStats, Over, Dated, CodedLog, LastDate;
    if log == [] {
      NoDates(p);
    } else {
      var front, r := log[..|log| - 1], log[|log| - 1];
      DatedNear(front, p);
      assert log == front + [r];
      CodedDates(front, r, p);
      DatedSnoc(front, r);
      if r.entry.cnt > 0 { CodedNear(r.entry, p); }
    }
  }

  lemma {:induction false} WithinNear(xs: seq<Item>, ys: seq<Item>, h: real, from: nat, to: nat)
    requires NearItems(xs, ys, h)
    ensures NearItems(Within(xs, from, to), Within(ys, from, to), h)
    decreases |xs|
  {
    hide NearStats;
    if xs != [] { WithinNear(xs[..|xs| - 1], ys[..|ys| - 1], h, from, to); }
  }

  /** What is read from the files is near what would be read of the entries themselves. */
  lemma {:induction false} ReadNear(log: seq<Record>, t: nat, cur: Stats, from: nat, to: nat, p: Precision)
    ensures NearItems(Read(log, t, cur, from, to), Read(CodedLog(log, p), t, cur, from, to), Over(0.5, p))
  {
    hide Part, Dated, Within, CodedLog, Over, MonthOf, Start;
    var lo, h := BeginMonth(from), Over(0.5, p);
    PartCoded(log, p, lo, to);
    DatedNear(Part(log, lo, to), p);
    WithinNear(Dated(Part(log, lo, to)), Dated(CodedLog(Part(log, lo, to), p)), h, from, to);
    HalfPositive(p);
    assert Multiple(h, 1) == Multiple(h, 0) + h;
  }

  lemma {:induction false} HalfPositive(p: Precision)
    ensures Over(0.5, p) > 0.0
  {
  }

  /** Every item is later than the one before it. */
  predicate Climbs(xs: seq<Item>) {
    |xs| <= 1 || (Climbs(xs[..|xs| - 1]) && xs[|xs| - 2].t < xs[|xs| - 1].t)
  }

  lemma {:induction false} ClimbsIff(xs: seq<Item>)
    ensures Climbs(xs) <==> forall i | 0 < i < |xs| :: xs[i - 1].t < xs[i].t
  {
    if |xs| > 1 {
      var front := xs[..|xs| - 1];
      ClimbsIff(front);
      assert forall i | 0 <= i < |front| :: front[i] == xs[i];
    }
  }

  lemma {:induction false} WithinClimbs(xs: seq<Item>, from: nat, to: nat)
    requires Climbs(xs)
    ensures var w := Within(xs, from, to); Climbs(w) && (w != [] ==> w[|w| - 1].t <= xs[|xs| - 1].t)
    decreases |xs|
  {
    if xs == [] {
      NothingWithin(from, to);
    } else {
      hide Climbs, Within;
      var front, x := xs[..|xs| - 1], xs[|xs| - 1];
      assert front + [x] == xs;
      ClimbsSnoc(front, x);
      WithinClimbs(front, from, to);
      var w := Within(front, from, to);
      WithinSnoc(front, x, from, to);
      ClimbsSnoc(w, x);
      assert w + [] == w;
      if front == [] { NothingWithin(from, to); }
    }
  }

  lemma {:induction false} ClimbsSnoc(xs: seq<Item>, x: Item)
    ensures Climbs(xs + [x]) <==> Climbs(xs) && (xs != [] ==> xs[|xs| - 1].t < x.t)
  {
    assert (xs + [x])[..|xs|] == xs;
  }

  lemma {:induction false} WithinRises(xs: seq<Item>, from: nat, to: nat)
    requires forall i | 0 < i < |xs| :: xs[i - 1].t < xs[i].t
    ensures var w := Within(xs, from, to);
            && (forall i | 0 < i < |w| :: w[i - 1].t < w[i].t)
            && (forall i | 0 <= i < |w| :: w[i].t < to)
            && (w != [] ==> w[|w| - 1].t <= xs[|xs| - 1].t)
  {
    hide Within, Climbs;
    ClimbsIff(xs);
    WithinClimbs(xs, from, to);
    ClimbsIff(Within(xs, from, to));
    WithinBefore(xs, from, to);
  }

  lemma {:induction false} WithinBefore(xs: seq<Item>, from: nat, to: nat)
    ensures forall i | 0 <= i < |Within(xs, from, to)| :: Within(xs, from, to)[i].t < to
  {
    if xs != [] { WithinBefore(xs[..|xs| - 1], from, to); }
  }

  /** What is read is in order of time, and before the end of the range. */
  lemma {:induction false} ReadSorted(log: seq<Record>, t: nat, cur: Stats, from: nat, to: nat, q: Query)
    requires LeadsTo(log, t) && to <= q.to + 1
    ensures Series(q, Read(log, t, cur, from, to))
  {
    hide Part, Dated, Within, Over, MonthOf, Start, Orderly, LastDate;
    var part := Part(log, BeginMonth(from), to);
    PartOrderly(log, BeginMonth(from), to);
    DatedRises(part);
    WithinRises(Dated(part), from, to);
    if part == [] {
      DatedNone();
      NothingWithin(from, to);
    } else {
      DatesBefore(log, t, BeginMonth(from), to);
      var ds := Dated(part);
      assert ds != [] ==> ds[|ds| - 1].t <= LastDate(part);
      if ds == [] { NothingWithin(from, to); }
    }
  }

  lemma {:induction false} NothingWithin(from: nat, to: nat)
    ensures Within([], from, to) == []
  {
  }

  lemma {:induction false} DatesBefore(log: seq<Record>, t: nat, lo: nat, hi: nat)
    requires LeadsTo(log, t) && Part(log, lo, hi) != []
    ensures LastDate(Part(log, lo, hi)) <= t
  {
    hide MonthOf, Start, LastHour, LastDate, Follows;
    var k := |log| - 1;
    if lo <= log[k].month < hi {
      PartLast(log, lo, hi);
      PartOrderly(log, lo, hi);
      ClockLags(Part(log, lo, hi));
      FollowsLater(LastHour(log), t);
    } else {
      assert Part(log, lo, hi) == Part(log[..k], lo, hi);
      FollowsLater(LastHour(log[..k]), LastHour(log));
      FollowsLater(LastHour(log), t);
      DatesBefore(log[..k], LastHour(log), lo, hi);
    }
  }

  lemma {:induction false} FollowsLater(a: nat, b: nat)
    requires Follows(a, b)
    ensures a < b
  {
  }

  /**
   End to end: the answer to a query of the files next to the one of the points.  Counts are exact, averages and
   extremes are off by half a unit of precision, and sums by half a unit for every hour that went into them.
   */
  lemma {:induction false} FilesAnswer(log: seq<Record>, t: nat, cur: Stats, ps: seq<Sample>,
                                       from: nat, to: nat, q: Query, kind: Kind, p: Precision)
    requires Inv(log, t, cur, Place(ps)) && InOrder(ps) && FinitePoints(Place(ps))
    requires Gapless(Part(log, BeginMonth(from), to))
    requires QueryOk(q) && (q.all || q.interval % HOUR == 0) && to <= q.to + 1
    ensures NearOutput(q, kind, Read(log, t, cur, from, to), Down(q, kind, Raw(OfHours(ps, from, to))),
                       Down(q, kind, Read(CodedLog(log, p), t, cur, from, to)), Over(0.5, p))
  {
    hide Down, Read, NearItems, Series, NearOutput, Over, CodedLog, Place, InOrder, Gapless, Part, OfHours,
         Entries, MonthOf, Start, LeadsTo;
    ReadNear(log, t, cur, from, to, p);
    ReadSorted(log, t, cur, from, to, q);
    HalfPositive(p);
    RoundedOutput(q, kind, Read(log, t, cur, from, to), Read(CodedLog(log, p), t, cur, from, to), Over(0.5, p));
    EntriesAnswer(log, t, cur, ps, from, to, q, kind);
  }

  // ---------------------------------------------------------------- values on the grid

  /** The least and greatest value and the sum are whole numbers of units. */
  predicate WholeUnits(s: Stats, p: Precision) {
    FixedPointCode.OnGrid(s.min, p) && FixedPointCode.OnGrid(s.max, p) && FixedPointCode.OnGrid(s.sum, p)
  }

  predicate AllWhole(log: seq<Record>, p: Precision) {
    forall i | 0 <= i < |log| :: log[i].entry.cnt > 0 ==> WholeUnits(log[i].entry, p)
  }

  lemma {:induction false} CodedValueExact(v: real, p: Precision)
    requires FixedPointCode.OnGrid(v, p)
    ensures CodedValue(v, p) == v
  {
    hide Scale, Over, Rounded;
    OverScale(v, p);
    GridRounds(Scale(v, p));
  }

  lemma {:induction false} CodedExact(s: Stats, p: Precision)
    requires s.cnt > 0 && WholeUnits(s, p)
    ensures Coded(s, p) == s
  {
    hide CodedValue, Scale;
    CodedValueExact(s.min, p);
    CodedValueExact(s.max, p);
    CodedValueExact(s.sum, p);
  }

  lemma {:induction false} DatedWhole(log: seq<Record>, p: Precision)
    requires AllWhole(log, p)
    ensures Dated(CodedLog(log, p)) == Dated(log)
  {
    hide Coded, WholeUnits, Dated, LastDate;
    if log == [] {
      assert CodedLog(log, p) == log;
    } else {
      var front, r := log[..|log| - 1], log[|log| - 1];
      assert forall i | 0 <= i < |front| :: front[i] == log[i];
      DatedWhole(front, p);
      assert log == front + [r];
      hide CodedLog, AllWhole;
      CodedDates(front, r, p);
      DatedSnoc(front, r);
      if r.entry.cnt > 0 { CodedExact(r.entry, p); }
    }
  }

  lemma {:induction false} PartWhole(log: seq<Record>, p: Precision, lo: nat, hi: nat)
    requires AllWhole(log, p)
    ensures AllWhole(Part(log, lo, hi), p)
  {
    hide WholeUnits;
    if log != [] {
      var front := log[..|log| - 1];
      assert forall i | 0 <= i < |front| :: front[i] == log[i];
      PartWhole(front, p, lo, hi);
    }
  }

  /** Then nothing is lost. */
  lemma {:induction false} WholeIsExact(log: seq<Record>, t: nat, cur: Stats, from: nat, to: nat, p: Precision)
    requires AllWhole(log, p)
    ensures Read(CodedLog(log, p), t, cur, from, to) == Read(log, t, cur, from, to)
  {
    hide Part, Dated, CodedLog, WholeUnits, MonthOf, Start, Within;
    PartCoded(log, p, BeginMonth(from), to);
    PartWhole(log, p, BeginMonth(from), to);
    DatedWhole(Part(log, BeginMonth(from), to), p);
  }
}
