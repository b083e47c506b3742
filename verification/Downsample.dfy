/**
 Downsampling as src/agg/down.cpp defines it: points are grouped by the interval they fall in, every
 group yields one value, and a fill policy yields a filler for every interval without points.
 */
module Downsample {
  import opened Arith
  import opened Stats
  import opened RollupManager

  /**
   The interval, the query range and the fill policy of a downsampler.  Filling starts from `origin`: the start of
   the query stepped down with the interval that was asked for, which need not be the one that is used.
   */
  datatype Query = Query(all: bool, interval: nat, origin: nat, start: nat, to: nat, fill: bool)

  predicate QueryOk(q: Query) {
    q.interval > 0 && q.origin <= q.start <= q.to && (q.all ==> q.origin == q.start)
  }

  /** `step_down`. */
  function Step(q: Query, t: nat): (r: nat)
    requires QueryOk(q)
    ensures if q.all then r == q.start else r <= t < r + q.interval && r % q.interval == 0
  {
    if q.all then q.start else Floor(t, q.interval)
  }

  function Floor(t: nat, i: nat): (r: nat)
    requires i > 0
    ensures r <= t < r + i && r % i == 0
  {
    StepBound(t, i);
    t - t % i
  }

  lemma {:induction false} StepBound(t: nat, i: nat)
    requires i > 0
    ensures t - t % i <= t < t - t % i + i && (t - t % i) % i == 0
  {
    assert t == i * (t / i) + t % i;
    MultipleMod(i, t / i);
  }

  lemma {:induction false} MultipleMod(i: nat, d: nat)
    requires i > 0
    ensures (i * d) % i == 0
  {
    RemainderIs(i * d, i, d, 0);
  }

  // ---------------------------------------------------------------- asking

  /** `initialize`: the state for a query as it was asked. */
  function Asked(all: bool, interval: nat, start: nat, to: nat, fill: bool): (q: Query)
    requires start <= to
    ensures QueryOk(q) && (q.all, q.start, q.to, q.fill) == (all, start, to, fill)
    ensures q.interval == if all then to - start + 1 else if interval == 0 then 1 else interval
    ensures !all ==> start < q.origin + q.interval && q.origin % q.interval == 0
  {
    var j := if interval == 0 then 1 else interval;
    if all then Query(true, to - start + 1, start, start, to, fill)
    else Query(false, j, Floor(start, j), start, to, fill)
  }

  /** Rollup entries are of days, or of hours when the interval is shorter than a day. */
  function RollupUnit(j: nat): (u: nat)
    ensures u > 0
  {
    if 24 * HOUR <= j then 24 * HOUR else HOUR
  }

  /** The multiple of `u` that is nearest to `j`, of two the lower one. */
  function NearestMultiple(j: nat, u: nat): nat
    requires u > 0
  {
    var i := j / u * u;
    if i + u - j < j - i then i + u else i
  }

  lemma {:induction false} NearestIs(j: nat, u: nat)
    requires 0 < u <= j
    ensures var i := NearestMultiple(j, u); i > 0 && i % u == 0 && 2 * (j - i) <= u && 2 * (i - j) < u
    ensures NearestMultiple(j, u) == j <==> j % u == 0
  {
    var d := j / u;
    assert j == d * u + j % u;
    assert (d + 1) * u == d * u + u;
    MultipleMod(u, d);
    MultipleMod(u, d + 1);
  }

  /** `use_rollup`: the interval that is used with rollup entries, when `j` was asked for. */
  function RolledInterval(j: nat): nat { NearestMultiple(j, RollupUnit(j)) }

  /**
   The interval used is the nearest whole number of hours to the one asked for, or of days from a day on; of two it is
   the shorter.
   */
  lemma {:induction false} RolledIsNearest(j: nat)
    requires HOUR <= j
    ensures RolledInterval(j) > 0 && RolledInterval(j) % 3600 == 0
    ensures j < 86400 ==> -1800 < j - RolledInterval(j) <= 1800
    ensures j >= 86400 ==> RolledInterval(j) % 86400 == 0 && -43200 < j - RolledInterval(j) <= 43200
  {
    hide NearestMultiple;
    NearestIs(j, RollupUnit(j));
    if j >= 86400 { DaysAreHours(RolledInterval(j)); }
  }

  lemma {:induction false} DaysAreHours(i: nat)
    requires i % 86400 == 0
    ensures i % 3600 == 0
  {
    MultipleMod(3600, 24 * (i / 86400));
    assert i == 3600 * (24 * (i / 86400));
  }

  /** `use_rollup` and `set_interval`: the state in which rollup entries are read; its origin stays as it was. */
  function Rolled(q: Query): (r: Query)
    requires QueryOk(q)
    ensures QueryOk(r) && r == q.(interval := r.interval)
    ensures if q.interval < 3600 then r == q else r.interval == RolledInterval(q.interval)
  {
    if HOUR <= q.interval then RolledIsNearest(q.interval); q.(interval := RolledInterval(q.interval)) else q
  }

  /** It is the one asked for exactly when that is a whole number of hours, or of days from a day on. */
  lemma {:induction false} RolledSameIff(j: nat)
    requires HOUR <= j
    ensures RolledInterval(j) == j <==> j % (if j < 86400 then 3600 else 86400) == 0
  {
    hide NearestMultiple;
    NearestIs(j, RollupUnit(j));
  }

  // ---------------------------------------------------------------- groups

  /** One item more; what falls before the start of the query is dropped. */
  function Feed(q: Query, gs: seq<Item>, x: Item): seq<Item>
    requires QueryOk(q)
  {
    if Step(q, x.t) < q.start then gs else Merge(gs, Item(Step(q, x.t), x.s))
  }

  function Groups(q: Query, xs: seq<Item>): seq<Item>
    requires QueryOk(q)
  {
    if xs == [] then [] else Feed(q, Groups(q, xs[..|xs| - 1]), xs[|xs| - 1])
  }

  lemma {:induction false} GroupsSnoc(q: Query, xs: seq<Item>, x: Item)
    requires QueryOk(q)
    ensures Groups(q, xs + [x]) == Feed(q, Groups(q, xs), x)
  {
    hide Feed;
    assert (xs + [x])[..|xs|] == xs;
  }

  lemma {:induction false} FeedTwice(q: Query, gs: seq<Item>, t: nat, a: Stats, u: nat, b: Stats)
    requires QueryOk(q) && Step(q, t) == Step(q, u)
    ensures Feed(q, Feed(q, gs, Item(t, a)), Item(u, b)) == Feed(q, gs, Item(t, Combine(a, b)))
  {
    hide Merge, Combine, Step;
    MergeTwice(gs, Step(q, t), a, b);
  }

  /** `coarse` sees no difference between a time and the interval of `fine` it falls in. */
  ghost predicate Coarser(coarse: Query, fine: Query)
    requires QueryOk(coarse) && QueryOk(fine)
  {
    fine.start == 0 && forall t :: Step(coarse, Step(fine, t)) == Step(coarse, t)
  }

  /** Grouping coarsely what was grouped finely gives the coarse groups. */
  lemma {:induction false} Regroup(coarse: Query, fine: Query, xs: seq<Item>)
    requires QueryOk(coarse) && QueryOk(fine) && Coarser(coarse, fine)
    ensures Groups(coarse, Groups(fine, xs)) == Groups(coarse, xs)
    decreases |xs|
  {
    hide Combine, Step;
    if xs != [] {
      var x := xs[|xs| - 1];
      var f := Groups(fine, xs[..|xs| - 1]);
      Regroup(coarse, fine, xs[..|xs| - 1]);
      RegroupStep(coarse, fine, f, x);
    }
  }

  lemma {:induction false} RegroupStep(coarse: Query, fine: Query, f: seq<Item>, x: Item)
    requires QueryOk(coarse) && QueryOk(fine) && Coarser(coarse, fine)
    ensures Groups(coarse, Feed(fine, f, x)) == Feed(coarse, Groups(coarse, f), x)
  {
    hide Combine, Step;
    var k, y := |f| - 1, Item(Step(fine, x.t), x.s);
    assert Step(coarse, y.t) == Step(coarse, x.t);
    if f != [] && f[k].t == y.t {
      GroupsSnoc(coarse, f[..k], Item(y.t, Combine(f[k].s, x.s)));
      GroupsSnoc(coarse, f[..k], f[k]);
      assert f[..k] + [f[k]] == f;
      FeedTwice(coarse, Groups(coarse, f[..k]), f[k].t, f[k].s, x.t, x.s);
    } else {
      GroupsSnoc(coarse, f, y);
    }
  }

  // ---------------------------------------------------------------- output

  datatype Kind = Average | Counting | Minimum | Maximum | Summing

  datatype Cell = Value(v: real) | Filler

  datatype Point = Point(t: nat, cell: Cell)

  function Result(k: Kind, s: Stats): real {
    match k
    case Average => if s.cnt == 0 then 0.0 else s.sum / s.cnt as real
    case Counting => s.cnt as real
    case Minimum => s.min
    case Maximum => s.max
    case Summing => s.sum
  }

  /** Where filling starts. */
  function FirstTick(q: Query): nat {
    if q.origin < q.start then q.origin + q.interval else q.origin
  }

  /** Fillers for the intervals from `a` on that start before `b`. */
  function Fillers(q: Query, a: nat, b: nat): seq<Point>
    requires QueryOk(q)
    decreases b - a
  {
    if !q.fill || a >= b then [] else [Point(a, Filler)] + Fillers(q, a + q.interval, b)
  }

  /** The output before the value of the last group: earlier groups, and fillers up to it. */
  function Lead(q: Query, kind: Kind, gs: seq<Item>): seq<Point>
    requires QueryOk(q) && gs != []
    decreases |gs|, 0
  {
    var k := |gs| - 1;
    if k == 0 then Fillers(q, FirstTick(q), gs[0].t)
    else Render(q, kind, gs[..k]) + Fillers(q, gs[k - 1].t + q.interval, gs[k].t)
  }

  function Render(q: Query, kind: Kind, gs: seq<Item>): seq<Point>
    requires QueryOk(q)
    decreases |gs|, 1
  {
    if gs == [] then []
    else
      var g := gs[|gs| - 1];
      Lead(q, kind, gs) + [Point(g.t, Value(Result(kind, g.s)))]
  }

  /** The whole output: the groups, and fillers up to the end of the range. */
  function Finish(q: Query, kind: Kind, gs: seq<Item>): seq<Point>
    requires QueryOk(q)
  {
    var last := if gs == [] then q.origin else gs[|gs| - 1].t;
    Render(q, kind, gs) + Fillers(q, last + q.interval, q.to + 1)
  }

  function Down(q: Query, kind: Kind, xs: seq<Item>): seq<Point>
    requires QueryOk(q)
  {
    Finish(q, kind, Groups(q, xs))
  }

  // ---------------------------------------------------------------- raw points or hourly entries

  /** Grouping by hour, as the rollup entries do. */
  const Hourly := Query(false, HOUR, 0, 0, 0, false)

  lemma {:induction false} FloorForm(t: nat, i: nat)
    requires i > 0
    ensures Floor(t, i) == i * (t / i)
  {
  }

  lemma {:induction false} FloorIs(t: nat, i: nat, k: nat)
    requires i > 0 && i * k <= t < i * k + i
    ensures Floor(t, i) == i * k
  {
    RemainderIs(t, i, k, t - i * k);
  }

  /** A multiple of `n` that is not above `t` is not above the last multiple of `n` up to `t`. */
  lemma {:induction false} LastMultiple(t: nat, n: nat, k: nat)
    requires n > 0 && n * k <= t
    ensures n * k <= Floor(t, n)
  {
    hide Floor;
    FloorForm(t, n);
    var d := t / n;
    if d < k {
      MulMinus(n, k, d);
      MulAtLeast(n, k - d);
    } else if k < d {
      MulMinus(n, d, k);
      MulAtLeast(n, d - k);
    }
  }

  lemma {:induction false} Associate(x: nat, y: nat, z: nat)
    ensures (x * y) * z == x * (y * z)
  {
  }

  /** Rounding down to an hour first does not change the interval, if intervals are of `b` hours. */
  lemma {:induction false} HoursFirst(b: nat, i: nat, t: nat)
    requires i > 0 && i == HOUR * b
    ensures Floor(Floor(t, HOUR), i) == Floor(t, i)
  {
    hide Floor;
    var a := t / i;
    FloorForm(t, i);
    Associate(HOUR, b, a);
    LastMultiple(t, HOUR, b * a);
    FloorIs(Floor(t, HOUR), i, a);
  }

  lemma {:induction false} MultipleSteps(i: nat, t: nat)
    requires i > 0 && i % HOUR == 0
    ensures Floor(Floor(t, HOUR), i) == Floor(t, i)
  {
    hide Floor;
    HoursFirst(i / HOUR, i, t);
  }

  lemma {:induction false} HourlyIsFine(q: Query)
    requires QueryOk(q) && (q.all || q.interval % HOUR == 0)
    ensures QueryOk(Hourly) && Coarser(q, Hourly)
  {
    forall t ensures Step(q, Step(Hourly, t)) == Step(q, t) {
      if !q.all { MultipleSteps(q.interval, t); }
    }
  }

  /**
   Feeding the hourly groups of a series gives the same output as feeding the series itself, for every
   kind and fill policy, when the interval is a multiple of an hour or the whole range.
   */
  lemma {:induction false} RollupsAgree(q: Query, kind: Kind, xs: seq<Item>)
    requires QueryOk(q) && (q.all || q.interval % HOUR == 0)
    ensures QueryOk(Hourly) && Down(q, kind, Groups(Hourly, xs)) == Down(q, kind, xs)
  {
    hide Finish, Groups, Step;
    HourlyIsFine(q);
    Regroup(q, Hourly, xs);
  }

  /** With any other interval, a point at the start of the second interval is put in the first one. */
  lemma {:induction false} OtherIntervalsDiffer(i: nat, kind: Kind)
    requires i > 0 && i % HOUR != 0
    ensures var q := Query(false, i, 0, 0, i, false);
            && QueryOk(q) && QueryOk(Hourly)
            && Down(q, kind, Groups(Hourly, [Item(i, Single(0.0))])) != Down(q, kind, [Item(i, Single(0.0))])
  {
    hide Floor;
    var q, x := Query(false, i, 0, 0, i, false), Item(i, Single(0.0));
    var h := Floor(i, HOUR);
    OneGroup(Hourly, x, h);
    FloorIs(i, i, 1);
    OneGroup(q, x, i);
    assert h < i by { if h == i { FloorForm(i, HOUR); } }
    FloorIs(h, i, 0);
    OneGroup(q, Item(h, x.s), 0);
    OneOutput(q, kind, Item(i, x.s));
    OneOutput(q, kind, Item(0, x.s));
  }

  lemma {:induction false} OneGroup(q: Query, x: Item, t: nat)
    requires QueryOk(q) && q.start == 0 && Step(q, x.t) == t
    ensures Groups(q, [x]) == [Item(t, x.s)]
  {
    assert [x][..0] == [];
  }

  lemma {:induction false} OneOutput(q: Query, kind: Kind, g: Item)
    requires QueryOk(q) && !q.fill
    ensures Finish(q, kind, [g]) == [Point(g.t, Value(Result(kind, g.s)))]
  {
    hide Result, FirstTick;
    var p := Point(g.t, Value(Result(kind, g.s)));
    assert Lead(q, kind, [g]) == [] && Render(q, kind, [g]) == [] + [p];
    assert [] + [p] + [] == [p];
  }

  // ---------------------------------------------------------------- sorted series

  /** A series as the source demands it: in order of time, and not after the end of the range. */
  predicate Series(q: Query, xs: seq<Item>) {
    (forall j | 0 <= j < |xs| :: xs[j].t <= q.to) && (forall j | 0 < j < |xs| :: xs[j - 1].t <= xs[j].t)
  }

  /** A time that a group can have. */
  predicate IsTick(q: Query, t: nat)
    requires q.interval > 0
  {
    q.start <= t <= q.to && (if q.all then t == q.start else t % q.interval == 0)
  }

  ghost predicate Ascending(q: Query, gs: seq<Item>)
    requires q.interval > 0
  {
    (forall j | 0 <= j < |gs| :: IsTick(q, gs[j].t)) && (forall j | 0 < j < |gs| :: gs[j - 1].t < gs[j].t)
  }

  lemma {:induction false} StepMono(q: Query, t: nat, u: nat)
    requires QueryOk(q) && t <= u
    ensures Step(q, t) <= Step(q, u)
  {
    hide Floor;
    if !q.all {
      FloorForm(t, q.interval);
      LastMultiple(u, q.interval, t / q.interval);
    }
  }

  /** A sorted series makes groups on the grid, in order. */
  lemma {:induction false} GroupsAscend(q: Query, xs: seq<Item>)
    requires QueryOk(q) && Series(q, xs)
    ensures Ascending(q, Groups(q, xs))
    ensures Groups(q, xs) != [] ==> Groups(q, xs)[|Groups(q, xs)| - 1].t <= Step(q, xs[|xs| - 1].t)
    decreases |xs|
  {
    hide Step, Merge, Ascending;
    if xs == [] {
      assert Ascending(q, []) by { AscendingNone(q); }
    } else {
      var k := |xs| - 1;
      var front, x := xs[..k], xs[k];
      assert forall j | 0 <= j < k :: front[j] == xs[j];
      GroupsAscend(q, front);
      if k > 0 { StepMono(q, xs[k - 1].t, x.t); }
      if q.start <= Step(q, x.t) {
        StepIsTick(q, x.t);
        MergeAscends(q, Groups(q, front), Item(Step(q, x.t), x.s));
      }
    }
  }

  lemma {:induction false} AscendingNone(q: Query)
    requires q.interval > 0
    ensures Ascending(q, [])
  {
  }

  lemma {:induction false} MergeAscends(q: Query, gs: seq<Item>, x: Item)
    requires q.interval > 0 && Ascending(q, gs) && IsTick(q, x.t) && (gs != [] ==> gs[|gs| - 1].t <= x.t)
    ensures Ascending(q, Merge(gs, x))
  {
    hide IsTick, Combine;
    var k, r := |gs| - 1, Merge(gs, x);
    assert forall j | 0 <= j < |r| - 1 :: r[j].t == gs[j].t;
    assert r[|r| - 1].t == x.t;
  }

  lemma {:induction false} StepIsTick(q: Query, t: nat)
    requires QueryOk(q) && t <= q.to && q.start <= Step(q, t)
    ensures IsTick(q, Step(q, t))
  {
    hide Floor;
  }

  lemma {:induction false} NextIsMultiple(f: nat, i: nat)
    requires i > 0 && f % i == 0
    ensures (f + i) % i == 0
  {
    assert f == i * (f / i);
    MulMinus(i, f / i + 1, 1);
    RemainderIs(f + i, i, f / i + 1, 0);
  }

  lemma {:induction false} NoMultipleBetween(f: nat, t: nat, i: nat)
    requires i > 0 && f % i == 0 && t % i == 0 && f < t
    ensures f + i <= t
  {
    var x, y := f / i, t / i;
    assert f == i * x && t == i * y;
    if x < y {
      MulMinus(i, y, x);
      MulAtLeast(i, y - x);
    } else {
      MulMinus(i, x, y);
      if x > y { MulAtLeast(i, x - y); }
    }
  }
}
