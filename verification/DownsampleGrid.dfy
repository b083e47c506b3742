/**
 The times of filled output.  They are the grid points of the query range, one interval apart, exactly when filling
 starts at the first of them.  It does when the interval that is used is the one that was asked for, but not always
 after `set_interval`, which leaves the origin of filling behind.
 */
module DownsampleGrid {
  import opened Sequences
  import opened Arith
  import opened Stats
  import opened RollupManager
  import opened Downsample

  // ---------------------------------------------------------------- ticks

  /** The times `a`, `a + i`, `a + 2 * i`, ... below `b`. */
  function Ticks(a: nat, b: nat, i: nat): seq<nat>
    requires i > 0
    decreases b - a
  {
    if a >= b then [] else [a] + Ticks(a + i, b, i)
  }

  /** The ticks are one interval apart and stop at the last one below `b`. */
  lemma {:induction false} TicksMeaning(a: nat, b: nat, i: nat, j: nat)
    requires i > 0 && j < |Ticks(a, b, i)|
    ensures Ticks(a, b, i)[j] == a + i * j < b
    ensures j == |Ticks(a, b, i)| - 1 ==> b <= a + i * j + i
    decreases j
  {
    if j > 0 {
      TicksMeaning(a + i, b, i, j - 1);
      MulMinus(i, j, 1);
    }
  }

  function TimesOf(ps: seq<Point>): (r: seq<nat>)
    ensures |r| == |ps| && forall j | 0 <= j < |ps| :: r[j] == ps[j].t
  {
    if ps == [] then [] else [ps[0].t] + TimesOf(ps[1..])
  }

  lemma {:induction false} TimesJoin(a: seq<Point>, b: seq<Point>)
    ensures TimesOf(a + b) == TimesOf(a) + TimesOf(b)
  {
  }

  lemma {:induction false} TimesOne(p: Point)
    ensures TimesOf([p]) == [p.t]
  {
  }

  lemma {:induction false} FillerTimes(q: Query, a: nat, b: nat)
    requires QueryOk(q) && q.fill
    ensures TimesOf(Fillers(q, a, b)) == Ticks(a, b, q.interval)
    decreases b - a
  {
    if a < b {
      FillerTimes(q, a + q.interval, b);
      assert Fillers(q, a, b)[1..] == Fillers(q, a + q.interval, b);
    }
  }

  /** `b` is a whole number of steps after `a`. */
  ghost predicate Aligned(a: nat, b: nat, i: nat) { exists n: nat :: b == Reached(a, n, i) }

  function Reached(a: nat, n: nat, i: nat): nat { if n == 0 then a else Reached(a, n - 1, i) + i }

  lemma {:induction false} ReachedNext(a: nat, n: nat, i: nat)
    ensures Reached(a + i, n, i) == Reached(a, n + 1, i)
  {
    if n > 0 { ReachedNext(a, n - 1, i); }
  }

  lemma {:induction false} ReachedGrows(a: nat, n: nat, i: nat)
    ensures Reached(a, n, i) >= a && (n > 0 && i > 0 ==> Reached(a, n, i) > a)
  {
    if n > 0 { ReachedGrows(a, n - 1, i); }
  }

  lemma {:induction false} ReachedForm(a: nat, n: nat, i: nat)
    ensures Reached(a, n, i) == a + i * n
  {
    if n > 0 {
      ReachedForm(a, n - 1, i);
      MulMinus(i, n, 1);
    }
  }

  lemma {:induction false} MultiplesAligned(a: nat, b: nat, i: nat)
    requires i > 0 && a % i == 0 && b % i == 0 && a <= b
    ensures Aligned(a, b, i)
  {
    var x, y := a / i, b / i;
    assert a == i * x && b == i * y;
    if x == y {
      assert b == Reached(a, 0, i);
    } else if x < y {
      MulMinus(i, y, x);
      ReachedForm(a, y - x, i);
      assert b == Reached(a, y - x, i);
    } else {
      MulMinus(i, x, y);
      MulAtLeast(i, x - y);
    }
  }

  /** All ticks up to `c`: those before `b`, then those from `b` on. */
  lemma {:induction false} TicksSplit(a: nat, n: nat, c: nat, i: nat)
    requires i > 0 && Reached(a, n, i) <= c
    ensures var b := Reached(a, n, i); Ticks(a, c, i) == Ticks(a, b, i) + Ticks(b, c, i)
    decreases n
  {
    var b := Reached(a, n, i);
    if n == 0 {
      assert Ticks(a, b, i) == [];
    } else {
      ReachedGrows(a, n, i);
      ReachedNext(a, n - 1, i);
      TicksSplit(a + i, n - 1, c, i);
      var before, after := Ticks(a + i, b, i), Ticks(b, c, i);
      assert [a] + (before + after) == ([a] + before) + after;
    }
  }

  lemma {:induction false} AlignedSplit(a: nat, b: nat, c: nat, i: nat)
    requires i > 0 && Aligned(a, b, i) && b <= c
    ensures a <= b && Ticks(a, c, i) == Ticks(a, b, i) + Ticks(b, c, i)
  {
    var n: nat :| b == Reached(a, n, i);
    ReachedGrows(a, n, i);
    TicksSplit(a, n, c, i);
  }

  lemma {:induction false} OneTick(a: nat, b: nat, i: nat)
    requires i > 0 && a < b
    ensures Ticks(a, b, i) == [a] + Ticks(a + i, b, i)
    ensures Ticks(a, b, i) == [a] <==> b <= a + i
  {
    if b > a + i { assert |Ticks(a, b, i)| >= 2; }
  }

  /** Two starts give the same ticks up to `g` only if they are equal, or both not before it. */
  lemma {:induction false} SameTicks(a: nat, b: nat, g: nat, i: nat)
    requires i > 0
    ensures Ticks(a, g, i) == Ticks(b, g, i) <==> a == b || (g <= a && g <= b)
  {
    if a < g { OneTick(a, g, i); }
    if b < g { OneTick(b, g, i); }
    if a < g && b < g && Ticks(a, g, i) == Ticks(b, g, i) {
      assert Ticks(a, g, i)[0] == a && Ticks(b, g, i)[0] == b;
    }
  }

  // ---------------------------------------------------------------- the times of the output

  /** Groups one or more intervals apart, all aligned with the first, within the range. */
  ghost predicate InStep(q: Query, gs: seq<Item>)
    requires QueryOk(q)
  {
    && (forall j | 0 <= j < |gs| :: gs[j].t <= q.to)
    && (forall j | 0 < j < |gs| :: gs[j - 1].t < gs[j].t && Aligned(gs[j - 1].t, gs[j].t, q.interval))
  }

  lemma {:induction false} InStepFront(q: Query, gs: seq<Item>)
    requires QueryOk(q) && InStep(q, gs) && gs != []
    ensures InStep(q, gs[..|gs| - 1])
  {
    hide Aligned;
    var front := gs[..|gs| - 1];
    assert forall j | 0 <= j < |front| :: front[j] == gs[j];
  }

  lemma {:induction false} AscendingInStep(q: Query, gs: seq<Item>)
    requires QueryOk(q) && Ascending(q, gs)
    ensures InStep(q, gs)
  {
    hide Aligned;
    forall j | 0 < j < |gs| ensures Aligned(gs[j - 1].t, gs[j].t, q.interval) {
      assert IsTick(q, gs[j - 1].t) && IsTick(q, gs[j].t);
      MultiplesAligned(gs[j - 1].t, gs[j].t, q.interval);
    }
  }

  lemma {:induction false} Regrouped(x: seq<nat>, y: seq<nat>, z: seq<nat>)
    ensures (x + y) + z == x + (y + z)
  {
  }

  /** Filled output up to and without the last group: ticks from where filling starts, then from the first group. */
  lemma {:induction false} LeadTimes(q: Query, kind: Kind, gs: seq<Item>)
    requires QueryOk(q) && q.fill && InStep(q, gs) && gs != []
    ensures TimesOf(Lead(q, kind, gs)) ==
            Ticks(FirstTick(q), gs[0].t, q.interval) + Ticks(gs[0].t, gs[|gs| - 1].t, q.interval)
    ensures gs[0].t <= gs[|gs| - 1].t && Aligned(gs[0].t, gs[|gs| - 1].t, q.interval)
    decreases |gs|
  {
    hide FirstTick, Aligned, Result, Fillers, Ticks, TimesOf;
    var k, i, a, g := |gs| - 1, q.interval, FirstTick(q), gs[0].t;
    FillerTimes(q, a, g);
    if k == 0 {
      NoTicks(g, i);
      AlignedSelf(g, i);
    } else {
      var front, b, c := gs[..k], gs[k - 1].t, gs[k].t;
      InStepFront(q, gs);
      LeadTimes(q, kind, front);
      assert front[k - 1] == gs[k - 1] && front[0] == gs[0];
      var value := Point(b, Value(Result(kind, front[k - 1].s)));
      TimesJoin(Lead(q, kind, front), [value]);
      TimesOne(value);
      TimesJoin(Render(q, kind, front), Fillers(q, b + i, c));
      FillerTimes(q, b + i, c);
      assert b < c && Aligned(b, c, i);
      AlignedJoin(g, b, c, i);
      AlignedSplit(g, b, c, i);
      OneTick(b, c, i);
      Regrouped(Ticks(a, g, i), Ticks(g, b, i), [b]);
      Regrouped(Ticks(a, g, i), Ticks(g, b, i) + [b], Ticks(b + i, c, i));
      Regrouped(Ticks(g, b, i), [b], Ticks(b + i, c, i));
    }
  }

  lemma {:induction false} NoTicks(a: nat, i: nat)
    requires i > 0
    ensures Ticks(a, a, i) == [] && forall s: seq<nat> :: s + [] == s
  {
  }

  lemma {:induction false} AlignedSelf(a: nat, i: nat)
    ensures Aligned(a, a, i)
  {
    assert a == Reached(a, 0, i);
  }

  lemma {:induction false} AlignedJoin(a: nat, b: nat, c: nat, i: nat)
    requires Aligned(a, b, i) && Aligned(b, c, i)
    ensures Aligned(a, c, i)
  {
    var n: nat :| b == Reached(a, n, i);
    var m: nat :| c == Reached(b, m, i);
    ReachedForm(a, n, i);
    ReachedForm(b, m, i);
    ReachedForm(a, n + m, i);
    MulMinus(i, n + m, m);
    assert c == Reached(a, n + m, i);
  }

  /** Filled output: ticks from where filling starts up to the first group, then from that group to the end. */
  lemma {:induction false} FilledTimes(q: Query, kind: Kind, gs: seq<Item>)
    requires QueryOk(q) && q.fill && InStep(q, gs) && gs != []
    ensures TimesOf(Finish(q, kind, gs)) ==
            Ticks(FirstTick(q), gs[0].t, q.interval) + Ticks(gs[0].t, q.to + 1, q.interval)
  {
    hide FirstTick, Aligned, Result, Fillers, Ticks, TimesOf, Lead;
    var k, i, a := |gs| - 1, q.interval, FirstTick(q);
    var g, last, end := gs[0].t, gs[k].t, q.to + 1;
    var value := Point(last, Value(Result(kind, gs[k].s)));
    LeadTimes(q, kind, gs);
    TimesJoin(Lead(q, kind, gs), [value]);
    TimesOne(value);
    TimesJoin(Render(q, kind, gs), Fillers(q, last + i, end));
    FillerTimes(q, last + i, end);
    AlignedSplit(g, last, end, i);
    OneTick(last, end, i);
    Regrouped(Ticks(a, g, i), Ticks(g, last, i), [last]);
    Regrouped(Ticks(a, g, i), Ticks(g, last, i) + [last], Ticks(last + i, end, i));
    Regrouped(Ticks(g, last, i), [last], Ticks(last + i, end, i));
  }

  // ---------------------------------------------------------------- the grid

  /** The first time not before the start of the query that a group can have. */
  function LeastTick(q: Query): nat
    requires QueryOk(q)
  {
    if Step(q, q.start) < q.start then Step(q, q.start) + q.interval else Step(q, q.start)
  }

  lemma {:induction false} LeastTickIsLeast(q: Query, t: nat)
    requires QueryOk(q)
    ensures q.start <= LeastTick(q) < q.start + q.interval
    ensures LeastTick(q) <= q.to ==> IsTick(q, LeastTick(q))
    ensures !q.all ==> LeastTick(q) % q.interval == 0
    ensures IsTick(q, t) ==> LeastTick(q) <= t
  {
    hide Floor;
    if !q.all {
      var f := Floor(q.start, q.interval);
      NextIsMultiple(f, q.interval);
      if f < q.start && IsTick(q, t) { NoMultipleBetween(f, t, q.interval); }
    }
  }

  /** Every time of the query range that a group can have. */
  function Grid(q: Query): seq<nat>
    requires QueryOk(q)
  {
    if q.all then [q.start] else Ticks(LeastTick(q), q.to + 1, q.interval)
  }

  /** What decides it for output whose first group is at `g`. */
  predicate FillsRight(q: Query, g: nat)
    requires QueryOk(q)
  {
    if q.all then q.to < q.start + q.interval
    else FirstTick(q) == LeastTick(q) || g == LeastTick(q) < FirstTick(q)
  }

  /** The grid, seen from one of its points. */
  lemma {:induction false} GridFrom(q: Query, g: nat)
    requires QueryOk(q) && IsTick(q, g) && !q.all
    ensures LeastTick(q) <= g
    ensures Grid(q) == Ticks(LeastTick(q), g, q.interval) + Ticks(g, q.to + 1, q.interval)
  {
    hide LeastTick, Ticks, Aligned;
    LeastTickIsLeast(q, g);
    MultiplesAligned(LeastTick(q), g, q.interval);
    AlignedSplit(LeastTick(q), g, q.to + 1, q.interval);
  }

  /**
   For every series with at least one accepted point: with a fill policy, the output times are exactly the grid
   points of the query if and only if filling starts at the first of them, or after it when that is the time of the
   first group; for `all`, if and only if the interval reaches past the end of the query.
   */
  lemma {:induction false} FilledGridIff(q: Query, kind: Kind, xs: seq<Item>)
    requires QueryOk(q) && q.fill && Series(q, xs) && Groups(q, xs) != []
    ensures TimesOf(Down(q, kind, xs)) == Grid(q) <==> FillsRight(q, Groups(q, xs)[0].t)
  {
    hide Groups, Finish, Ticks, FirstTick, LeastTick, Step, Aligned, Series;
    var gs, i := Groups(q, xs), q.interval;
    var g, end := gs[0].t, q.to + 1;
    GroupsAscend(q, xs);
    AscendingInStep(q, gs);
    FilledTimes(q, kind, gs);
    assert IsTick(q, g);
    if q.all {
      AllFirst(q);
      SameTicks(q.start, q.start, g, i);
      NoTicks(q.start, i);
      OneTick(q.start, end, i);
      assert [] + Ticks(g, end, i) == Ticks(g, end, i);
    } else {
      GridFrom(q, g);
      CancelRight(Ticks(FirstTick(q), g, i), Ticks(LeastTick(q), g, i), Ticks(g, end, i));
      SameTicks(FirstTick(q), LeastTick(q), g, i);
    }
  }

  lemma {:induction false} AllFirst(q: Query)
    requires QueryOk(q) && q.all
    ensures FirstTick(q) == q.start
  {
  }

  /** A query whose filled output has the times of the grid, whatever the series. */
  ghost predicate KeepsGrid(q: Query, kind: Kind)
    requires QueryOk(q)
  {
    forall xs: seq<Item> | Series(q, xs) && Groups(q, xs) != [] :: TimesOf(Down(q, kind, xs)) == Grid(q)
  }

  /**
   That is so exactly when filling starts at the first grid point; or when the range has no grid point at all; or when
   it has only one and filling starts after it.  For `all`, exactly when the interval reaches past the end.
   */
  lemma {:induction false} KeepsGridIff(q: Query, kind: Kind)
    requires QueryOk(q) && q.fill
    ensures KeepsGrid(q, kind) <==>
            if q.all then q.to < q.start + q.interval
            else
              || FirstTick(q) == LeastTick(q)
              || q.to < LeastTick(q)
              || (q.to < LeastTick(q) + q.interval && LeastTick(q) < FirstTick(q))
  {
    hide Down, Grid, Series, Groups, FirstTick, LeastTick, Step;
    var least := LeastTick(q);
    LeastTickIsLeast(q, least);
    forall xs: seq<Item> | Series(q, xs) && Groups(q, xs) != []
      ensures TimesOf(Down(q, kind, xs)) == Grid(q) <==> FillsRight(q, Groups(q, xs)[0].t)
      ensures IsTick(q, Groups(q, xs)[0].t) && least <= Groups(q, xs)[0].t
      ensures q.to < least + q.interval && !q.all ==> Groups(q, xs)[0].t == least
    {
      FilledGridIff(q, kind, xs);
      GroupsAscend(q, xs);
      var g := Groups(q, xs)[0].t;
      assert IsTick(q, g);
      LeastTickIsLeast(q, g);
      if least < g && !q.all { NoMultipleBetween(least, g, q.interval); }
    }
    if least <= q.to { OnePoint(q, least); }
    if least + q.interval <= q.to && !q.all {
      NextIsMultiple(least, q.interval);
      OnePoint(q, least + q.interval);
    }
  }

  /** One point at a grid point is a series whose only group is there. */
  lemma {:induction false} OnePoint(q: Query, t: nat)
    requires QueryOk(q) && IsTick(q, t)
    ensures var xs := [Item(t, Single(0.0))]; Series(q, xs) && Groups(q, xs) != [] && Groups(q, xs)[0].t == t
  {
    hide Floor;
    assert Step(q, t) == t by {
      if !q.all {
        assert t == q.interval * (t / q.interval);
        FloorIs(t, q.interval, t / q.interval);
      }
    }
    assert [Item(t, Single(0.0))][..0] == [];
  }

  lemma {:induction false} FloorSame(t: nat, i: nat)
    requires i > 0
    ensures Floor(t, i) == t <==> t % i == 0
  {
  }

  /** Without an accepted point, filling starts an interval after the origin. */
  lemma {:induction false} NothingFilled(q: Query, kind: Kind, xs: seq<Item>)
    requires QueryOk(q) && q.fill && Groups(q, xs) == []
    ensures TimesOf(Down(q, kind, xs)) == Ticks(q.origin + q.interval, q.to + 1, q.interval)
  {
    hide Groups, Fillers, Ticks, TimesOf;
    FillerTimes(q, q.origin + q.interval, q.to + 1);
    assert Down(q, kind, xs) == [] + Fillers(q, q.origin + q.interval, q.to + 1);
    assert [] + Fillers(q, q.origin + q.interval, q.to + 1) == Fillers(q, q.origin + q.interval, q.to + 1);
  }

  /**
   As it was asked, a query without an accepted point is filled at exactly the grid points if and only if the start of
   the query is not one of them; otherwise, and for `all`, the first is missing.
   */
  lemma {:induction false} NothingKeepsGridIff(all: bool, interval: nat, start: nat, to: nat, kind: Kind, xs: seq<Item>)
    requires start <= to && Groups(Asked(all, interval, start, to, true), xs) == []
    ensures var q := Asked(all, interval, start, to, true);
            TimesOf(Down(q, kind, xs)) == Grid(q) <==> !all && start % q.interval != 0
  {
    hide Groups, Down, Ticks, TimesOf, Floor;
    var q := Asked(all, interval, start, to, true);
    NothingFilled(q, kind, xs);
    if all {
      NoTicks(to + 1, q.interval);
    } else {
      SameTicks(q.origin + q.interval, LeastTick(q), to + 1, q.interval);
      FloorSame(start, q.interval);
    }
  }

  // ---------------------------------------------------------------- as asked, and after a change of interval

  /** As it was asked, a query keeps the grid. */
  lemma {:induction false} AskedKeepsGrid(all: bool, interval: nat, start: nat, to: nat, kind: Kind)
    requires start <= to
    ensures KeepsGrid(Asked(all, interval, start, to, true), kind)
  {
    hide KeepsGrid, Floor;
    KeepsGridIff(Asked(all, interval, start, to, true), kind);
  }

  /** So it does with rollup entries, when the interval asked for is a whole number of hours, or of days. */
  lemma {:induction false} RolledKeepsGrid(interval: nat, start: nat, to: nat, kind: Kind)
    requires start <= to && HOUR <= interval && interval % (if interval < 86400 then 3600 else 86400) == 0
    ensures KeepsGrid(Rolled(Asked(false, interval, start, to, true)), kind)
  {
    hide KeepsGrid;
    RolledSameIff(interval);
    AskedKeepsGrid(false, interval, start, to, kind);
  }

  lemma {:induction false} OneOutputFilled(q: Query, kind: Kind, x: Item)
    requires QueryOk(q) && q.fill && IsTick(q, x.t)
    ensures TimesOf(Down(q, kind, [x])) == Ticks(FirstTick(q), x.t, q.interval) + Ticks(x.t, q.to + 1, q.interval)
  {
    hide Finish, Ticks, FirstTick, Floor;
    assert Step(q, x.t) == x.t by {
      if !q.all {
        assert x.t == q.interval * (x.t / q.interval);
        FloorIs(x.t, q.interval, x.t / q.interval);
      }
    }
    assert [x][..0] == [] && Groups(q, [x]) == [x];
    FilledTimes(q, kind, [x]);
  }

  /** 100 minutes from 12001 on: two hours are used, and the filler is at 19200 instead of 14400. */
  lemma {:induction false} FillsOffGrid(kind: Kind, s: Stats)
    ensures var q := Rolled(Asked(false, 6000, 12001, 21600, true));
            && q == Query(false, 7200, 12000, 12001, 21600, true)
            && Grid(q) == [14400, 21600] && TimesOf(Down(q, kind, [Item(21600, s)])) == [19200, 21600]
  {
    hide Down, Ticks, TimesOf;
    var q := Rolled(Asked(false, 6000, 12001, 21600, true));
    assert q == Query(false, 7200, 12000, 12001, 21600, true);
    OneOutputFilled(q, kind, Item(21600, s));
    OneTick(14400, 21601, 7200);
    OneTick(21600, 21601, 7200);
    OneTick(19200, 21600, 7200);
  }

  /** 83 minutes from 4979 on: an hour is used, and the filler is before the start of the query. */
  lemma {:induction false} FillsBeforeStart(kind: Kind, s: Stats)
    ensures var q := Rolled(Asked(false, 4980, 4979, 7200, true));
            && q == Query(false, 3600, 0, 4979, 7200, true)
            && Grid(q) == [7200] && TimesOf(Down(q, kind, [Item(7200, s)])) == [3600, 7200]
  {
    hide Down, Ticks, TimesOf;
    var q := Rolled(Asked(false, 4980, 4979, 7200, true));
    assert q == Query(false, 3600, 0, 4979, 7200, true);
    OneOutputFilled(q, kind, Item(7200, s));
    OneTick(3600, 7200, 3600);
    OneTick(7200, 7201, 3600);
  }

  /** The whole of 0 to 5000: an hour is used, and a filler follows the only value. */
  lemma {:induction false} FillsAfterAll(kind: Kind, s: Stats)
    ensures var q := Rolled(Asked(true, 0, 0, 5000, true));
            && q == Query(true, 3600, 0, 0, 5000, true)
            && Grid(q) == [0] && TimesOf(Down(q, kind, [Item(0, s)])) == [0, 3600]
  {
    hide Down, Ticks, TimesOf;
    var q := Rolled(Asked(true, 0, 0, 5000, true));
    assert q == Query(true, 3600, 0, 0, 5000, true);
    OneOutputFilled(q, kind, Item(0, s));
    NoTicks(0, 3600);
    OneTick(0, 5001, 3600);
    OneTick(3600, 5001, 3600);
  }
}
