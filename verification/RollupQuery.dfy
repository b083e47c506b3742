/**
 Queries over rollup files: when what a downsampler makes of the entries that `RollupManager` wrote, as a
 query reads them back, is what it would have made of the points themselves.
 */
module RollupQuery {
  import opened Calendar
  import opened Stats
  import opened RollupManager
  import opened RollupReader
  import opened RollupShared
  import opened Downsample
  import opened DownsampleMeaning
  import Downsampler

  /** The points of the hours that begin in a range. */
  function OfHours(ps: seq<Sample>, from: nat, to: nat): seq<Sample> {
    if ps == [] then []
    else
      var p := ps[|ps| - 1];
      OfHours(ps[..|ps| - 1], from, to) + if from <= HourOf(p.ts) < to then [p] else []
  }

  /** In a range of whole hours these are the points of the range. */
  lemma {:induction false} WholeHours(ps: seq<Sample>, p: Sample, from: nat, to: nat)
    requires from % HOUR == 0 && to % HOUR == 0
    ensures p in OfHours(ps, from, to) <==> p in ps && from <= p.ts < to
  {
    hide HourOf;
    if ps != [] {
      var q := ps[|ps| - 1];
      WholeHours(ps[..|ps| - 1], p, from, to);
      if HourOf(q.ts) < from { HoursApart(HourOf(q.ts), from); }
      if HourOf(q.ts) < to { HoursApart(HourOf(q.ts), to); }
      assert ps == ps[..|ps| - 1] + [q];
    }
  }

  // ---------------------------------------------------------------- the points by the hour

  lemma {:induction false} HourIsStep(ts: nat)
    ensures QueryOk(Hourly) && Step(Hourly, ts) == HourOf(ts)
  {
  }

  lemma {:induction false} RawSnoc(ps: seq<Sample>, p: Sample)
    ensures QueryOk(Hourly)
    ensures Groups(Hourly, Raw(ps + [p])) == Merge(Groups(Hourly, Raw(ps)), Item(HourOf(p.ts), Single(p.v)))
  {
    hide Merge, Step, Groups, HourOf;
    assert (ps + [p])[..|ps|] == ps;
    HourIsStep(p.ts);
    GroupsSnoc(Hourly, Raw(ps), Item(p.ts, Single(p.v)));
  }

  /** In a run in order, the hours the points are counted in are their own. */
  lemma {:induction false} HoursAreOwn(ps: seq<Sample>)
    requires InOrder(ps)
    ensures QueryOk(Hourly) && HourGroups(Place(ps)) == Groups(Hourly, Raw(ps))
  {
    hide Merge, HourOf, Groups, Raw, Place, HourGroups;
    if ps == [] {
      NoGroups();
    } else {
      var k := |ps| - 1;
      var front, p := ps[..k], ps[k];
      HoursAreOwn(front);
      assert ps == front + [p];
      PointSnoc(front, p);
      GroupsMore(Place(front), Placed(HourOf(p.ts), p.v));
      RawSnoc(front, p);
    }
  }

  /** The groups are of ever later hours, up to the latest. */
  ghost predicate Rising(gs: seq<Item>, last: nat) {
    && (forall i | 0 <= i < |gs| :: gs[i].t <= last)
    && (forall i, j | 0 <= i < j < |gs| :: gs[i].t < gs[j].t)
  }

  lemma {:induction false} MergeRises(gs: seq<Item>, last: nat, x: Item)
    requires Rising(gs, last) && last <= x.t
    ensures Rising(Merge(gs, x), x.t)
  {
    hide Combine;
  }

  lemma {:induction false} GroupsRise(ps: seq<Sample>)
    requires InOrder(ps)
    ensures QueryOk(Hourly) && Rising(Groups(Hourly, Raw(ps)), Latest(ps))
  {
    hide Merge, Groups, HourOf, Rising, Raw;
    if ps == [] {
      assert Rising([], 0) by { RisingNone(); }
      NoGroups();
    } else {
      var k := |ps| - 1;
      GroupsRise(ps[..k]);
      RawSnoc(ps[..k], ps[k]);
      assert ps[..k] + [ps[k]] == ps;
      MergeRises(Groups(Hourly, Raw(ps[..k])), Latest(ps[..k]), Item(HourOf(ps[k].ts), Single(ps[k].v)));
    }
  }

  lemma {:induction false} RisingNone()
    ensures Rising([], 0)
  {
  }

  lemma {:induction false} NoGroups()
    ensures QueryOk(Hourly) && Groups(Hourly, Raw([])) == [] == HourGroups(Place([]))
  {
  }

  /** Merging an item before or after leaving out what is not in the range. */
  lemma {:induction false} WithinMerge(gs: seq<Item>, last: nat, x: Item, from: nat, to: nat)
    requires Rising(gs, last) && last <= x.t
    ensures Within(Merge(gs, x), from, to)
         == if from <= x.t < to then Merge(Within(gs, from, to), x) else Within(gs, from, to)
  {
    hide Combine, Within;
    var k := |gs| - 1;
    if gs != [] && gs[k].t == x.t {
      var y := Item(x.t, Combine(gs[k].s, x.s));
      WithinSnoc(gs[..k], gs[k], from, to);
      WithinSnoc(gs[..k], y, from, to);
      assert gs[..k] + [gs[k]] == gs;
      var w := Within(gs[..k], from, to);
      assert (w + [gs[k]])[..|w|] == w;
    } else {
      WithinSnoc(gs, x, from, to);
      WithinBelow(gs, x.t, from, to);
    }
  }

  lemma {:induction false} WithinBelow(gs: seq<Item>, t: nat, from: nat, to: nat)
    requires forall i | 0 <= i < |gs| :: gs[i].t < t
    ensures forall i | 0 <= i < |Within(gs, from, to)| :: Within(gs, from, to)[i].t < t
  {
    if gs != [] { WithinBelow(gs[..|gs| - 1], t, from, to); }
  }

  /** The groups within a range are the groups of the points of the hours of the range. */
  lemma {:induction false} GroupsWithin(ps: seq<Sample>, from: nat, to: nat)
    requires InOrder(ps)
    ensures QueryOk(Hourly)
    ensures Within(Groups(Hourly, Raw(ps)), from, to) == Groups(Hourly, Raw(OfHours(ps, from, to)))
  {
    hide Merge, Groups, HourOf, Rising, Raw, Latest, Within;
    if ps == [] {
      NoGroups();
      WithinAll([], from, to);
    } else {
      var k := |ps| - 1;
      var front, p := ps[..k], ps[k];
      var x := Item(HourOf(p.ts), Single(p.v));
      GroupsWithin(front, from, to);
      GroupsRise(front);
      assert front + [p] == ps;
      RawSnoc(front, p);
      RawSnoc(OfHours(front, from, to), p);
      WithinMerge(Groups(Hourly, Raw(front)), Latest(front), x, from, to);
      assert OfHours(front, from, to) + [] == OfHours(front, from, to);
    }
  }

  // ---------------------------------------------------------------- what is read is right

  /** With no month left out in the files of the range, a query reads the true hours. */
  lemma {:induction false} ReadRight(log: seq<Record>, t: nat, cur: Stats, from: nat, to: nat)
    requires LeadsTo(log, t) && Gapless(Part(log, BeginMonth(from), to))
    ensures Read(log, t, cur, from, to) == Within(AllEntries(log, t, cur), from, to)
  {
    hide MonthOf, Start, Part, Dated, Entries, Within, Orderly, Gapless;
    PartOrderly(log, BeginMonth(from), to);
    DatesRightIffGapless(Part(log, BeginMonth(from), to));
    EntriesInPart(log, from, to);
    if cur.cnt != 0 {
      WithinSnoc(Entries(log), Item(t, cur), from, to);
    } else {
      assert Entries(log) + [] == Entries(log);
    }
  }

  /** What is read of a range answers a query as the points of its hours would. */
  lemma {:induction false} EntriesAnswer(log: seq<Record>, t: nat, cur: Stats, ps: seq<Sample>,
                                         from: nat, to: nat, q: Query, kind: Kind)
    requires Inv(log, t, cur, Place(ps)) && InOrder(ps) && FinitePoints(Place(ps))
    requires Gapless(Part(log, BeginMonth(from), to))
    requires QueryOk(q) && (q.all || q.interval % HOUR == 0)
    ensures Down(q, kind, Read(log, t, cur, from, to)) == Down(q, kind, Raw(OfHours(ps, from, to)))
  {
    hide Down, InOrder, Place, HourGroups, Groups, Entries, Read, Part, Gapless, Within, OfHours, MonthOf, Start;
    ReadRight(log, t, cur, from, to);
    HoursAreOwn(ps);
    GroupsWithin(ps, from, to);
    RollupsAgree(q, kind, Raw(OfHours(ps, from, to)));
  }

  // ---------------------------------------------------------------- and only then

  /** A query of everything, hour by hour, that shows the times of the entries. */
  function Everything(t: nat): Query { Query(false, HOUR, 0, 0, t, false) }

  /** Entries of ever later hours are their own groups. */
  lemma {:induction false} OwnGroups(t: nat, xs: seq<Item>)
    requires forall i | 0 <= i < |xs| :: xs[i].t % HOUR == 0
    requires forall i | 0 < i < |xs| :: xs[i - 1].t < xs[i].t
    ensures QueryOk(Everything(t)) && Groups(Everything(t), xs) == xs
    decreases |xs|
  {
    hide Combine, Floor;
    if xs != [] {
      var k := |xs| - 1;
      OwnGroups(t, xs[..k]);
      OwnStep(t, xs[k].t);
    }
  }

  lemma {:induction false} OwnStep(t: nat, u: nat)
    requires u % HOUR == 0
    ensures QueryOk(Everything(t)) && Step(Everything(t), u) == u
  {
  }

  lemma {:induction false} PlainOutput(q: Query, kind: Kind, gs: seq<Item>)
    requires QueryOk(q) && !q.fill
    ensures |Render(q, kind, gs)| == |gs| && forall i | 0 <= i < |gs| :: Render(q, kind, gs)[i].t == gs[i].t
    decreases |gs|
  {
    hide Result, FirstTick;
    if gs != [] { PlainOutput(q, kind, gs[..|gs| - 1]); }
  }

  /** The output then shows the times of the entries. */
  lemma {:induction false} ShowsTimes(t: nat, kind: Kind, xs: seq<Item>)
    requires forall i | 0 <= i < |xs| :: xs[i].t % HOUR == 0
    requires forall i | 0 < i < |xs| :: xs[i - 1].t < xs[i].t
    ensures QueryOk(Everything(t))
    ensures |Down(Everything(t), kind, xs)| == |xs|
    ensures forall i | 0 <= i < |xs| :: Down(Everything(t), kind, xs)[i].t == xs[i].t
  {
    hide Groups, Render, Step;
    OwnGroups(t, xs);
    PlainOutput(Everything(t), kind, xs);
  }

  /** As dated, the entries are of ever later hours, before the hours they are about or at them. */
  lemma {:induction false} DatedRises(log: seq<Record>)
    requires Orderly(log)
    ensures forall i | 0 <= i < |Dated(log)| :: Dated(log)[i].t % HOUR == 0
    ensures forall i | 0 < i < |Dated(log)| :: Dated(log)[i - 1].t < Dated(log)[i].t
    ensures forall i | 0 <= i < |Dated(log)| :: Dated(log)[i].t <= LastDate(log)
  {
    hide MonthOf, Start, LastHour, Follows;
    if log != [] {
      var k := |log| - 1;
      DatedRises(log[..k]);
      DateIsHour(log);
      assert k > 0 ==> LastDate(log[..k]) < LastDate(log);
    }
  }

  lemma {:induction false} DateIsHour(log: seq<Record>)
    requires Orderly(log) && log != []
    ensures LastDate(log) % HOUR == 0 && log[0].month % HOUR == 0
    decreases |log|
  {
    hide MonthOf, Start, LastHour, Follows;
    if |log| == 1 {
      BeginIsHour(LastHour(log));
    } else {
      DateIsHour(log[..|log| - 1]);
      assert log[..|log| - 1][0] == log[0];
    }
  }

  lemma {:induction false} WholePart(log: seq<Record>, t: nat)
    requires forall i | 0 <= i < |log| :: log[i].month < t
    ensures Part(log, 0, t) == log
  {
    if log != [] { WholePart(log[..|log| - 1], t); }
  }

  /** Up to the current hour and with it, a query reads all entries as the clock dates them. */
  lemma {:induction false} ReadEverything(log: seq<Record>, t: nat, cur: Stats)
    requires LeadsTo(log, t)
    ensures Read(log, t, cur, 0, t + 1) == Dated(log) + if cur.cnt != 0 then [Item(t, cur)] else []
    ensures log != [] ==> LastDate(log) < t
  {
    hide MonthOf, Start, LastHour, Dated, Part, Within, Orderly, LastDate;
    forall i | 0 <= i < |log| ensures log[i].month < t + 1 {
      MonthsSorted(log, i);
      LastMonthBefore(log, t);
    }
    WholePart(log, t + 1);
    BeginOfTime();
    DatedRises(log);
    if log == [] { DatedNone(); } else { ClockLags(log); }
    WithinAll(Dated(log), 0, t + 1);
  }

  lemma {:induction false} DatedNone()
    ensures Dated([]) == [] == Entries([])
  {
  }

  lemma {:induction false} BeginOfTime()
    ensures BeginMonth(0) == 0
  {
    hide MonthOf, Start;
    BeginIsHour(0);
  }

  lemma {:induction false} LastMonthBefore(log: seq<Record>, t: nat)
    requires LeadsTo(log, t) && log != []
    ensures log[|log| - 1].month <= t
  {
    hide MonthOf, Start, LastHour;
    BeginIsHour(LastHour(log));
  }

  lemma {:induction false} SameStats(log: seq<Record>)
    ensures |Dated(log)| == |Entries(log)|
    ensures forall i | 0 <= i < |Dated(log)| :: Dated(log)[i].s == Entries(log)[i].s
  {
    hide LastHour, LastDate;
    if log != [] { SameStats(log[..|log| - 1]); }
  }

  lemma {:induction false} EntriesRise(log: seq<Record>)
    requires Orderly(log)
    ensures forall i | 0 <= i < |Entries(log)| :: Entries(log)[i].t % HOUR == 0
    ensures forall i | 0 < i < |Entries(log)| :: Entries(log)[i - 1].t < Entries(log)[i].t
    ensures forall i | 0 <= i < |Entries(log)| :: Entries(log)[i].t <= LastHour(log)
  {
    hide MonthOf, Start, LastHour;
    if log != [] {
      EntriesRise(log[..|log| - 1]);
      LastIsHour(log);
    }
  }

  lemma {:induction false} RisesTo(xs: seq<Item>, x: Item)
    requires forall i | 0 <= i < |xs| :: xs[i].t < x.t
    requires forall i | 0 < i < |xs| :: xs[i - 1].t < xs[i].t
    ensures forall i | 0 < i < |xs + [x]| :: (xs + [x])[i - 1].t < (xs + [x])[i].t
  {
  }

  /** If the query of everything gives the same output, the entries are dated right. */
  lemma {:induction false} OutputTellsDates(log: seq<Record>, t: nat, cur: Stats, kind: Kind)
    requires LeadsTo(log, t) && t % HOUR == 0 && cur.cnt != 0 && QueryOk(Everything(t))
    requires Down(Everything(t), kind, Dated(log) + [Item(t, cur)])
          == Down(Everything(t), kind, Entries(log) + [Item(t, cur)])
    ensures Gapless(log)
  {
    hide Down, Dated, Entries, Orderly, MonthOf, Start, Gapless, LastHour, LastDate;
    var xs, ys := Dated(log) + [Item(t, cur)], Entries(log) + [Item(t, cur)];
    ReadEverything(log, t, cur);
    DatedRises(log);
    EntriesRise(log);
    SameStats(log);
    if log == [] { DatedNone(); }
    RisesTo(Dated(log), Item(t, cur));
    RisesTo(Entries(log), Item(t, cur));
    ShowsTimes(t, kind, xs);
    ShowsTimes(t, kind, ys);
    forall i | 0 <= i < |Dated(log)| ensures Dated(log)[i] == Entries(log)[i] {
      assert xs[i] == Dated(log)[i] && ys[i] == Entries(log)[i];
    }
    DatesRightIffGapless(log);
  }

  /** Every query, of any range, interval of hours and kind, is answered as the points would answer it. */
  ghost predicate AnswersRight(log: seq<Record>, t: nat, cur: Stats, ps: seq<Sample>) {
    forall from: nat, to: nat, q: Query, kind: Kind | QueryOk(q) && (q.all || q.interval % HOUR == 0) ::
      Down(q, kind, Read(log, t, cur, from, to)) == Down(q, kind, Raw(OfHours(ps, from, to)))
  }

  lemma {:induction false} AllOfHours(ps: seq<Sample>, to: nat)
    requires Latest(ps) < to
    ensures OfHours(ps, 0, to) == ps
  {
    hide HourOf;
    if ps != [] { AllOfHours(ps[..|ps| - 1], to); }
  }

  lemma {:induction false} RightImpliesGapless(log: seq<Record>, t: nat, cur: Stats, ps: seq<Sample>)
    requires Inv(log, t, cur, Place(ps)) && InOrder(ps) && FinitePoints(Place(ps)) && t == Latest(ps) && ps != []
    requires AnswersRight(log, t, cur, ps)
    ensures Gapless(log)
  {
    hide Down, InOrder, Place, HourGroups, Groups, Entries, Read, Part, Gapless, Within, OfHours, MonthOf, Start,
         Latest, LeadsTo;
    CurrentNotEmpty(log, t, cur, ps);
    ReadEverything(log, t, cur);
    HoursAreOwn(ps);
    var q := Everything(t);
    RollupsAgree(q, Counting, Raw(ps));
    AllOfHours(ps, t + 1);
    OutputTellsDates(log, t, cur, Counting);
  }

  /** Every query is answered right exactly when no month was skipped before the current hour came. */
  lemma {:induction false} AnswersRightIffSkipFree(log: seq<Record>, t: nat, cur: Stats, ps: seq<Sample>)
    requires Inv(log, t, cur, Place(ps)) && InOrder(ps) && FinitePoints(Place(ps)) && t == Latest(ps) && ps != []
    requires SameGaps(log, t, ps)
    ensures AnswersRight(log, t, cur, ps) <==> SkipFree(Settled(ps))
  {
    hide Down, InOrder, Place, HourGroups, Groups, Entries, Read, Part, Gapless, Within, OfHours, MonthOf, Start,
         Latest, Orderly, Settled, SkipFree;
    if SkipFree(Settled(ps)) {
      forall from: nat, to: nat, q: Query, kind: Kind | QueryOk(q) && (q.all || q.interval % HOUR == 0)
        ensures Down(q, kind, Read(log, t, cur, from, to)) == Down(q, kind, Raw(OfHours(ps, from, to)))
      {
        PartGapless(log, BeginMonth(from), to);
        EntriesAnswer(log, t, cur, ps, from, to, q, kind);
      }
    }
    if AnswersRight(log, t, cur, ps) { RightImpliesGapless(log, t, cur, ps); }
  }

  // ---------------------------------------------------------------- January and March

  /** After a full January, the first entry of March is read as an entry of the first of February. */
  lemma {:induction false} SkippedFebruary(january: seq<Stats>, e: Stats)
    requires |january| == 744 && e.cnt > 0
    ensures var log := Records(0, january) + [Record(Start(2), e)];
            && Entries(log) == Entries(Records(0, january)) + [Item(Start(2), e)]
            && Dated(log) == Dated(Records(0, january)) + [Item(Start(1), e)]
            && Start(1) == 31 * DAY && Start(2) == 59 * DAY
  {
    hide Dated, Entries, Records, LastHour, Start;
    assert Start(1) == 31 * DAY && Start(2) == 59 * DAY by { EarlyMonths(); }
    var log := Records(0, january);
    EntriesSnoc(log, Record(Start(2), e));
    DatedSnoc(log, Record(Start(2), e));
    LastHourSnoc(log, Record(Start(2), e));
    NoFile(log, Start(2));
  }

  lemma {:induction false} EarlyMonths()
    ensures Start(0) == 0 && Start(1) == 31 * DAY && Start(2) == 59 * DAY
  {
    assert DaysIn(0) == 31 && DaysIn(1) == 28;
  }

  /** Points at the start of January, at the start of March and an hour later skip a month. */
  lemma {:induction false} JanuaryThenMarch(v: real)
    ensures var ps := [Sample(0, v), Sample(Start(2), v), Sample(Start(2) + HOUR, v)];
            InOrder(ps) && !SkipFree(Settled(ps))
  {
    hide Start, MonthOf, Latest, InOrder, Settled, SkipFree;
    var a, b, c := Sample(0, v), Sample(Start(2), v), Sample(Start(2) + HOUR, v);
    EarlyMonths();
    StartsItself(0);
    StartsItself(2);
    LatestNone();
    PointSnoc([], a);
    PointSnoc([a], b);
    PointSnoc([a, b], c);
    assert [] + [a] == [a] && [a] + [b] == [a, b] && [a, b] + [c] == [a, b, c];
    SettledSnoc([a], b);
    SettledSnoc([a, b], c);
  }

  // ---------------------------------------------------------------- end to end

  lemma {:induction false} EntriesNotEmpty(log: seq<Record>)
    ensures forall i | 0 <= i < |Dated(log)| :: Dated(log)[i].s.cnt > 0
  {
    hide LastDate;
    if log != [] { EntriesNotEmpty(log[..|log| - 1]); }
  }

  lemma {:induction false} WithinNotEmpty(xs: seq<Item>, from: nat, to: nat)
    requires forall i | 0 <= i < |xs| :: xs[i].s.cnt > 0
    ensures forall i | 0 <= i < |Within(xs, from, to)| :: Within(xs, from, to)[i].s.cnt > 0
  {
    if xs != [] { WithinNotEmpty(xs[..|xs| - 1], from, to); }
  }

  lemma {:induction false} PlacedFinite(ps: seq<Sample>)
    requires FiniteSamples(ps)
    ensures FinitePoints(Place(ps))
  {
    if ps != [] { PlacedFinite(ps[..|ps| - 1]); }
  }

  /** `query_rollup_hourly` for one series: its files, whatever else they hold, then its current hour. */
  method QueryHourly(m: RollupManager, tid: nat, files: map<nat, seq<Tagged>>, from: nat, to: nat)
    returns (items: seq<Item>)
    requires m.Valid() && HoldLogs(files, map[tid := m.log])
    ensures items == Read(m.log, m.tstamp, m.cur, from, to)
    ensures forall i | 0 <= i < |items| :: items[i].s.cnt > 0
  {
    hide MonthOf, Start, Part, Dated, Within, InOrder, Place, Latest, SameGaps, HoldLogs, Lost, Answered;
    var query := new SharedQuery({tid});
    ghost var logs := map[tid := m.log];
    assert logs.Keys == {tid} && query.tasks == map t | t in logs :: NewTask;
    query.Query(files, from, to, logs);
    items := query.tasks[tid].items;
    EntriesNotEmpty(Part(m.log, BeginMonth(from), to));
    WithinNotEmpty(Dated(Part(m.log, BeginMonth(from), to)), from, to);
    if InRange(from, to, m.tstamp) == 0 && m.cur.cnt != 0 {
      items := items + [Item(m.tstamp, m.cur)];
    }
  }

  lemma {:induction false} ValidOrderly(m: RollupManager)
    requires m.Valid()
    ensures Orderly(m.log)
  {
  }

  /** With an interval of at least an hour, rollup entries are used, in whole hours. */
  lemma {:induction false} RolledInHours(all: bool, interval: nat, start: nat, to: nat, fill: bool)
    requires start <= to && HOUR <= Asked(all, interval, start, to, fill).interval
    ensures Rolled(Asked(all, interval, start, to, fill)).interval % HOUR == 0
  {
    hide RolledInterval, Floor;
    RolledIsNearest(Asked(all, interval, start, to, fill).interval);
  }

  /**
   Rolling a series up and performing a query of at least an hour over a range of it.  If the points came in the
   order of their hours and no month was skipped before the current hour, the output is the one that the points of
   the hours of the range would give in the same state of the downsampler.
   */
  method RollUpAndQuery(ps: seq<Sample>, from: nat, to: nat,
                        all: bool, interval: nat, start: nat, end: nat, fill: bool, kind: Kind)
    returns (m: RollupManager, out: seq<Point>)
    requires start <= end && HOUR <= Asked(all, interval, start, end, fill).interval
    ensures m.Valid() && m.points == ps
    ensures var q := Rolled(Asked(all, interval, start, end, fill));
            && out == Down(q, kind, Read(m.log, m.tstamp, m.cur, from, to))
            && (InOrder(ps) && FiniteSamples(ps) && SkipFree(Settled(ps)) ==>
                  out == Down(q, kind, Raw(OfHours(ps, from, to))))
    ensures ps != [] && InOrder(ps) && FiniteSamples(ps) ==>
              (AnswersRight(m.log, m.tstamp, m.cur, ps) <==> SkipFree(Settled(ps)))
  {
    hide Down, InOrder, Place, Inv, SameGaps, Read, OfHours, Settled, SkipFree, AnswersRight, Latest, Asked, Rolled,
         FiniteSamples, FilesOf, HoldLogs;
    m := RollUp(ps);
    ValidOrderly(m);
    FilesHold(m.log, 0);
    var items := QueryHourly(m, 0, FilesOf(m.log, 0), from, to);
    out := Downsampler.Run(all, interval, start, end, fill, true, kind, items);
    ghost var q := Rolled(Asked(all, interval, start, end, fill));
    RolledInHours(all, interval, start, end, fill);
    if ps == [] {
      ReadNothing(m.log, m.tstamp, m.cur, from, to);
    } else if InOrder(ps) && FiniteSamples(ps) {
      PlacedFinite(ps);
      AnswersRightIffSkipFree(m.log, m.tstamp, m.cur, ps);
      if SkipFree(Settled(ps)) { OneRight(m.log, m.tstamp, m.cur, ps, from, to, q, kind); }
    }
  }

  lemma {:induction false} OneRight(log: seq<Record>, t: nat, cur: Stats, ps: seq<Sample>,
                                    from: nat, to: nat, q: Query, kind: Kind)
    requires AnswersRight(log, t, cur, ps) && QueryOk(q) && (q.all || q.interval % HOUR == 0)
    ensures Down(q, kind, Read(log, t, cur, from, to)) == Down(q, kind, Raw(OfHours(ps, from, to)))
  {
    hide Down, Read, OfHours;
  }

  lemma {:induction false} ReadNothing(log: seq<Record>, t: nat, cur: Stats, from: nat, to: nat)
    requires log == [] && cur == Empty
    ensures Read(log, t, cur, from, to) == Raw(OfHours([], from, to))
  {
  }
}
