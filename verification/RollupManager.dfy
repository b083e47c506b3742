/**
 `RollupManager` of src/agg/rollup.cpp for one time series: points are gathered hour by hour, and the
 entries of a month's file carry no time, so that the position of an entry stands for its hour.
 */
module RollupManager {
  import opened Calendar
  import opened Stats

  const HOUR: nat := 3600

  datatype Sample = Sample(ts: nat, v: real)

  function HourOf(ts: nat): (h: nat)
    ensures h <= ts < h + HOUR && h % HOUR == 0
  {
    ts - ts % HOUR
  }

  // ---------------------------------------------------------------- where points go

  /** A value and the hour it was counted in. */
  datatype Placed = Placed(hour: nat, v: real)

  /** The hour that is current after `ps`: the latest of their hours. */
  function Latest(ps: seq<Sample>): nat {
    if ps == [] then 0
    else
      var h, before := HourOf(ps[|ps| - 1].ts), Latest(ps[..|ps| - 1]);
      if before < h then h else before
  }

  /** Every point is counted in the hour that is current when it has arrived. */
  function Place(ps: seq<Sample>): (r: seq<Placed>)
    ensures |r| == |ps|
  {
    if ps == [] then [] else Place(ps[..|ps| - 1]) + [Placed(Latest(ps), ps[|ps| - 1].v)]
  }

  function ValuesAt(qs: seq<Placed>, hour: nat): seq<real> {
    if qs == [] then []
    else
      var q := qs[|qs| - 1];
      ValuesAt(qs[..|qs| - 1], hour) + if q.hour == hour then [q.v] else []
  }

  /** No point belongs to an hour before the one that was current when it arrived. */
  predicate InOrder(ps: seq<Sample>) {
    ps == [] || (InOrder(ps[..|ps| - 1]) && Latest(ps[..|ps| - 1]) <= HourOf(ps[|ps| - 1].ts))
  }

  /** The current hour is the latest hour of any point. */
  lemma {:induction false} LatestMeaning(ps: seq<Sample>)
    ensures forall i | 0 <= i < |ps| :: HourOf(ps[i].ts) <= Latest(ps)
    ensures ps != [] ==> exists i | 0 <= i < |ps| :: HourOf(ps[i].ts) == Latest(ps)
  {
    hide HourOf;
    if ps != [] {
      var k := |ps| - 1;
      var front := ps[..k];
      LatestMeaning(front);
      assert forall i | 0 <= i < k :: front[i] == ps[i];
      if k > 0 {
        var i :| 0 <= i < k && HourOf(front[i].ts) == Latest(front);
        assert HourOf(ps[i].ts) == Latest(front);
      }
      assert HourOf(ps[k].ts) <= Latest(ps);
    }
  }

  lemma {:induction false} LatestNone()
    ensures Latest([]) == 0 && Place([]) == [] && InOrder([])
  {
  }

  /** A run is in order exactly when hours never go back. */
  lemma {:induction false} InOrderMeaning(ps: seq<Sample>)
    ensures InOrder(ps) <==> forall i, j | 0 <= i < j < |ps| :: HourOf(ps[i].ts) <= HourOf(ps[j].ts)
  {
    hide HourOf, Latest;
    if ps != [] {
      var k := |ps| - 1;
      var front := ps[..k];
      InOrderMeaning(front);
      LatestMeaning(front);
      assert forall i | 0 <= i < k :: front[i] == ps[i];
      if k == 0 {
        LatestNone();
      } else {
        var i :| 0 <= i < k && HourOf(front[i].ts) == Latest(front);
        assert HourOf(ps[i].ts) == Latest(front);
      }
    }
  }

  /** The values of the points of one hour. */
  function OwnValues(ps: seq<Sample>, hour: nat): seq<real> {
    if ps == [] then []
    else
      var p := ps[|ps| - 1];
      OwnValues(ps[..|ps| - 1], hour) + if HourOf(p.ts) == hour then [p.v] else []
  }

  /** In a run in order, every point is counted in its own hour. */
  lemma {:induction false} InOrderPlaces(ps: seq<Sample>, hour: nat)
    requires InOrder(ps)
    ensures ValuesAt(Place(ps), hour) == OwnValues(ps, hour)
  {
    hide HourOf;
    if ps != [] {
      InOrderPlaces(ps[..|ps| - 1], hour);
      assert Place(ps)[..|ps| - 1] == Place(ps[..|ps| - 1]);
    }
  }

  // ---------------------------------------------------------------- the files

  /** An entry appended to the file of a month. */
  datatype Record = Record(month: nat, entry: Stats)

  /** The file of a month: its entries in the order they were appended. */
  function FileOf(log: seq<Record>, month: nat): seq<Stats> {
    if log == [] then []
    else
      var r := log[|log| - 1];
      FileOf(log[..|log| - 1], month) + if r.month == month then [r.entry] else []
  }

  lemma {:induction false} FileSnoc(log: seq<Record>, r: Record, month: nat)
    ensures FileOf(log + [r], month) == FileOf(log, month) + if r.month == month then [r.entry] else []
  {
    assert (log + [r])[..|log|] == log;
  }

  lemma {:induction false} ValuesSnoc(qs: seq<Placed>, q: Placed, hour: nat)
    ensures ValuesAt(qs + [q], hour) == ValuesAt(qs, hour) + if q.hour == hour then [q.v] else []
  {
    assert (qs + [q])[..|qs|] == qs;
  }

  /** The hour that the position of the last record in its file stands for. */
  function LastHour(log: seq<Record>): nat
    requires log != []
  {
    var k := |log| - 1;
    log[k].month + HOUR * |FileOf(log[..k], log[k].month)|
  }

  lemma {:induction false} LastHourSnoc(log: seq<Record>, r: Record)
    ensures LastHour(log + [r]) == r.month + HOUR * |FileOf(log, r.month)|
  {
    assert (log + [r])[..|log|] == log;
  }

  function Total(log: seq<Record>): nat {
    if log == [] then 0 else Total(log[..|log| - 1]) + log[|log| - 1].entry.cnt
  }

  // ---------------------------------------------------------------- reading the files back

  /** The entries that are not empty, each with the hour that its position in its file stands for. */
  function Entries(log: seq<Record>): seq<Item> {
    if log == [] then []
    else
      var k := |log| - 1;
      Entries(log[..k]) + if log[k].entry.cnt == 0 then [] else [Item(LastHour(log), log[k].entry)]
  }

  /** The entries, and the current hour unless it is empty. */
  function AllEntries(log: seq<Record>, t: nat, cur: Stats): seq<Item> {
    Entries(log) + if cur.cnt == 0 then [] else [Item(t, cur)]
  }

  /** The points gathered by the hour they are counted in. */
  function HourGroups(qs: seq<Placed>): seq<Item> {
    if qs == [] then []
    else Merge(HourGroups(qs[..|qs| - 1]), Item(qs[|qs| - 1].hour, Single(qs[|qs| - 1].v)))
  }

  predicate FinitePoints(qs: seq<Placed>) { forall i | 0 <= i < |qs| :: -LIMIT <= qs[i].v <= LIMIT }

  /** The entries are the hours that hold points, in order. */
  ghost predicate Listed(log: seq<Record>, t: nat, cur: Stats, qs: seq<Placed>) {
    && (FinitePoints(qs) ==> AllEntries(log, t, cur) == HourGroups(qs))
    && (forall i | 0 <= i < |Entries(log)| :: Entries(log)[i].t < t)
  }

  // ---------------------------------------------------------------- months left out

  /** Hour `b` comes right after hour `a`, or begins a later month when `a` was the last of its own. */
  predicate Follows(a: nat, b: nat) {
    a + HOUR == b || (a + HOUR < b && a + HOUR == EndMonth(a) && b == BeginMonth(b))
  }

  /** The records are about ever later hours, and months may be left out only as a whole. */
  predicate Orderly(log: seq<Record>) {
    log == [] ||
    (var k := |log| - 1;
     && Orderly(log[..k])
     && BeginMonth(LastHour(log)) == log[k].month
     && (k > 0 ==> Follows(LastHour(log[..k]), LastHour(log))))
  }

  /** The hours of the records lead up to hour `t`. */
  predicate LeadsTo(log: seq<Record>, t: nat) {
    Orderly(log) && (log != [] ==> Follows(LastHour(log), t))
  }

  /** No month is left out between two records. */
  predicate Tight(log: seq<Record>) {
    |log| <= 1 || (Tight(log[..|log| - 1]) && log[|log| - 1].month <= EndMonth(log[|log| - 2].month))
  }

  /** Nor between the last record and hour `t`. */
  predicate TightTo(log: seq<Record>, t: nat) {
    Tight(log) && (log != [] ==> BeginMonth(t) <= EndMonth(log[|log| - 1].month))
  }

  /** No month is left out before a record that is not empty. */
  predicate Gapless(log: seq<Record>) {
    log == [] || (Gapless(log[..|log| - 1]) && (log[|log| - 1].entry.cnt == 0 || Tight(log)))
  }

  /** No month is skipped between the hours that become current. */
  predicate SkipFree(ps: seq<Sample>) {
    |ps| <= 1 || (SkipFree(ps[..|ps| - 1]) && BeginMonth(Latest(ps)) <= EndMonth(Latest(ps[..|ps| - 1])))
  }

  /** The points that came before the current hour did. */
  function Settled(ps: seq<Sample>): seq<Sample> {
    if ps == [] then []
    else if Latest(ps[..|ps| - 1]) == Latest(ps) then Settled(ps[..|ps| - 1])
    else ps[..|ps| - 1]
  }

  /** Whether a month is left out, as the records tell and as the points tell. */
  ghost predicate SameGaps(log: seq<Record>, t: nat, ps: seq<Sample>) {
    (TightTo(log, t) <==> SkipFree(ps)) && (Gapless(log) <==> SkipFree(Settled(ps)))
  }

  lemma {:induction false} TightIsGapless(log: seq<Record>)
    requires Tight(log)
    ensures Gapless(log)
  {
    if log != [] { TightIsGapless(log[..|log| - 1]); }
  }

  /** Writing the current hour leaves no month out. */
  lemma {:induction false} FlushGaps(log: seq<Record>, t: nat, cur: Stats)
    requires t % HOUR == 0
    ensures var log' := log + [Record(BeginMonth(t), cur)];
            && (TightTo(log', t + HOUR) <==> TightTo(log, t))
            && (Gapless(log') <==> Gapless(log) && (cur.cnt == 0 || TightTo(log, t)))
  {
    hide MonthOf, Start;
    var log' := log + [Record(BeginMonth(t), cur)];
    assert log'[..|log|] == log;
    BeginTwice(t);
    NextHour(t);
    BeginIsHour(t);
  }

  lemma {:induction false} SettledSnoc(ps: seq<Sample>, p: Sample)
    ensures Settled(ps + [p]) == if HourOf(p.ts) <= Latest(ps) then Settled(ps) else ps
    ensures SkipFree(ps + [p]) <==>
            ps == [] || (SkipFree(ps) && BeginMonth(Latest(ps + [p])) <= EndMonth(Latest(ps)))
  {
    hide HourOf, MonthOf, Start;
    assert (ps + [p])[..|ps|] == ps;
  }

  // ---------------------------------------------------------------- the invariant

  function Hours(from: nat, to: nat): nat
    requires from <= to
  {
    (to - from) / HOUR
  }

  /** Entry `k` of a month's file tells about hour `k` of that month. */
  ghost predicate Right(log: seq<Record>, qs: seq<Placed>) {
    forall month: nat, k: nat | k < |FileOf(log, month)| ::
      FileOf(log, month)[k] == StatsOf(ValuesAt(qs, month + HOUR * k))
  }

  /** The file of the current month reaches up to hour `t`; other files are empty, or earlier and complete. */
  ghost predicate Complete(log: seq<Record>, t: nat) {
    forall month: nat {:trigger FileOf(log, month)} ::
      if month == BeginMonth(t) then |FileOf(log, month)| == Hours(month, t)
      else FileOf(log, month) != [] ==>
             && month == BeginMonth(month) < BeginMonth(t)
             && |FileOf(log, month)| == Hours(month, EndMonth(month))
  }

  /** Every point is in the current hour, or its month has been written. */
  ghost predicate Kept(log: seq<Record>, t: nat, qs: seq<Placed>) {
    forall i | 0 <= i < |qs| ::
      && qs[i].hour <= t && qs[i].hour % HOUR == 0
      && (BeginMonth(qs[i].hour) != BeginMonth(t) ==> FileOf(log, BeginMonth(qs[i].hour)) != [])
  }

  ghost predicate Inv(log: seq<Record>, t: nat, cur: Stats, qs: seq<Placed>) {
    && t % HOUR == 0 && Right(log, qs) && Complete(log, t) && Kept(log, t, qs)
    && cur == StatsOf(ValuesAt(qs, t)) && Listed(log, t, cur, qs)
    && Total(log) + cur.cnt == |qs|
    && LeadsTo(log, t)
  }

  lemma {:induction false} DayHours(a: nat, d: nat)
    requires a % HOUR == 0
    ensures (a + DAY * d) % HOUR == 0
  {
    if d > 0 {
      DayHours(a, d - 1);
      assert DAY * d == DAY * (d - 1) + 24 * HOUR;
    }
  }

  lemma {:induction false} MonthHours(m: nat)
    ensures Start(m) % HOUR == 0
  {
    hide DaysIn;
    if m > 0 {
      MonthHours(m - 1);
      DayHours(Start(m - 1), DaysIn(m - 1));
    }
  }

  lemma {:induction false} BeginIsHour(ts: nat)
    ensures BeginMonth(ts) % HOUR == 0 && EndMonth(ts) % HOUR == 0 && BeginMonth(ts) <= ts < EndMonth(ts)
  {
    hide Start, MonthOf;
    MonthHours(MonthOf(ts));
    MonthHours(MonthOf(ts) + 1);
  }

  lemma {:induction false} HoursApart(a: nat, b: nat)
    requires a % HOUR == 0 && b % HOUR == 0 && a < b
    ensures a + HOUR <= b
  {
  }

  /** The month of the next hour is this month, or the next one begins. */
  lemma {:induction false} NextHour(t: nat)
    requires t % HOUR == 0
    ensures t + HOUR < EndMonth(t) ==> BeginMonth(t + HOUR) == BeginMonth(t) && EndMonth(t + HOUR) == EndMonth(t)
    ensures t + HOUR >= EndMonth(t) ==> t + HOUR == EndMonth(t) == BeginMonth(t + HOUR)
  {
    hide Start, MonthOf;
    BeginIsHour(t);
    HoursApart(t, EndMonth(t));
    if t + HOUR < EndMonth(t) {
      MonthUnique(t + HOUR, MonthOf(t));
    } else {
      StartsItself(MonthOf(t) + 1);
    }
  }

  /** An hour on from `t` is not past `to` nor past the end of the month. */
  lemma {:induction false} NextTick(t: nat, to: nat)
    requires t % HOUR == 0 && to % HOUR == 0 && t < to
    ensures t < EndMonth(t) && t + HOUR <= to && t + HOUR <= EndMonth(t) && (t + HOUR) % HOUR == 0
    ensures t + HOUR < EndMonth(t) ==> BeginMonth(t + HOUR) == BeginMonth(t) && EndMonth(t + HOUR) == EndMonth(t)
    ensures t + HOUR == EndMonth(t) ==> BeginMonth(t + HOUR) == EndMonth(t)
  {
    hide Start, MonthOf;
    BeginIsHour(t);
    NextHour(t);
    HoursApart(t, to);
    HoursApart(t, EndMonth(t));
  }

  /** Later times are in the same or later months. */
  lemma {:induction false} MonthsGrow(a: nat, b: nat)
    requires a <= b
    ensures BeginMonth(a) <= BeginMonth(b)
    ensures BeginMonth(a) < BeginMonth(b) ==> EndMonth(a) <= BeginMonth(b)
    ensures BeginMonth(a) == BeginMonth(b) ==> EndMonth(a) == EndMonth(b)
  {
    hide Start, MonthOf;
    var i, j := MonthOf(a), MonthOf(b);
    StartOrder(i, j);
    StartOrder(j, i);
    StartOrder(j + 1, i);
    StartOrder(i + 1, j);
    StartOrder(j, i + 1);
  }

  lemma {:induction false} BeginTwice(t: nat)
    ensures BeginMonth(BeginMonth(t)) == BeginMonth(t) && EndMonth(BeginMonth(t)) == EndMonth(t)
  {
    hide Start, MonthOf;
    StartsItself(MonthOf(t));
  }

  // ---------------------------------------------------------------- one flush, one jump, one point

  lemma {:induction false} HoursNext(m: nat, t: nat)
    requires m <= t && m % HOUR == 0 && t % HOUR == 0
    ensures Hours(m, t + HOUR) == Hours(m, t) + 1 && m + HOUR * Hours(m, t) == t && Hours(m, m) == 0
  {
  }

  lemma {:induction false} FlushRight(log: seq<Record>, t: nat, cur: Stats, qs: seq<Placed>)
    requires Inv(log, t, cur, qs)
    ensures Right(log + [Record(BeginMonth(t), cur)], qs)
  {
    hide StatsOf, ValuesAt, FileOf, MonthOf, Start, Hours, Kept;
    var r := Record(BeginMonth(t), cur);
    var log' := log + [r];
    BeginIsHour(t);
    HoursNext(BeginMonth(t), t);
    forall month: nat, k: nat | k < |FileOf(log', month)|
      ensures FileOf(log', month)[k] == StatsOf(ValuesAt(qs, month + HOUR * k))
    {
      FileSnoc(log, r, month);
      if k < |FileOf(log, month)| {
        assert FileOf(log', month)[k] == FileOf(log, month)[k];
      }
    }
  }

  lemma {:induction false} FlushComplete(log: seq<Record>, t: nat, cur: Stats)
    requires t % HOUR == 0 && Complete(log, t)
    ensures Complete(log + [Record(BeginMonth(t), cur)], t + HOUR)
  {
    hide FileOf, MonthOf, Start, Hours;
    var m, r := BeginMonth(t), Record(BeginMonth(t), cur);
    var log' := log + [r];
    BeginIsHour(t);
    NextHour(t);
    MonthsGrow(t, t + HOUR);
    BeginTwice(t);
    HoursNext(m, t);
    forall month: nat
      ensures if month == BeginMonth(t + HOUR) then |FileOf(log', month)| == Hours(month, t + HOUR)
              else FileOf(log', month) != [] ==>
                     && month == BeginMonth(month) < BeginMonth(t + HOUR)
                     && |FileOf(log', month)| == Hours(month, EndMonth(month))
    {
      FileSnoc(log, r, month);
      if month == t + HOUR && month == BeginMonth(t + HOUR) { HoursNext(month, month); }
    }
  }

  lemma {:induction false} FlushKept(log: seq<Record>, t: nat, cur: Stats, qs: seq<Placed>)
    requires t % HOUR == 0 && Kept(log, t, qs)
    ensures Kept(log + [Record(BeginMonth(t), cur)], t + HOUR, qs)
  {
    hide FileOf, MonthOf, Start;
    var r := Record(BeginMonth(t), cur);
    forall i | 0 <= i < |qs|
      ensures BeginMonth(qs[i].hour) != BeginMonth(t + HOUR) ==> FileOf(log + [r], BeginMonth(qs[i].hour)) != []
    {
      FileSnoc(log, r, BeginMonth(qs[i].hour));
    }
  }

  lemma {:induction false} NothingLater(qs: seq<Placed>, t: nat)
    requires forall i | 0 <= i < |qs| :: qs[i].hour < t
    ensures ValuesAt(qs, t) == []
  {
    if qs != [] { NothingLater(qs[..|qs| - 1], t); }
  }

  lemma {:induction false} EntriesSnoc(log: seq<Record>, r: Record)
    ensures Entries(log + [r]) == Entries(log) + if r.entry.cnt == 0 then [] else [Item(LastHour(log + [r]), r.entry)]
  {
    assert (log + [r])[..|log|] == log;
  }

  lemma {:induction false} FlushListed(log: seq<Record>, t: nat, cur: Stats, qs: seq<Placed>)
    requires t % HOUR == 0 && Complete(log, t) && Listed(log, t, cur, qs)
    ensures Listed(log + [Record(BeginMonth(t), cur)], t + HOUR, Empty, qs)
  {
    hide FileOf, MonthOf, Start, Hours, Entries, HourGroups, LastHour;
    var m := BeginMonth(t);
    LastHourSnoc(log, Record(m, cur));
    BeginIsHour(t);
    HoursNext(m, t);
    assert |FileOf(log, m)| == Hours(m, t);
    EntriesSnoc(log, Record(m, cur));
    assert Entries(log) + [] == Entries(log);
    var all := Entries(log + [Record(m, cur)]);
    assert all + [] == all;
  }

  lemma {:induction false} FirstIsSingle(v: real)
    requires -LIMIT <= v <= LIMIT
    ensures Added(Empty, v) == Single(v)
  {
  }

  lemma {:induction false} AddedIsCombined(s: Stats, v: real)
    ensures Added(s, v) == Combine(s, Single(v))
  {
  }

  lemma {:induction false} CountListed(log: seq<Record>, t: nat, cur: Stats, qs: seq<Placed>, v: real)
    requires Listed(log, t, cur, qs) && (cur.cnt == 0 ==> cur == Empty)
    ensures Listed(log, t, Added(cur, v), qs + [Placed(t, v)])
  {
    hide Entries, HourGroups, Combine;
    var qs' := qs + [Placed(t, v)];
    if FinitePoints(qs') {
      assert FinitePoints(qs) by { assert forall i | 0 <= i < |qs| :: qs'[i] == qs[i]; }
      assert qs'[|qs|].v == v;
      GroupsMore(qs, Placed(t, v));
      var es := Entries(log);
      if cur.cnt == 0 {
        FirstIsSingle(v);
        assert es + [] == es;
      } else {
        AddedIsCombined(cur, v);
        assert (es + [Item(t, cur)])[..|es|] == es;
      }
    }
  }

  lemma {:induction false} GroupsMore(qs: seq<Placed>, q: Placed)
    ensures HourGroups(qs + [q]) == Merge(HourGroups(qs), Item(q.hour, Single(q.v)))
  {
    hide Merge;
    assert (qs + [q])[..|qs|] == qs;
  }

  lemma {:induction false} TotalSnoc(log: seq<Record>, r: Record)
    ensures Total(log + [r]) == Total(log) + r.entry.cnt
  {
    assert (log + [r])[..|log|] == log;
  }

  lemma {:induction false} FlushLeads(log: seq<Record>, t: nat, cur: Stats)
    requires t % HOUR == 0 && Complete(log, t) && LeadsTo(log, t)
    ensures LeadsTo(log + [Record(BeginMonth(t), cur)], t + HOUR)
    ensures LastHour(log + [Record(BeginMonth(t), cur)]) == t
  {
    hide FileOf, MonthOf, Start, Hours, LastHour;
    var r := Record(BeginMonth(t), cur);
    BeginIsHour(t);
    HoursNext(r.month, t);
    assert |FileOf(log, r.month)| == Hours(r.month, t);
    LastHourSnoc(log, r);
    assert (log + [r])[..|log|] == log;
  }

  /** The hour before a month begins is the last of its own month. */
  lemma {:induction false} JumpLeads(log: seq<Record>, t: nat, t': nat)
    requires LeadsTo(log, t) && t <= t' && t == BeginMonth(t) && t' == BeginMonth(t')
    requires log != [] ==> LastHour(log) % HOUR == 0
    ensures LeadsTo(log, t')
  {
    hide MonthOf, Start, LastHour, Orderly;
    if log != [] {
      NextHour(LastHour(log));
      BeginIsHour(LastHour(log));
    }
  }

  lemma {:induction false} LastIsHour(log: seq<Record>)
    requires Orderly(log) && log != []
    ensures LastHour(log) % HOUR == 0
  {
    hide FileOf, MonthOf, Start;
    BeginIsHour(LastHour(log));
  }

  /** Writing the current hour and moving on to the next. */
  lemma {:induction false} Flushed(log: seq<Record>, t: nat, cur: Stats, qs: seq<Placed>)
    requires Inv(log, t, cur, qs)
    ensures Inv(log + [Record(BeginMonth(t), cur)], t + HOUR, Empty, qs)
  {
    hide Right, Complete, ValuesAt, Total, FileOf, MonthOf, Start, Listed, LeadsTo;
    FlushLeads(log, t, cur);
    FlushListed(log, t, cur, qs);
    FlushRight(log, t, cur, qs);
    FlushComplete(log, t, cur);
    FlushKept(log, t, cur, qs);
    NothingLater(qs, t + HOUR);
    TotalSnoc(log, Record(BeginMonth(t), cur));
  }

  /** Moving from the start of a month to the start of a later one, with nothing to write. */
  lemma {:induction false} Jumped(log: seq<Record>, t: nat, qs: seq<Placed>, t': nat)
    requires Inv(log, t, Empty, qs) && t <= t' && t == BeginMonth(t) && t' == BeginMonth(t')
    requires forall i | 0 <= i < |qs| :: qs[i].hour < t
    ensures Inv(log, t', Empty, qs)
  {
    hide Right, ValuesAt, Total, FileOf, MonthOf, Start, Hours, Entries, HourGroups, Orderly, LastHour;
    if log != [] { LastIsHour(log); }
    JumpLeads(log, t, t');
    BeginIsHour(t');
    HoursNext(t, t);
    HoursNext(t', t');
    NothingLater(qs, t');
    JumpComplete(log, t, t');
    forall i | 0 <= i < |qs|
      ensures BeginMonth(qs[i].hour) != BeginMonth(t)
    {
      BeginIsHour(qs[i].hour);
    }
  }

  lemma {:induction false} JumpComplete(log: seq<Record>, t: nat, t': nat)
    requires Complete(log, t) && t <= t' && t == BeginMonth(t) && t' == BeginMonth(t')
    ensures Complete(log, t')
  {
    hide FileOf, MonthOf, Start, Hours;
    HoursNext0(t);
    HoursNext0(t');
    assert FileOf(log, t) == [];
  }

  lemma {:induction false} HoursNext0(t: nat)
    ensures Hours(t, t) == 0
  {
  }

  lemma {:induction false} EmptyStats(vs: seq<real>)
    ensures StatsOf(vs).cnt == 0 ==> StatsOf(vs) == Empty
  {
  }

  /** Counting one more value in the current hour. */
  lemma {:induction false} Counted(log: seq<Record>, t: nat, cur: Stats, qs: seq<Placed>, v: real)
    requires Inv(log, t, cur, qs)
    ensures Inv(log, t, Added(cur, v), qs + [Placed(t, v)])
  {
    hide ValuesAt, Total, FileOf, MonthOf, Start, Hours, StatsOf, Listed, LeadsTo;
    var q := Placed(t, v);
    EmptyStats(ValuesAt(qs, t));
    CountListed(log, t, cur, qs, v);
    ValuesSnoc(qs, q, t);
    StatsSnoc(ValuesAt(qs, t), v);
    forall month: nat, k: nat | k < |FileOf(log, month)|
      ensures FileOf(log, month)[k] == StatsOf(ValuesAt(qs + [q], month + HOUR * k))
    {
      var h := month + HOUR * k;
      BeforeCurrent(log, t, month, k);
      ValuesSnoc(qs, q, h);
      assert ValuesAt(qs, h) + [] == ValuesAt(qs, h);
    }
  }

  /** What has been written is about hours before the current one. */
  lemma {:induction false} BeforeCurrent(log: seq<Record>, t: nat, month: nat, k: nat)
    requires Complete(log, t) && t % HOUR == 0 && k < |FileOf(log, month)|
    ensures month + HOUR * k < t
  {
    hide FileOf, MonthOf, Start;
    BeginIsHour(t);
    BeginIsHour(month);
    MonthsGrow(month, t);
  }

  lemma {:induction false} InvHours(log: seq<Record>, t: nat, cur: Stats, qs: seq<Placed>)
    requires Inv(log, t, cur, qs)
    ensures t % HOUR == 0 && forall i | 0 <= i < |qs| :: qs[i].hour <= t
  {
  }

  lemma {:induction false} BeginBeforeHour(ts: nat)
    ensures BeginMonth(ts) <= HourOf(ts) && BeginMonth(HourOf(ts)) == BeginMonth(ts)
  {
    hide MonthOf, Start;
    BeginIsHour(ts);
    if HourOf(ts) < BeginMonth(ts) { HoursApart(HourOf(ts), BeginMonth(ts)); }
    MonthUnique(HourOf(ts), MonthOf(ts));
  }

  /** The current hour holds the point that made it current. */
  lemma {:induction false} CurrentNotEmpty(log: seq<Record>, t: nat, cur: Stats, ps: seq<Sample>)
    requires Inv(log, t, cur, Place(ps)) && ps != [] && t == Latest(ps)
    ensures cur.cnt > 0
  {
    hide HourOf, Latest, Right, Complete, Kept, Listed, LeadsTo, Total;
    var k := |ps| - 1;
    var qs := Place(ps);
    ValuesSnoc(qs[..k], qs[k], t);
    assert qs == qs[..k] + [qs[k]];
    StatsSnoc(ValuesAt(qs[..k], t), qs[k].v);
  }

  /** Making the hour of `p` current leaves months out exactly when `p` skips them. */
  lemma {:induction false} GapsFollow(log: seq<Record>, t: nat, ps: seq<Sample>, log': seq<Record>, p: Sample)
    requires t == Latest(ps) < HourOf(p.ts) && SameGaps(log, t, ps) && ps != []
    requires TightTo(log', HourOf(p.ts)) <==> TightTo(log, t) && BeginMonth(p.ts) <= EndMonth(t)
    requires Gapless(log') <==> Gapless(log) && TightTo(log, t)
    ensures SameGaps(log', HourOf(p.ts), ps + [p])
  {
    hide HourOf, MonthOf, Start, Gapless, SkipFree, Settled, Tight, Latest;
    BeginBeforeHour(p.ts);
    PointSnoc(ps, p);
    SettledSnoc(ps, p);
    if Tight(log) { TightIsGapless(log); }
  }

  lemma {:induction false} GapsStay(log: seq<Record>, t: nat, ps: seq<Sample>, p: Sample)
    requires t == Latest(ps) >= HourOf(p.ts) && SameGaps(log, t, ps) && ps != []
    ensures SameGaps(log, t, ps + [p])
  {
    hide HourOf, MonthOf, Start, Gapless, SkipFree, Settled, Tight, Latest;
    PointSnoc(ps, p);
    SettledSnoc(ps, p);
    BeginIsHour(t);
  }

  lemma {:induction false} GapsAfter(log: seq<Record>, t: nat, ps: seq<Sample>, log': seq<Record>, t': nat, p: Sample)
    requires if ps == [] then TightTo(log, t) && Gapless(log) && BeginMonth(p.ts) <= EndMonth(t)
             else SameGaps(log, t, ps) && t == Latest(ps)
    requires if HourOf(p.ts) <= t then t' == t && log' == log
             else
               && t' == HourOf(p.ts)
               && (TightTo(log', t') <==> TightTo(log, t) && BeginMonth(p.ts) <= EndMonth(t))
               && (Gapless(log') <==> Gapless(log) && TightTo(log, t))
    ensures SameGaps(log', t', ps + [p])
  {
    hide HourOf, MonthOf, Start, Gapless, TightTo, SameGaps, Latest;
    if ps == [] {
      GapsFirst(log', t', p);
    } else if HourOf(p.ts) <= t {
      GapsStay(log, t, ps, p);
    } else {
      GapsFollow(log, t, ps, log', p);
    }
  }

  lemma {:induction false} GapsFirst(log: seq<Record>, t: nat, p: Sample)
    requires TightTo(log, t) && Gapless(log)
    ensures SameGaps(log, t, [] + [p])
  {
    assert ([] + [p])[..0] == [];
  }

  /** The state before the first point: the month it falls in has begun, and nothing is written. */
  lemma {:induction false} InvNothing(ts: nat)
    ensures Inv([], BeginMonth(ts), Empty, [])
  {
    hide MonthOf, Start;
    BeginIsHour(ts);
    BeginTwice(ts);
    HoursNext0(BeginMonth(ts));
  }

  /** From the end of the month that was current, on to the month of `ts`. */
  lemma {:induction false} SkipMonths(log: seq<Record>, t: nat, qs: seq<Placed>, ts: nat)
    requires Inv(log, t, Empty, qs) && t == BeginMonth(t) <= ts
    requires forall i | 0 <= i < |qs| :: qs[i].hour < t
    ensures Inv(log, BeginMonth(ts), Empty, qs)
  {
    hide Inv, MonthOf, Start;
    MonthsGrow(t, ts);
    BeginTwice(ts);
    Jumped(log, t, qs, BeginMonth(ts));
  }

  lemma {:induction false} PointSnoc(ps: seq<Sample>, p: Sample)
    ensures var h := HourOf(p.ts);
            && Latest(ps + [p]) == (if Latest(ps) < h then h else Latest(ps))
            && Place(ps + [p]) == Place(ps) + [Placed(Latest(ps + [p]), p.v)]
            && (InOrder(ps + [p]) <==> InOrder(ps) && Latest(ps) <= h)
  {
    hide HourOf;
    assert (ps + [p])[..|ps|] == ps;
  }

  // ---------------------------------------------------------------- what it means

  lemma {:induction false} PlaceFront(ps: seq<Sample>, i: nat)
    requires i + 1 < |ps|
    ensures Place(ps)[i] == Place(ps[..|ps| - 1])[i] && ps[..|ps| - 1][i] == ps[i]
  {
  }

  /** A point is never counted in an hour before its own. */
  lemma {:induction false} NeverEarlier(ps: seq<Sample>, i: nat)
    requires i < |ps|
    ensures HourOf(ps[i].ts) <= Place(ps)[i].hour <= Latest(ps)
    decreases |ps|
  {
    hide HourOf;
    if i + 1 < |ps| {
      NeverEarlier(ps[..|ps| - 1], i);
      PlaceFront(ps, i);
    }
  }

  lemma {:induction false} InOrderOwnHour(ps: seq<Sample>, i: nat)
    requires InOrder(ps) && i < |ps|
    ensures Place(ps)[i].hour == HourOf(ps[i].ts)
    decreases |ps|
  {
    hide HourOf;
    if i + 1 < |ps| {
      InOrderOwnHour(ps[..|ps| - 1], i);
      PlaceFront(ps, i);
    }
  }

  /** The flag is raised exactly when some point is counted in an hour that is not its own. */
  lemma {:induction false} FlagExact(ps: seq<Sample>)
    ensures InOrder(ps) <==> forall i | 0 <= i < |ps| :: Place(ps)[i].hour == HourOf(ps[i].ts)
    decreases |ps|
  {
    hide HourOf, Place, Latest;
    if InOrder(ps) {
      forall i | 0 <= i < |ps| ensures Place(ps)[i].hour == HourOf(ps[i].ts) { InOrderOwnHour(ps, i); }
    } else {
      var k := |ps| - 1;
      FlagExact(ps[..k]);
      LastPlaced(ps);
      if !InOrder(ps[..k]) {
        var i :| 0 <= i < k && Place(ps[..k])[i].hour != HourOf(ps[..k][i].ts);
        PlaceFront(ps, i);
      }
    }
  }

  lemma {:induction false} LastPlaced(ps: seq<Sample>)
    requires ps != []
    ensures Place(ps)[|ps| - 1].hour == Latest(ps) >= Latest(ps[..|ps| - 1])
  {
  }

  /** The file of every earlier month that holds a point is complete. */
  lemma {:induction false} VisitedComplete(log: seq<Record>, t: nat, cur: Stats, qs: seq<Placed>, i: nat)
    requires Inv(log, t, cur, qs) && i < |qs| && BeginMonth(qs[i].hour) != BeginMonth(t)
    ensures var month := BeginMonth(qs[i].hour);
            month < BeginMonth(t) && |FileOf(log, month)| == Hours(month, EndMonth(qs[i].hour))
  {
    hide FileOf, MonthOf, Start, Hours;
    BeginTwice(qs[i].hour);
    assert FileOf(log, BeginMonth(qs[i].hour)) != [];
  }

  // ---------------------------------------------------------------- the manager

  class RollupManager {
    const cal: Calendar
    var unset: bool        // `m_tstamp` is TT_INVALID_TIMESTAMP
    var tstamp: nat        // the current hour
    var cur: Stats
    var log: seq<Record>
    var outOfOrder: bool
    ghost var points: seq<Sample>

    ghost predicate Valid()
      reads this, cal
    {
      && cal.Valid()
      && (unset <==> points == [])
      && (unset ==> cur == Empty && log == [])
      && (!unset ==> tstamp == Latest(points) && Inv(log, tstamp, cur, Place(points)))
      && (!unset ==> SameGaps(log, tstamp, points))
      && (outOfOrder <==> !InOrder(points))
    }

    constructor ()
      ensures Valid() && points == [] && fresh(cal)
    {
      cal := new Calendar();
      unset, tstamp, cur, log, outOfOrder, points := true, 0, Empty, [], false, [];
    }

    /** `flush`: appends the current hour to the file of its month. */
    method Flush(ghost qs: seq<Placed>)
      requires cal.Valid() && Inv(log, tstamp, cur, qs)
      modifies `cur, `log, cal
      ensures cal.Valid() && log == old(log) + [Record(BeginMonth(tstamp), old(cur))] && cur == Empty
    {
      hide Inv;
      var month := cal.BeginMonthOf(tstamp);
      log := log + [Record(month, cur)];
      cur := Empty;
    }

    /** Writes the current hour and goes on to the next. */
    method Tick(ghost qs: seq<Placed>)
      requires cal.Valid() && Inv(log, tstamp, cur, qs)
      modifies `cur, `log, `tstamp, cal
      ensures cal.Valid() && Inv(log, tstamp, cur, qs) && cur == Empty && tstamp == old(tstamp) + HOUR
      ensures log != [] && log[|log| - 1].month == BeginMonth(old(tstamp))
      ensures TightTo(log, tstamp) <==> old(TightTo(log, tstamp))
      ensures Gapless(log) <==> old(Gapless(log) && (cur.cnt == 0 || TightTo(log, tstamp)))
    {
      hide Inv, MonthOf, Start, TightTo, Gapless;
      InvHours(log, tstamp, cur, qs);
      FlushGaps(log, tstamp, cur);
      Flushed(log, tstamp, cur, qs);
      Flush(qs);
      tstamp := tstamp + HOUR;
    }

    /** Writes the current hour and all empty ones before `to` or the end of the month. */
    method FlushUntil(to: nat, end: nat, ghost qs: seq<Placed>)
      requires cal.Valid() && Inv(log, tstamp, cur, qs) && tstamp < to && to % HOUR == 0 && end == EndMonth(tstamp)
      modifies `cur, `log, `tstamp, cal
      ensures cal.Valid() && Inv(log, tstamp, cur, qs) && cur == Empty
      ensures old(tstamp) < tstamp
      ensures if to < end then tstamp == to else tstamp == end == BeginMonth(tstamp)
      ensures log != [] && log[|log| - 1].month == BeginMonth(old(tstamp))
      ensures TightTo(log, tstamp) <==> old(TightTo(log, tstamp))
      ensures Gapless(log) <==> old(Gapless(log) && (cur.cnt == 0 || TightTo(log, tstamp)))
    {
      hide Inv, MonthOf, Start, TightTo, Gapless;
      InvHours(log, tstamp, cur, qs);
      NextTick(tstamp, to);
      Tick(qs);
      while tstamp < end && tstamp < to
        invariant cal.Valid() && Inv(log, tstamp, cur, qs) && cur == Empty
        invariant old(tstamp) < tstamp <= to && tstamp <= end && tstamp % HOUR == 0
        invariant tstamp == end ==> BeginMonth(tstamp) == end
        invariant tstamp < end ==> BeginMonth(tstamp) == BeginMonth(old(tstamp)) && EndMonth(tstamp) == end
        invariant log != [] && log[|log| - 1].month == BeginMonth(old(tstamp))
        invariant TightTo(log, tstamp) <==> old(TightTo(log, tstamp))
        invariant Gapless(log) <==> old(Gapless(log) && (cur.cnt == 0 || TightTo(log, tstamp)))
        decreases end - tstamp
      {
        NextTick(tstamp, to);
        Tick(qs);
      }
    }

    /** Writes the empty hours of a new month before `to`. */
    method FlushFrom(begin: nat, to: nat, ghost qs: seq<Placed>)
      requires cal.Valid() && Inv(log, begin, cur, qs) && cur == Empty && begin <= to && to % HOUR == 0
      modifies `cur, `log, `tstamp, cal
      ensures cal.Valid() && Inv(log, tstamp, cur, qs) && cur == Empty && tstamp == to
      ensures TightTo(log, tstamp) <==> TightTo(old(log), begin)
      ensures Gapless(log) <==> Gapless(old(log))
    {
      hide Inv, MonthOf, Start, TightTo, Gapless;
      InvHours(log, begin, cur, qs);
      tstamp := begin;
      while tstamp < to
        invariant cal.Valid() && Inv(log, tstamp, cur, qs) && cur == Empty && tstamp <= to && tstamp % HOUR == 0
        invariant TightTo(log, tstamp) <==> TightTo(old(log), begin)
        invariant Gapless(log) <==> Gapless(old(log))
      {
        HoursApart(tstamp, to);
        Tick(qs);
      }
    }

    /** The part of `add_data_point` that makes the later hour of a point current. */
    method MoveTo(p: Sample, hour: nat, ghost qs: seq<Placed>)
      requires cal.Valid() && Inv(log, tstamp, cur, qs) && tstamp < hour == HourOf(p.ts)
      modifies `cur, `log, `tstamp, cal
      ensures cal.Valid() && Inv(log, tstamp, cur, qs) && cur == Empty && tstamp == hour
      ensures TightTo(log, tstamp) <==> old(TightTo(log, tstamp)) && BeginMonth(p.ts) <= EndMonth(old(tstamp))
      ensures Gapless(log) <==> old(Gapless(log) && (cur.cnt == 0 || TightTo(log, tstamp)))
    {
      hide Inv, MonthOf, Start, HourOf, Tight, Gapless;
      InvHours(log, tstamp, cur, qs);
      BeginBeforeHour(p.ts);
      BeginTwice(tstamp);
      BeginTwice(p.ts);
      BeginIsHour(p.ts);
      MonthsGrow(tstamp, hour);
      var end := cal.EndMonthOf(tstamp);
      FlushUntil(hour, end, qs);
      if tstamp >= end {
        var begin := cal.BeginMonthOf(p.ts);
        SkipMonths(log, tstamp, qs, p.ts);
        FlushFrom(begin, hour, qs);
      }
    }

    /** `add_data_point`: keeps everything that is promised of the files, for any point at all. */
    method AddDataPoint(p: Sample)
      requires Valid()
      modifies this, cal
      ensures Valid() && points == old(points) + [p]
    {
      hide Inv, MonthOf, Start, HourOf, Latest, InOrder, SameGaps, TightTo, Gapless;
      var hour := HourOf(p.ts);
      ghost var qs := Place(points);
      PointSnoc(points, p);
      BeginBeforeHour(p.ts);
      if unset {
        Begin(p);
        LatestNone();
      } else {
        CurrentNotEmpty(log, tstamp, cur, points);
      }
      ghost var before, from := log, tstamp;
      if hour > tstamp {
        MoveTo(p, hour, qs);
      } else if hour < tstamp {
        outOfOrder := true;
      }
      GapsAfter(before, from, points, log, tstamp, p);
      Counted(log, tstamp, cur, qs, p.v);
      cur := Added(cur, p.v);
      unset := false;
      points := points + [p];
    }

    /** The first point begins its month. */
    method Begin(p: Sample)
      requires cal.Valid() && unset && log == [] && cur == Empty
      modifies `tstamp, cal
      ensures cal.Valid() && Inv(log, tstamp, cur, []) && tstamp == BeginMonth(p.ts)
      ensures TightTo(log, tstamp) && Gapless(log)
    {
      hide Inv, MonthOf, Start;
      tstamp := cal.BeginMonthOf(p.ts);
      InvNothing(p.ts);
    }
  }

  /** All points of a series, one after the other: what is then in the files. */
  method RollUp(ps: seq<Sample>) returns (m: RollupManager)
    ensures fresh(m) && m.Valid() && m.points == ps
    ensures m.outOfOrder <==> !InOrder(ps)
    ensures Total(m.log) + m.cur.cnt == |ps|
    ensures ps != [] && InOrder(ps) ==>
              && (forall month: nat, k: nat | k < |FileOf(m.log, month)| ::
                    FileOf(m.log, month)[k] == StatsOf(OwnValues(ps, month + HOUR * k)))
              && m.cur == StatsOf(OwnValues(ps, m.tstamp))
  {
    hide MonthOf, Start, Latest, InOrder, Place, Total;
    m := new RollupManager();
    var i := 0;
    assert ps[..0] == [];
    while i < |ps|
      invariant 0 <= i <= |ps| && fresh(m) && fresh(m.cal) && m.Valid() && m.points == ps[..i]
    {
      m.AddDataPoint(ps[i]);
      i := i + 1;
      assert ps[..i] == ps[..i - 1] + [ps[i - 1]];
    }
    assert ps[..i] == ps;
    if ps == [] {
      TotalNone();
    } else if InOrder(ps) {
      OwnEntries(m.log, m.tstamp, m.cur, ps);
    }
  }

  lemma {:induction false} TotalNone()
    ensures Total([]) == 0
  {
  }

  /** In a run in order, entry `k` of a month is exactly about the points of hour `k` of that month. */
  lemma {:induction false} OwnEntries(log: seq<Record>, t: nat, cur: Stats, ps: seq<Sample>)
    requires InOrder(ps) && Inv(log, t, cur, Place(ps))
    ensures cur == StatsOf(OwnValues(ps, t))
    ensures forall month: nat, k: nat | k < |FileOf(log, month)| ::
              FileOf(log, month)[k] == StatsOf(OwnValues(ps, month + HOUR * k))
  {
    hide MonthOf, Start, InOrder, Place, StatsOf, ValuesAt, OwnValues, FileOf;
    InOrderPlaces(ps, t);
    forall month: nat, k: nat | k < |FileOf(log, month)|
      ensures FileOf(log, month)[k] == StatsOf(OwnValues(ps, month + HOUR * k))
    {
      InOrderPlaces(ps, month + HOUR * k);
    }
  }
}
