/**
 What reading hourly files back gives, for one time series.  Entries carry no time.  The clock of a query starts at
 the month of the first file it reads and goes on by an hour with every entry, from one file to the next.
 */
module RollupReader {
  import opened Sequences
  import opened Calendar
  import opened Stats
  import opened RollupManager

  // ---------------------------------------------------------------- what is read

  /** `in_range`. */
  function InRange(from: nat, to: nat, t: nat): int {
    if t < from then -1 else if to <= t then 1 else 0
  }

  function Within(xs: seq<Item>, from: nat, to: nat): seq<Item> {
    if xs == [] then []
    else
      var x := xs[|xs| - 1];
      Within(xs[..|xs| - 1], from, to) + if InRange(from, to, x.t) == 0 then [x] else []
  }

  /** The records of the months from `lo` on that begin before `hi`. */
  function Part(log: seq<Record>, lo: nat, hi: nat): seq<Record> {
    if log == [] then []
    else
      var r := log[|log| - 1];
      Part(log[..|log| - 1], lo, hi) + if lo <= r.month < hi then [r] else []
  }

  /** The clock at the last record, when these records are read. */
  function LastDate(log: seq<Record>): nat
    requires log != []
  {
    log[0].month + HOUR * (|log| - 1)
  }

  /** The entries that are not empty, as the clock dates them. */
  function Dated(log: seq<Record>): seq<Item> {
    if log == [] then []
    else
      var r := log[|log| - 1];
      Dated(log[..|log| - 1]) + if r.entry.cnt == 0 then [] else [Item(LastDate(log), r.entry)]
  }

  /** What a query of the range feeds the downsampler: from the files, then the current hour. */
  function Read(log: seq<Record>, t: nat, cur: Stats, from: nat, to: nat): seq<Item> {
    Within(Dated(Part(log, BeginMonth(from), to)), from, to)
    + if cur.cnt != 0 && InRange(from, to, t) == 0 then [Item(t, cur)] else []
  }

  lemma {:induction false} WithinSnoc(xs: seq<Item>, x: Item, from: nat, to: nat)
    ensures Within(xs + [x], from, to) == Within(xs, from, to) + if InRange(from, to, x.t) == 0 then [x] else []
  {
    assert (xs + [x])[..|xs|] == xs;
  }

  /** What is read of a range is what has a time from its start on and before its end. */
  lemma {:induction false} WithinMeaning(xs: seq<Item>, x: Item, from: nat, to: nat)
    ensures x in Within(xs, from, to) <==> x in xs && from <= x.t < to
  {
    if xs != [] {
      WithinMeaning(xs[..|xs| - 1], x, from, to);
      assert xs == xs[..|xs| - 1] + [xs[|xs| - 1]];
    }
  }

  lemma {:induction false} WithinJoin(xs: seq<Item>, ys: seq<Item>, from: nat, to: nat)
    ensures Within(xs + ys, from, to) == Within(xs, from, to) + Within(ys, from, to)
  {
    if ys == [] {
      assert xs + ys == xs;
    } else {
      var k := |ys| - 1;
      WithinJoin(xs, ys[..k], from, to);
      WithinSnoc(xs + ys[..k], ys[k], from, to);
      assert xs + ys[..k] + [ys[k]] == xs + ys;
    }
  }

  lemma {:induction false} WithinAll(xs: seq<Item>, from: nat, to: nat)
    requires forall i | 0 <= i < |xs| :: from <= xs[i].t < to
    ensures Within(xs, from, to) == xs
  {
    if xs != [] { WithinAll(xs[..|xs| - 1], from, to); }
  }

  // ---------------------------------------------------------------- the clock

  /** The clock is never ahead of the hour of the record, and right exactly when no month was left out. */
  lemma {:induction false} ClockLags(log: seq<Record>)
    requires Orderly(log) && log != []
    ensures LastDate(log) <= LastHour(log)
    ensures LastDate(log) == LastHour(log) <==> Tight(log)
  {
    hide MonthOf, Start, FileOf;
    var k := |log| - 1;
    if k == 0 {
      FileOfNone(log[0].month);
      assert log[..0] == [];
    } else {
      ClockLags(log[..k]);
      var a, b := LastHour(log[..k]), LastHour(log);
      LastIsHour(log[..k]);
      NextHour(a);
      BeginTwice(a);
      BeginIsHour(a);
      BeginIsHour(b);
    }
  }

  lemma {:induction false} FileOfNone(month: nat)
    ensures FileOf([], month) == []
  {
  }

  /** The entries are dated right exactly when no entry that is not empty lies behind a month left out. */
  lemma {:induction false} DatesRightIffGapless(log: seq<Record>)
    requires Orderly(log)
    ensures |Dated(log)| == |Entries(log)|
    ensures Dated(log) == Entries(log) <==> Gapless(log)
  {
    hide MonthOf, Start, LastHour, LastDate, Tight, Follows;
    if log != [] {
      var k := |log| - 1;
      DatesRightIffGapless(log[..k]);
      ClockLags(log);
      if log[k].entry.cnt != 0 {
        var d, h := Item(LastDate(log), log[k].entry), Item(LastHour(log), log[k].entry);
        SnocEqual(Dated(log[..k]), d, Entries(log[..k]), h);
      }
    }
  }

  // ---------------------------------------------------------------- some months of the files

  lemma {:induction false} PartFile(log: seq<Record>, lo: nat, hi: nat, month: nat)
    requires lo <= month < hi
    ensures FileOf(Part(log, lo, hi), month) == FileOf(log, month)
  {
    if log != [] {
      var k := |log| - 1;
      PartFile(log[..k], lo, hi, month);
      if lo <= log[k].month < hi {
        FileSnoc(Part(log[..k], lo, hi), log[k], month);
      } else {
        assert Part(log[..k], lo, hi) + [] == Part(log[..k], lo, hi);
      }
    }
  }

  /** Later records are of the same month or of later ones. */
  lemma {:induction false} MonthsSorted(log: seq<Record>, i: nat)
    requires Orderly(log) && i < |log|
    ensures log[i].month <= log[|log| - 1].month
    decreases |log|
  {
    hide MonthOf, Start, LastHour;
    var k := |log| - 1;
    if i < k {
      MonthsSorted(log[..k], i);
      MonthsGrow(LastHour(log[..k]), LastHour(log));
    }
  }

  lemma {:induction false} PartOfNone(log: seq<Record>, lo: nat, hi: nat)
    ensures Part(log, lo, hi) != [] ==> exists i | 0 <= i < |log| :: lo <= log[i].month < hi
  {
    if log != [] {
      var k := |log| - 1;
      PartOfNone(log[..k], lo, hi);
      if Part(log[..k], lo, hi) != [] {
        var i :| 0 <= i < k && lo <= log[..k][i].month < hi;
        assert lo <= log[i].month < hi;
      } else if lo <= log[k].month < hi {
        assert lo <= log[k].month < hi;
      }
    }
  }

  /** If the last record is read, and an earlier one is, then so is the one right before it. */
  lemma {:induction false} PartNoHoles(log: seq<Record>, lo: nat, hi: nat)
    requires Orderly(log) && |log| > 1 && lo <= log[|log| - 1].month < hi
    requires Part(log[..|log| - 1], lo, hi) != []
    ensures lo <= log[|log| - 2].month < hi
  {
    hide MonthOf, Start, LastHour, Part;
    var k := |log| - 1;
    PartOfNone(log[..k], lo, hi);
    var i :| 0 <= i < k && lo <= log[..k][i].month < hi;
    MonthsSorted(log[..k], i);
    MonthsSorted(log, k - 1);
  }

  lemma {:induction false} PartLast(log: seq<Record>, lo: nat, hi: nat)
    requires log != [] && lo <= log[|log| - 1].month < hi
    ensures var p := Part(log, lo, hi);
            p != [] && p[|p| - 1] == log[|log| - 1] && p[..|p| - 1] == Part(log[..|log| - 1], lo, hi)
    ensures LastHour(Part(log, lo, hi)) == LastHour(log)
  {
    hide FileOf;
    var k := |log| - 1;
    LastHourSnoc(Part(log[..k], lo, hi), log[k]);
    PartFile(log[..k], lo, hi, log[k].month);
  }

  lemma {:induction false} PartOrderly(log: seq<Record>, lo: nat, hi: nat)
    requires Orderly(log)
    ensures Orderly(Part(log, lo, hi))
    ensures Tight(log) ==> Tight(Part(log, lo, hi))
  {
    hide MonthOf, Start, LastHour, Follows;
    if log != [] {
      var k := |log| - 1;
      PartOrderly(log[..k], lo, hi);
      if lo <= log[k].month < hi {
        PartLast(log, lo, hi);
        if Part(log[..k], lo, hi) != [] {
          PartNoHoles(log, lo, hi);
          PartLast(log[..k], lo, hi);
        }
      } else {
        assert Part(log, lo, hi) == Part(log[..k], lo, hi);
      }
    }
  }

  lemma {:induction false} PartGapless(log: seq<Record>, lo: nat, hi: nat)
    requires Orderly(log) && Gapless(log)
    ensures Gapless(Part(log, lo, hi))
  {
    hide MonthOf, Start, LastHour, Follows, Tight;
    if log != [] {
      var k := |log| - 1;
      PartGapless(log[..k], lo, hi);
      if lo <= log[k].month < hi {
        PartLast(log, lo, hi);
        PartOrderly(log, lo, hi);
      } else {
        assert Part(log, lo, hi) == Part(log[..k], lo, hi);
      }
    }
  }

  /** The hours of a range are all in the months that are read. */
  lemma {:induction false} EntriesInPart(log: seq<Record>, from: nat, to: nat)
    requires Orderly(log)
    ensures Within(Entries(log), from, to) == Within(Entries(Part(log, BeginMonth(from), to)), from, to)
  {
    hide MonthOf, Start, LastHour, Follows, Within;
    if log != [] {
      var k, lo, h := |log| - 1, BeginMonth(from), LastHour(log);
      var part := Part(log[..k], lo, to);
      EntriesInPart(log[..k], from, to);
      BeginIsHour(h);
      if lo <= log[k].month < to {
        PartLast(log, lo, to);
      } else {
        if from <= h { MonthsGrow(from, h); }
        assert Part(log, lo, to) == part;
      }
      if log[k].entry.cnt != 0 {
        WithinSnoc(Entries(log[..k]), Item(h, log[k].entry), from, to);
        WithinSnoc(Entries(part), Item(h, log[k].entry), from, to);
      } else {
        assert Entries(log) == Entries(log[..k]);
        assert Entries(Part(log, lo, to)) == Entries(part);
      }
    }
  }

  // ---------------------------------------------------------------- file by file

  /** The entries of one file as the clock dates them, from `start` on. */
  function Stamps(start: nat, file: seq<Stats>): seq<Item> {
    if file == [] then []
    else
      var k := |file| - 1;
      Stamps(start, file[..k]) + if file[k].cnt == 0 then [] else [Item(start + HOUR * k, file[k])]
  }

  lemma {:induction false} StampsSnoc(start: nat, file: seq<Stats>, e: Stats)
    ensures Stamps(start, file + [e])
         == Stamps(start, file) + if e.cnt == 0 then [] else [Item(start + HOUR * |file|, e)]
  {
    assert (file + [e])[..|file|] == file;
  }

  /** What is dated past the range does not count. */
  lemma {:induction false} PastTheRange(start: nat, file: seq<Stats>, i: nat, from: nat, to: nat)
    requires i <= |file| && to <= start + HOUR * i
    ensures Within(Stamps(start, file), from, to) == Within(Stamps(start, file[..i]), from, to)
    decreases |file|
  {
    hide Within;
    var k := |file| - 1;
    if i > k {
      assert file[..i] == file;
    } else {
      PastTheRange(start, file[..k], i, from, to);
      assert file[..k][..i] == file[..i];
      if file[k].cnt != 0 {
        WithinSnoc(Stamps(start, file[..k]), Item(start + HOUR * k, file[k]), from, to);
      } else {
        assert Stamps(start, file) == Stamps(start, file[..k]);
      }
    }
  }

  function Records(month: nat, file: seq<Stats>): (r: seq<Record>)
    ensures |r| == |file| && forall i | 0 <= i < |r| :: r[i].month == month
  {
    if file == [] then [] else Records(month, file[..|file| - 1]) + [Record(month, file[|file| - 1])]
  }

  lemma {:induction false} RecordsSnoc(month: nat, file: seq<Stats>, e: Stats)
    ensures Records(month, file + [e]) == Records(month, file) + [Record(month, e)]
  {
    assert (file + [e])[..|file|] == file;
  }

  lemma {:induction false} NoFile(log: seq<Record>, month: nat)
    requires forall i | 0 <= i < |log| :: log[i].month < month
    ensures FileOf(log, month) == []
  {
    if log != [] { NoFile(log[..|log| - 1], month); }
  }

  /** Months begin at month starts, so none is between two neighbours. */
  lemma {:induction false} NoMonthBetween(log: seq<Record>, m: nat)
    requires Orderly(log) && log != [] && Start(m) < log[|log| - 1].month
    ensures Start(m + 1) <= log[|log| - 1].month
  {
    hide LastHour, MonthOf, Start;
    var r := log[|log| - 1];
    StartOrder(m, MonthOf(LastHour(log)));
    StartOrder(MonthOf(LastHour(log)), m + 1);
  }

  /** One more month adds the records of its file. */
  lemma {:induction false} PartNext(log: seq<Record>, lo: nat, m: nat)
    requires Orderly(log) && lo <= Start(m)
    ensures Part(log, lo, Start(m + 1)) == Part(log, lo, Start(m)) + Records(Start(m), FileOf(log, Start(m)))
    ensures Start(m) < Start(m + 1)
  {
    hide LastHour, MonthOf, Start;
    StartOrder(m, m + 1);
    if log != [] {
      var k := |log| - 1;
      var r, before := log[k], log[..k];
      PartNext(before, lo, m);
      if r.month < Start(m) {
        forall i | 0 <= i < |log| ensures log[i].month < Start(m) { MonthsSorted(log, i); }
        NoFile(log, Start(m));
        NoFile(before, Start(m));
      } else if r.month == Start(m) {
        RecordsSnoc(r.month, FileOf(before, r.month), r.entry);
        assert FileOf(log, r.month) == FileOf(before, r.month) + [r.entry];
      } else {
        NoMonthBetween(log, m);
        assert FileOf(log, Start(m)) == FileOf(before, Start(m));
      }
    }
  }

  lemma {:induction false} DatedSnoc(log: seq<Record>, r: Record)
    ensures Dated(log + [r]) == Dated(log) + if r.entry.cnt == 0 then [] else [Item(LastDate(log + [r]), r.entry)]
  {
    assert (log + [r])[..|log|] == log;
  }

  /** Reading a file after the records `p`: the clock goes on. */
  lemma {:induction false} DatedJoin(p: seq<Record>, month: nat, file: seq<Stats>)
    ensures var start := if p == [] then month else LastDate(p) + HOUR;
            Dated(p + Records(month, file)) == Dated(p) + Stamps(start, file)
  {
    hide Dated, Records, Stamps, LastDate;
    var start := if p == [] then month else LastDate(p) + HOUR;
    if file == [] {
      StampsNil(start);
      assert p + Records(month, file) == p;
      assert Dated(p) + [] == Dated(p);
    } else {
      var k := |file| - 1;
      var front, e := file[..k], file[k];
      DatedJoin(p, month, front);
      assert file == front + [e];
      RecordsSnoc(month, front, e);
      StampsSnoc(start, front, e);
      var all := p + Records(month, front);
      assert p + (Records(month, front) + [Record(month, e)]) == all + [Record(month, e)];
      DatedSnoc(all, Record(month, e));
      DateAfter(p, Records(month, front), Record(month, e));
    }
  }

  lemma {:induction false} StampsNil(start: nat)
    ensures Stamps(start, []) == []
  {
  }

  lemma {:induction false} DateAfter(p: seq<Record>, more: seq<Record>, r: Record)
    requires forall i | 0 <= i < |more| :: more[i].month == r.month
    ensures LastDate(p + more + [r]) == (if p == [] then r.month else LastDate(p) + HOUR) + HOUR * |more|
  {
    var all := p + more + [r];
    if p != [] {
      assert all[0] == p[0];
    } else if more != [] {
      assert all[0] == more[0];
    }
  }

  lemma {:induction false} StampOne(t: nat, e: Stats, from: nat, to: nat)
    ensures Within(Stamps(t, [e]), from, to) == if e.cnt != 0 && InRange(from, to, t) == 0 then [Item(t, e)] else []
  {
    hide Within;
    var none: seq<Item> := [];
    assert Stamps(t, [e]) == none + if e.cnt == 0 then [] else [Item(t, e)];
    StampsNone(t, from, to);
    WithinSnoc([], Item(t, e), from, to);
  }

  lemma {:induction false} StampsNone(start: nat, from: nat, to: nat)
    ensures Within(Stamps(start, []), from, to) == []
  {
  }

  lemma {:induction false} StampsOneMore(start: nat, file: seq<Stats>, e: Stats, from: nat, to: nat)
    ensures Within(Stamps(start, file + [e]), from, to)
         == Within(Stamps(start, file), from, to) + Within(Stamps(start + HOUR * |file|, [e]), from, to)
  {
    hide Within, Stamps;
    StampsSnoc(start, file, e);
    StampOne(start + HOUR * |file|, e, from, to);
    if e.cnt != 0 {
      WithinSnoc(Stamps(start, file), Item(start + HOUR * |file|, e), from, to);
    } else {
      assert Stamps(start, file) + [] == Stamps(start, file);
    }
  }

  lemma {:induction false} PartNothing(log: seq<Record>, lo: nat, from: nat, to: nat)
    ensures Part(log, lo, lo) == [] && Within(Dated([]), from, to) == []
    ensures to <= lo ==> Part(log, lo, to) == []
  {
    if log != [] { PartNothing(log[..|log| - 1], lo, from, to); }
  }

  /** If the range ends within month `m`, no later month is read. */
  lemma {:induction false} PartUpTo(log: seq<Record>, lo: nat, m: nat, to: nat)
    requires Orderly(log) && Start(m) < to <= Start(m + 1)
    ensures Part(log, lo, Start(m + 1)) == Part(log, lo, to)
  {
    hide LastHour, MonthOf, Start;
    if log != [] {
      PartUpTo(log[..|log| - 1], lo, m, to);
      if Start(m) < log[|log| - 1].month { NoMonthBetween(log, m); }
    }
  }

  /** After the file of a month was read, the clock has not reached the next month. */
  lemma {:induction false} ClockInMonth(log: seq<Record>, lo: nat, m: nat)
    requires Orderly(log) && Part(log, lo, Start(m + 1)) != []
    ensures LastDate(Part(log, lo, Start(m + 1))) < Start(m + 1)
  {
    hide LastHour, MonthOf, Start, Part;
    var p := Part(log, lo, Start(m + 1));
    PartOrderly(log, lo, Start(m + 1));
    ClockLags(p);
    var h := LastHour(p);
    PartMonths(log, lo, Start(m + 1));
    StartOrder(MonthOf(h), m + 1);
    StartOrder(m + 1, MonthOf(h) + 1);
  }

  lemma {:induction false} PartMonths(log: seq<Record>, lo: nat, hi: nat)
    ensures var p := Part(log, lo, hi); p != [] ==> p[|p| - 1].month < hi
  {
    if log != [] { PartMonths(log[..|log| - 1], lo, hi); }
  }
}
