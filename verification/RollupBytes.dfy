/**
 From the bytes of rollup files to the answer of a query: the files of a metric hold the encoded entries of many
 series, and a query reads them through a buffer, entry by entry.
 */
module RollupBytes {
  import opened Calendar
  import opened Stats
  import opened RollupManager
  import opened RollupReader
  import opened RollupShared
  import opened Downsample
  import opened DownsampleMeaning
  import opened RollupQuery
  import opened RollupPrecision
  import opened FixedPointCode
  import Codec = RollupCodec
  import RollupFile
  import Downsampler

  // ---------------------------------------------------------------- entries of a file

  function StatsIn(e: Codec.Entry): Stats { Stats(e.cnt, e.min, e.max, e.sum) }

  function TagAll(es: seq<Codec.Entry>): (r: seq<Tagged>)
    ensures |r| == |es| && forall i | 0 <= i < |r| :: r[i] == Tagged(es[i].tid, StatsIn(es[i]))
  {
    if es == [] then [] else [Tagged(es[0].tid, StatsIn(es[0]))] + TagAll(es[1..])
  }

  /** What is read back of the entries of one series. */
  function CodedAll(ss: seq<Stats>, p: Precision): (r: seq<Stats>)
    ensures |r| == |ss| && forall i | 0 <= i < |r| :: r[i] == Coded(ss[i], p)
  {
    if ss == [] then [] else CodedAll(ss[..|ss| - 1], p) + [Coded(ss[|ss| - 1], p)]
  }

  lemma {:induction false} QuantisedIsCoded(e: Codec.Entry, p: Precision)
    ensures Codec.Quantised(e, p).tid == e.tid && StatsIn(Codec.Quantised(e, p)) == Coded(StatsIn(e), p)
  {
    hide Over, Rounded, Scale;
  }

  lemma {:induction false} QuantisedAt(es: seq<Codec.Entry>, p: Precision, i: nat)
    requires i < |es|
    ensures Codec.QuantisedAll(es, p)[i] == Codec.Quantised(es[i], p)
  {
    hide Codec.Quantised;
    if i > 0 { QuantisedAt(es[1..], p, i - 1); }
  }

  /** The entries of a file as they are read, series by series. */
  lemma {:induction false} OwnCoded(es: seq<Tagged>, rs: seq<Tagged>, tid: nat, p: Precision)
    requires |rs| == |es| && forall i | 0 <= i < |es| :: rs[i] == Tagged(es[i].tid, Coded(es[i].s, p))
    ensures Own(rs, tid) == CodedAll(Own(es, tid), p)
    decreases |es|
  {
    hide Coded;
    if es != [] { OwnCoded(es[..|es| - 1], rs[..|es| - 1], tid, p); }
  }

  lemma {:induction false} FileOfCoded(log: seq<Record>, month: nat, p: Precision)
    ensures FileOf(CodedLog(log, p), month) == CodedAll(FileOf(log, month), p)
  {
    hide Coded;
    if log != [] {
      var k := |log| - 1;
      FileOfCoded(log[..k], month, p);
      assert CodedLog(log, p)[..k] == CodedLog(log[..k], p);
    }
  }

  lemma {:induction false} LastHourCoded(log: seq<Record>, p: Precision)
    requires log != []
    ensures LastHour(CodedLog(log, p)) == LastHour(log)
  {
    hide Coded, CodedAll;
    var k := |log| - 1;
    assert CodedLog(log, p)[..k] == CodedLog(log[..k], p);
    FileOfCoded(log[..k], log[k].month, p);
  }

  /** Rounding keeps the records in order. */
  lemma {:induction false} OrderlyCoded(log: seq<Record>, p: Precision)
    requires Orderly(log)
    ensures Orderly(CodedLog(log, p))
  {
    hide Coded, LastHour, Follows, MonthOf, Start;
    if log != [] {
      var k := |log| - 1;
      OrderlyCoded(log[..k], p);
      LastHourCoded(log, p);
      assert CodedLog(log, p)[..k] == CodedLog(log[..k], p);
      if k > 0 { LastHourCoded(log[..k], p); }
    }
  }

  // ---------------------------------------------------------------- files as bytes

  /** The bytes of every file are the encodings of its entries. */
  ghost predicate Encodes(bytes: map<nat, seq<bv8>>, content: map<nat, seq<Codec.Entry>>, p: Precision) {
    && bytes.Keys == content.Keys
    && (forall month | month in content ::
          && bytes[month] == Codec.EncodeAll(content[month], p)
          && (forall i | 0 <= i < |content[month]| :: Codec.Storable(content[month][i], p)))
  }

  function TagFiles(content: map<nat, seq<Codec.Entry>>): map<nat, seq<Tagged>> {
    map month | month in content :: TagAll(content[month])
  }

  /** The entries as they are read back. */
  ghost function ReadBack(content: map<nat, seq<Codec.Entry>>, p: Precision): map<nat, seq<Tagged>> {
    map month | month in content :: TagAll(Codec.QuantisedAll(content[month], p))
  }

  lemma {:induction false} WholeFileParses(es: seq<Codec.Entry>, p: Precision)
    requires forall i | 0 <= i < |es| :: Codec.Storable(es[i], p)
    ensures Codec.ParseAll(Codec.EncodeAll(es, p), p) == Codec.QuantisedAll(es, p)
  {
    hide Codec.ParseAll, Codec.EncodeAll, Codec.QuantisedAll, Codec.Storable;
    Codec.ListParses(es, p, []);
    assert Codec.EncodeAll(es, p) + [] == Codec.EncodeAll(es, p);
  }

  /** Scans every file through a buffer of `capacity` bytes. */
  method ScanAll(bytes: map<nat, seq<bv8>>, capacity: nat, p: Precision, ghost content: map<nat, seq<Codec.Entry>>)
    returns (files: map<nat, seq<Tagged>>)
    requires RollupFile.LONGEST <= capacity && Encodes(bytes, content, p)
    ensures files == ReadBack(content, p)
  {
    hide Codec.EncodeAll, Codec.QuantisedAll, Codec.Storable, Codec.ParseAll, TagAll;
    files := map[];
    var left := bytes.Keys;
    while left != {}
      invariant left <= bytes.Keys && files.Keys == bytes.Keys - left
      invariant forall month | month in files :: files[month] == TagAll(Codec.QuantisedAll(content[month], p))
      decreases |left|
    {
      var month :| month in left;
      WholeFileParses(content[month], p);
      var es := RollupFile.Scan(bytes[month], capacity, p);
      files := files[month := TagAll(es)];
      left := left - {month};
    }
  }

  ghost function CodedLogs(logs: map<nat, seq<Record>>, p: Precision): map<nat, seq<Record>> {
    map tid | tid in logs :: CodedLog(logs[tid], p)
  }

  /** What is read back holds the rounded records of every series. */
  lemma {:induction false} ReadBackHolds(content: map<nat, seq<Codec.Entry>>, logs: map<nat, seq<Record>>, p: Precision)
    requires HoldLogs(TagFiles(content), logs)
    ensures HoldLogs(ReadBack(content, p), CodedLogs(logs, p))
  {
    hide Orderly, FileOf, Own, CodedLog, Codec.QuantisedAll;
    var files := ReadBack(content, p);
    forall tid | tid in logs ensures Orderly(CodedLog(logs[tid], p)) { OrderlyCoded(logs[tid], p); }
    forall tid, month: nat | tid in logs
      ensures FileOf(CodedLog(logs[tid], p), month) == if month in files then Own(files[month], tid) else []
    {
      FileOfCoded(logs[tid], month, p);
      if month in content {
        var es := content[month];
        assert month in TagFiles(content) && FileOf(logs[tid], month) == Own(TagAll(es), tid);
        forall i | 0 <= i < |es| ensures files[month][i] == Tagged(es[i].tid, Coded(StatsIn(es[i]), p)) {
          QuantisedAt(es, p, i);
          QuantisedIsCoded(es[i], p);
        }
        OwnCoded(TagAll(es), files[month], tid, p);
      } else {
        assert month !in TagFiles(content) && FileOf(logs[tid], month) == [];
      }
    }
  }

  // ---------------------------------------------------------------- queries of bytes

  /** A task and the one of the rounded records are at the same time. */
  lemma {:induction false} SameClock(log: seq<Record>, p: Precision, lo: nat, month: nat, from: nat, to: nat)
    ensures NextDate(TaskOn(Part(CodedLog(log, p), lo, month), from, to), month) ==
            NextDate(TaskOn(Part(log, lo, month), from, to), month)
  {
    hide Part, Dated, Within, Coded;
    PartCoded(log, p, lo, month);
  }

  /** An entry of a file and the one read back are of the same series, empty or not alike, and at the same place. */
  lemma {:induction false} SamePlace(es: seq<Codec.Entry>, p: Precision, n: nat)
    requires n < |es|
    ensures var was, now := TagAll(es), TagAll(Codec.QuantisedAll(es, p));
            && |now| == |was| && now[n].tid == was[n].tid && now[n].s.cnt == was[n].s.cnt
            && forall tid :: |Own(now[..n], tid)| == |Own(was[..n], tid)|
  {
    hide Own, Codec.Quantised, Codec.QuantisedAll, Coded, StatsIn;
    var was, now := TagAll(es), TagAll(Codec.QuantisedAll(es, p));
    forall i | 0 <= i < |es| ensures now[i] == Tagged(was[i].tid, Coded(was[i].s, p)) {
      QuantisedAt(es, p, i);
      QuantisedIsCoded(es[i], p);
    }
    CodedCount(was[n].s, p);
    forall tid ensures |Own(now[..n], tid)| == |Own(was[..n], tid)| { OwnCoded(was[..n], now[..n], tid, p); }
  }

  /** What a query loses does not depend on the rounding. */
  lemma {:induction false} LostAsWritten(content: map<nat, seq<Codec.Entry>>, logs: map<nat, seq<Record>>,
                                         p: Precision, tid: nat, from: nat, to: nat)
    requires tid in logs
    ensures Lost(ReadBack(content, p), CodedLogs(logs, p), tid, from, to) <==>
            Lost(TagFiles(content), logs, tid, from, to)
  {
    hide Own, Codec.QuantisedAll, CodedLog, TagAll, Part, MonthOf, Start, NextDate, TaskOn;
    var lo, begin := BeginMonth(from), LastBegin(from, to);
    var was, now := BeforeLast(logs, from, to), BeforeLast(CodedLogs(logs, p), from, to);
    forall t | t in logs ensures NextDate(now[t], begin) == NextDate(was[t], begin) {
      SameClock(logs[t], p, lo, begin, from, to);
    }
    if begin in content && lo < to {
      var es := content[begin];
      var x, y := TagAll(es), TagAll(Codec.QuantisedAll(es, p));
      assert LastFile(TagFiles(content), from, to) == x && LastFile(ReadBack(content, p), from, to) == y;
      assert |x| == |es|;
      forall n | 0 <= n < |es|
        ensures |y| == |x| && (Past(now, begin, y, n, from, to) <==> Past(was, begin, x, n, from, to))
        ensures Counts(now[tid], begin, y, tid, n, from, to) <==> Counts(was[tid], begin, x, tid, n, from, to)
      {
        SamePlace(es, p, n);
      }
    }
  }

  /**
   A query of several series over the bytes of their files: every series gets its rounded entries of the range exactly
   when none is behind an entry past the range in the last file; the only series queried always does.
   */
  method QueryBytes(bytes: map<nat, seq<bv8>>, capacity: nat, p: Precision, tids: set<nat>, from: nat, to: nat,
                    ghost content: map<nat, seq<Codec.Entry>>, ghost logs: map<nat, seq<Record>>)
    returns (tasks: map<nat, Task>)
    requires RollupFile.LONGEST <= capacity && Encodes(bytes, content, p)
    requires HoldLogs(TagFiles(content), logs) && logs.Keys == tids
    ensures tasks == Answered(ReadBack(content, p), CodedLogs(logs, p), from, to)
    ensures tasks.Keys == tids
    ensures forall tid | tid in tids ::
              tasks[tid].items == FromFiles(CodedLog(logs[tid], p), from, to) <==>
              !Lost(TagFiles(content), logs, tid, from, to)
    ensures forall tid | tids == {tid} :: tasks[tid].items == FromFiles(CodedLog(logs[tid], p), from, to)
  {
    hide HoldLogs, Encodes, FromFiles, Lost, CodedLog, TagAll, Codec.QuantisedAll, BeforeLast, LastFile, Looked;
    var files := ScanAll(bytes, capacity, p, content);
    ReadBackHolds(content, logs, p);
    ghost var coded := CodedLogs(logs, p);
    var query := new SharedQuery(tids);
    assert coded.Keys == tids && query.tasks == map tid | tid in coded :: NewTask;
    query.Query(files, from, to, coded);
    tasks := query.tasks;
    forall tid | tid in tids
      ensures Lost(files, coded, tid, from, to) <==> Lost(TagFiles(content), logs, tid, from, to)
    {
      LostAsWritten(content, logs, p, tid, from, to);
    }
  }

  /**
   From bytes to the answer, for one series whose files hold those of others too.  If its points came in the order of
   their hours and no month was left out of the files of the range, the output is near the one of the points: counts
   equal, averages and extremes off by half a unit of precision, and sums by half a unit for every hour.
   */
  method AnswerFromBytes(m: RollupManager, tid: nat, bytes: map<nat, seq<bv8>>, capacity: nat, p: Precision,
                         all: bool, interval: nat, start: nat, to: nat, fill: bool, kind: Kind,
                         ghost content: map<nat, seq<Codec.Entry>>)
    returns (out: seq<Point>)
    requires m.Valid() && RollupFile.LONGEST <= capacity && Encodes(bytes, content, p)
    requires HoldLogs(TagFiles(content), map[tid := m.log])
    requires start <= to && HOUR <= Asked(all, interval, start, to, fill).interval
    ensures var q := Rolled(Asked(all, interval, start, to, fill));
            && out == Down(q, kind, Read(CodedLog(m.log, p), m.tstamp, m.cur, start, to))
            && (!m.unset && InOrder(m.points) && FiniteSamples(m.points)
                && Gapless(Part(m.log, BeginMonth(start), to)) ==>
                  NearOutput(q, kind, Read(m.log, m.tstamp, m.cur, start, to),
                             Down(q, kind, Raw(OfHours(m.points, start, to))), out, Over(0.5, p)))
  {
    hide HoldLogs, Encodes, Lost, Answered, CodedLog, Down, Raw, OfHours, InOrder, FiniteSamples, NearOutput, Over,
         Gapless, Part, MonthOf, Start, Asked, Rolled, Place, SameGaps, Latest, Inv, Dated, Within;
    ghost var logs := map[tid := m.log];
    var tasks := QueryBytes(bytes, capacity, p, {tid}, start, to, content, logs);
    var items := tasks[tid].items;
    assert logs[tid] == m.log && items == FromFiles(CodedLog(m.log, p), start, to);
    assert items + [] == items;
    if InRange(start, to, m.tstamp) == 0 && m.cur.cnt != 0 {
      items := items + [Item(m.tstamp, m.cur)];
    }
    assert items == Read(CodedLog(m.log, p), m.tstamp, m.cur, start, to);
    ReadNotEmpty(CodedLog(m.log, p), m.tstamp, m.cur, start, to);
    out := Downsampler.Run(all, interval, start, to, fill, true, kind, items);
    RolledInHours(all, interval, start, to, fill);
    RangeKept(all, interval, start, to, fill);
    if !m.unset && InOrder(m.points) && FiniteSamples(m.points) && Gapless(Part(m.log, BeginMonth(start), to)) {
      PlacedFinite(m.points);
      FilesAnswer(m.log, m.tstamp, m.cur, m.points, start, to, Rolled(Asked(all, interval, start, to, fill)), kind, p);
    }
  }

  lemma {:induction false} ReadNotEmpty(log: seq<Record>, t: nat, cur: Stats, from: nat, to: nat)
    ensures forall i | 0 <= i < |Read(log, t, cur, from, to)| :: Read(log, t, cur, from, to)[i].s.cnt > 0
  {
    hide MonthOf, Start, Part, Dated, Within;
    EntriesNotEmpty(Part(log, BeginMonth(from), to));
    WithinNotEmpty(Dated(Part(log, BeginMonth(from), to)), from, to);
  }

  lemma {:induction false} RangeKept(all: bool, interval: nat, start: nat, to: nat, fill: bool)
    requires start <= to
    ensures Rolled(Asked(all, interval, start, to, fill)).to == to
  {
    hide RolledInterval, Floor;
  }
}
