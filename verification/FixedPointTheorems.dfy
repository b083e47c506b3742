/**
 What `Compressor_v3` promises over whole runs: timestamps come back exactly, the k-th value after the
 first is off by at most k units of precision, and values on the grid of the precision come back exactly.
 */
module FixedPointTheorems {
  import opened Sequences
  import opened StreamCode
  import opened Series
  import opened FixedPointCode
  import opened FixedPointStream

  // ---------------------------------------------------------------- runs

  /** A run of `compress` calls up to the first refusal, and the points stored by it. */
  datatype Trace = Trace(enc: Enc, stored: seq<Point>, refused: bool)

  function Feed(f: Format, tr: Trace, p: Point): (r: Trace)
    requires tr.enc.start <= p.t
    ensures r.enc.start == tr.enc.start && r.enc.room == tr.enc.room
  {
    if tr.refused then tr
    else
      var o := Compress(f, tr.enc, p.t, p.v);
      if !o.accepted then Trace(o.enc, tr.stored, true)
      else if tr.enc.count != 0 && tr.enc.prevT > p.t then tr.(enc := o.enc)
      else Trace(o.enc, tr.stored + [p], false)
  }

  function Play(f: Format, start: U64, room: nat, calls: seq<Point>): (tr: Trace)
    requires Callable(start, calls)
    ensures tr.enc.start == start && tr.enc.room == room
    decreases |calls|
  {
    if calls == [] then Trace(Init(start, room), [], false)
    else Feed(f, Play(f, start, room, calls[..|calls| - 1]), calls[|calls| - 1])
  }

  // ---------------------------------------------------------------- what is promised of the decoded points

  predicate SameTimes(ds: seq<Point>, ps: seq<Point>) {
    |ds| == |ps| && forall i | 0 <= i < |ps| :: ds[i].t == ps[i].t
  }

  /** The error grows by at most one unit with every point. */
  predicate Close(ds: seq<Point>, ps: seq<Point>, p: Precision) {
    |ds| == |ps| && forall i | 0 <= i < |ps| :: Near(ds[i].v, ps[i].v, Over(i as real, p))
  }

  function Diff(ps: seq<Point>, i: nat): real
    requires 0 < i < |ps|
  {
    ps[i].v - ps[i - 1].v
  }

  /** What a caller can check about values: every difference, scaled by the precision, is a 64-bit number. */
  predicate ScaledRun(ps: seq<Point>, p: Precision) { forall i | 0 < i < |ps| :: Scales(Diff(ps, i), p) }

  /** Every difference is a whole number of units. */
  predicate GridRun(ps: seq<Point>, p: Precision) { forall i | 0 < i < |ps| :: OnGrid(Diff(ps, i), p) }

  ghost predicate Reads(r: Decoded, ps: seq<Point>) {
    r.Decoded? && r.clean && |r.points| == |ps| > 0 && r.last.v == r.points[|ps| - 1].v
  }

  ghost predicate TimesHold(start: U64, ps: seq<Point>, r: Decoded)
    requires Reads(r, ps)
  {
    && (SameTimes(r.points, ps) <==> ps[0].t - start < TWO32)
    && (SameTimes(r.points, ps) ==> r.last.t == ps[|ps| - 1].t && r.last.delta == LastDelta(start, ps))
  }

  ghost predicate ValuesHold(f: Format, ps: seq<Point>, r: Decoded)
    requires Reads(r, ps)
  {
    Representable(f, ps[0].v) && ScaledRun(ps, f.p) ==>
      && Close(r.points, ps, f.p)
      && (GridRun(ps, f.p) ==> forall i | 0 <= i < |ps| :: r.points[i].v == ps[i].v)
  }

  ghost predicate Faithful(f: Format, start: U64, ps: seq<Point>, r: Decoded) {
    Reads(r, ps) && TimesHold(start, ps, r) && ValuesHold(f, ps, r)
  }

  // ---------------------------------------------------------------- one more point

  lemma {:induction false} NextTimes(start: U64, ps: seq<Point>, p: Point, r: Decoded, r': Decoded,
                                     prevDelta: U64, dv: real)
    requires Reads(r, ps) && TimesHold(start, ps, r) && start <= ps[0].t && ps[|ps| - 1].t <= p.t
    requires prevDelta == if |ps| == 1 then LastDelta(start, ps) % TWO32 else LastDelta(start, ps)
    requires Reads(r', ps + [p]) && r'.last == Advanced(r.last, Dod(p.t - ps[|ps| - 1].t, prevDelta), dv)
    requires r'.points == r.points + [Point(r'.last.t, r'.last.v)]
    ensures TimesHold(start, ps + [p], r')
  {
    hide ReadPoint, DecodeRest;
    var ps', k := ps + [p], |ps|;
    assert SameTimes(r'.points, ps') <==> SameTimes(r.points, ps) && r'.last.t == p.t by {
      SnocTimes(r.points, r'.points[k], ps, p);
    }
    if SameTimes(r.points, ps) {
      DodAddsBack(p.t - ps[k - 1].t, prevDelta, Dod(p.t - ps[k - 1].t, prevDelta));
    }
  }

  lemma {:induction false} SnocTimes(ds: seq<Point>, d: Point, ps: seq<Point>, p: Point)
    ensures |ds| == |ps| ==> (SameTimes(ds + [d], ps + [p]) <==> SameTimes(ds, ps) && d.t == p.t)
  {
    if |ds| == |ps| && SameTimes(ds + [d], ps + [p]) {
      forall i | 0 <= i < |ps| ensures ds[i].t == ps[i].t {
        assert (ds + [d])[i].t == (ps + [p])[i].t;
      }
      assert (ds + [d])[|ps|].t == (ps + [p])[|ps|].t;
    }
  }

  lemma {:induction false} NextError(a: real, b: real, dv: real, v: real, k: nat, p: Precision)
    requires Near(a, b, Over(k as real, p)) && Near(dv, v - b, Unit(p))
    ensures Near(a + dv, v, Over((k + 1) as real, p))
  {
    hide Over;
    OverDiff((k + 1) as real, 1.0, p);
    assert (k + 1) as real - 1.0 == k as real;
  }

  lemma {:induction false} RunSnoc(ps: seq<Point>, p: Point, prec: Precision)
    requires ps != []
    ensures ScaledRun(ps + [p], prec) ==> ScaledRun(ps, prec) && Scales(p.v - ps[|ps| - 1].v, prec)
    ensures GridRun(ps + [p], prec) ==> GridRun(ps, prec) && OnGrid(p.v - ps[|ps| - 1].v, prec)
  {
    hide Scales, OnGrid;
    var qs := ps + [p];
    assert Diff(qs, |ps|) == p.v - ps[|ps| - 1].v;
    assert forall i | 0 < i < |ps| :: Diff(qs, i) == Diff(ps, i);
  }

  lemma {:induction false} NextValues(f: Format, ps: seq<Point>, p: Point, r: Decoded, r': Decoded)
    requires Reads(r, ps) && ValuesHold(f, ps, r) && Reads(r', ps + [p])
    requires r'.last.v == r.last.v + StoredFloat(p.v - ps[|ps| - 1].v, f.p)
    requires r'.points == r.points + [Point(r'.last.t, r'.last.v)]
    ensures ValuesHold(f, ps + [p], r')
  {
    hide Scales, OnGrid, StoredFloat, Over, Near, ScaledRun, GridRun;
    var k, ps', v := |ps|, ps + [p], p.v - ps[|ps| - 1].v;
    if Representable(f, ps'[0].v) && ScaledRun(ps', f.p) {
      RunSnoc(ps, p, f.p);
      StoredFloatNear(v, f.p);
      assert Near(r.points[k - 1].v, ps[k - 1].v, Over((k - 1) as real, f.p));
      NextError(r.points[k - 1].v, ps[k - 1].v, StoredFloat(v, f.p), p.v, k - 1, f.p);
    }
  }

  // ---------------------------------------------------------------- the invariant of a run

  ghost predicate Counts(e: Enc, ps: seq<Point>) {
    && |ps| <= 0x1_0000
    && e.count == |ps| % 0x1_0000
    && (ps != [] ==> |e.bits| >= 96 + 3 * (|ps| - 1))
  }

  ghost predicate Follows(e: Enc, ps: seq<Point>)
    requires ps != []
  {
    && e.prevT == ps[|ps| - 1].t && e.start <= ps[0].t
    && e.prevDelta == (if |ps| == 1 then LastDelta(e.start, ps) % TWO32 else LastDelta(e.start, ps))
  }

  ghost predicate TraceOk(f: Format, tr: Trace) {
    var e, ps := tr.enc, tr.stored;
    && Counts(e, ps)
    && (ps == [] ==> e.bits == [])
    && (ps != [] ==> e.prevV == ps[|ps| - 1].v && Faithful(f, e.start, ps, Decode(f, e.start, e.bits)))
    && (ps != [] && !tr.refused ==> Follows(e, ps))
  }

  lemma {:induction false} FirstFaithful(f: Format, start: U64, p: Point, r: Decoded)
    requires start <= p.t
    requires var d := Dec(Wrap(start + (p.t - start) % TWO32), (p.t - start) % TWO32, f.value(f.bits(p.v)));
             r == Decoded([Point(d.t, d.v)], d, true)
    ensures Faithful(f, start, [p], r)
  {
    assert Over(0.0, f.p) == 0.0;
  }

  lemma {:induction false} KeepsFirst(f: Format, tr: Trace, p: Point, e': Enc)
    requires TraceOk(f, tr) && tr.stored == [] && tr.enc.start <= p.t
    requires Outcome(e', true) == CompressFirst(f, tr.enc, p.t, p.v)
    ensures TraceOk(f, Trace(e', tr.stored + [p], false))
  {
    hide Decode, HeaderCode, Faithful;
    var offset := p.t - tr.enc.start;
    HeaderReads(f, tr.enc.start, offset, p.v);
    assert e'.bits == HeaderCode(offset, f.bits(p.v));
    FirstFaithful(f, tr.enc.start, p, Decode(f, e'.start, e'.bits));
    assert tr.stored + [p] == [p];
  }

  lemma {:induction false} NextFaithful(f: Format, e: Enc, ps: seq<Point>, p: Point, e': Enc)
    requires ps != [] && Faithful(f, e.start, ps, Decode(f, e.start, e.bits)) && Follows(e, ps)
    requires e.prevV == ps[|ps| - 1].v && e.prevT <= p.t && e'.start == e.start
    requires e'.bits == e.bits + (IntCode(Dod(p.t - e.prevT, e.prevDelta)) + FloatCode(p.v - e.prevV, f.p))
    ensures Faithful(f, e'.start, ps + [p], Decode(f, e'.start, e'.bits))
  {
    hide Decode, ReadPoint, IntCode, FloatCode, TimesHold, ValuesHold, StoredFloat;
    var r := Decode(f, e.start, e.bits);
    var dod, dv := Dod(p.t - e.prevT, e.prevDelta), StoredFloat(p.v - e.prevV, f.p);
    var code := IntCode(dod) + FloatCode(p.v - e.prevV, f.p);
    NextCodeReads(f.p, r.last, dod, p.v - e.prevV);
    DecodeSnoc(f, e.start, e.bits, code, Advanced(r.last, dod, dv));
    var r' := Decode(f, e'.start, e'.bits);
    NextTimes(e.start, ps, p, r, r', e.prevDelta, dv);
    NextValues(f, ps, p, r, r');
  }

  lemma {:induction false} KeepsNext(f: Format, tr: Trace, p: Point, e': Enc)
    requires TraceOk(f, tr) && !tr.refused && tr.stored != [] && |tr.stored| < 0x1_0000 && tr.enc.prevT <= p.t
    requires Outcome(e', true) == CompressNext(f, tr.enc, p.t, p.v)
    ensures TraceOk(f, Trace(e', tr.stored + [p], false))
  {
    hide Decode, IntCode, FloatCode, Faithful, Dod;
    NextFaithful(f, tr.enc, tr.stored, p, e');
  }

  /** Bits needed to fool the 16-bit counter: a header, 65535 three-bit points, and a second header. */
  const FOOLED: nat := 96 + 3 * 0xFFFF + 96

  lemma {:induction false} KeepsFeed(f: Format, tr: Trace, p: Point)
    requires TraceOk(f, tr) && tr.enc.start <= p.t && tr.enc.room < FOOLED
    ensures TraceOk(f, Feed(f, tr, p))
    ensures tr.refused ==> Feed(f, tr, p) == tr
    ensures !tr.refused ==> Feed(f, tr, p).stored == if Feed(f, tr, p).refused then tr.stored else Keep(tr.stored, p)
    ensures !tr.refused && Feed(f, tr, p).refused ==> Feed(f, tr, p).enc.full && Feed(f, tr, p).enc.bits == tr.enc.bits
  {
    hide Decode, IntCode, FloatCode, Faithful, Dod, HeaderCode;
    if !tr.refused {
      var o := Compress(f, tr.enc, p.t, p.v);
      if o.accepted {
        if tr.stored == [] {
          KeepsFirst(f, tr, p, o.enc);
        } else if tr.enc.prevT <= p.t {
          KeepsNext(f, tr, p, o.enc);
        }
      }
    }
  }

  lemma {:induction false} PlaySnoc(f: Format, start: U64, room: nat, calls: seq<Point>)
    requires Callable(start, calls) && calls != []
    ensures Play(f, start, room, calls) == Feed(f, Play(f, start, room, calls[..|calls| - 1]), calls[|calls| - 1])
  {
    hide Feed;
  }

  lemma {:induction false} PlayNone(f: Format, start: U64, room: nat)
    ensures var tr := Play(f, start, room, []); !tr.refused && tr.stored == Kept([]) && TraceOk(f, tr)
  {
  }

  lemma {:induction false} PlayHolds(f: Format, start: U64, room: nat, calls: seq<Point>) returns (used: nat)
    requires Callable(start, calls) && room < FOOLED
    ensures TraceOk(f, Play(f, start, room, calls))
    ensures used <= |calls| && Play(f, start, room, calls).stored == Kept(calls[..used])
    ensures forall j | 0 <= j <= |calls| :: Play(f, start, room, calls[..j]).refused <==> used < j
    decreases |calls|
  {
    hide Feed, Keep, Kept, Play, TraceOk;
    if calls == [] {
      used := 0;
      PlayNone(f, start, room);
    } else {
      var k := |calls| - 1;
      var before := calls[..k];
      used := PlayHolds(f, start, room, before);
      var tr := Play(f, start, room, before);
      KeepsFeed(f, tr, calls[k]);
      PlaySnoc(f, start, room, calls);
      KeptSnoc(calls);
      PrefixesOf(calls);
      assert before[..k] == before;
      if !tr.refused && !Feed(f, tr, calls[k]).refused { used := k + 1; }
    }
  }

  /**
   Up to the first refused call the page holds the kept points: their times come back exactly when the
   first is within 32 bits of the start, and the i-th value is off by at most i units, or not at all when
   all values are on the grid.
   */
  lemma {:induction false} RoundTrip(f: Format, start: U64, room: nat, calls: seq<Point>) returns (used: nat)
    requires Callable(start, calls) && room < FOOLED
    ensures used <= |calls| && (forall j | 0 <= j <= |calls| :: Play(f, start, room, calls[..j]).refused <==> used < j)
    ensures Play(f, start, room, calls).stored == Kept(calls[..used])
    ensures var kept := Kept(calls[..used]);
            var out := Decode(f, start, Play(f, start, room, calls).enc.bits);
            kept != [] ==>
              && out.Decoded? && |out.points| == |kept|
              && (SameTimes(out.points, kept) <==> kept[0].t - start < TWO32)
              && (Representable(f, kept[0].v) && ScaledRun(kept, f.p) ==> Close(out.points, kept, f.p))
              && (Representable(f, kept[0].v) && ScaledRun(kept, f.p) && GridRun(kept, f.p) ==>
                    forall i | 0 <= i < |kept| :: out.points[i].v == kept[i].v)
  {
    hide Play, Decode, Kept, Close, SameTimes, ScaledRun, GridRun;
    used := PlayHolds(f, start, room, calls);
  }
}
