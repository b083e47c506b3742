/**
 Saving and restoring `Compressor_v3`: a restored compressor goes on from the value its reader came to, not from
 the one that was last written.  When the two differ a stop is visible, but it costs no accuracy: the error of
 later values starts again from nothing.
 */
module FixedPointRestore {
  import opened Sequences
  import opened BitCode
  import opened StreamCode
  import opened Series
  import opened FixedPointCode
  import opened FixedPointStream
  import opened FixedPointTheorems

  /** A compressor initialised and then restored from `bits`. */
  function Restored(f: Format, start: U64, room: nat, bits: seq<bool>): (e: Enc)
    requires Decode(f, start, bits).Decoded?
    ensures e.start == start && e.room == room
  {
    var r := Decode(f, start, bits);
    Enc(start, room, bits, |r.points| % 0x1_0000, r.last.t, r.last.delta, r.last.v, false)
  }

  /** A run that stopped before any refusal, with its timestamps in range. */
  predicate Stopped(start: U64, tr: Trace) {
    !tr.refused && tr.stored != [] && tr.stored[0].t - start < TWO32
  }

  lemma {:induction false} NotFull(f: Format, start: U64, room: nat, calls: seq<Point>)
    requires Callable(start, calls) && !Play(f, start, room, calls).refused
    ensures !Play(f, start, room, calls).enc.full
    decreases |calls|
  {
    hide HeaderCode, IntCode, FloatCode;
    if calls != [] { NotFull(f, start, room, calls[..|calls| - 1]); }
  }

  /** The reader ends at the time, the delta and the value that the writer is at. */
  predicate EndsAlike(e: Enc, d: Dec) { d.t == e.prevT && d.delta == e.prevDelta && d.v == e.prevV }

  /**
   The restored compressor is the saved one exactly when the reader ends where the writer is.  With the first
   timestamp in range that is a matter of the last value alone, and all differences being whole numbers of units
   suffices.
   */
  lemma {:induction false} RestoredSameIff(f: Format, start: U64, room: nat, calls: seq<Point>)
    requires Callable(start, calls) && room < FOOLED
    requires !Play(f, start, room, calls).refused && Play(f, start, room, calls).stored != []
    ensures var tr := Play(f, start, room, calls);
            var r := Decode(f, start, tr.enc.bits);
            && r.Decoded?
            && (Restored(f, start, room, tr.enc.bits) == tr.enc <==> EndsAlike(tr.enc, r.last))
            && (tr.stored[0].t - start < TWO32 ==>
                  && (EndsAlike(tr.enc, r.last) <==> r.last.v == tr.stored[|tr.stored| - 1].v)
                  && (Representable(f, tr.stored[0].v) && ScaledRun(tr.stored, f.p) && GridRun(tr.stored, f.p) ==>
                        EndsAlike(tr.enc, r.last)))
  {
    hide Play, Decode, ScaledRun, GridRun, Close;
    var used := PlayHolds(f, start, room, calls);
    NotFull(f, start, room, calls);
  }

  // ---------------------------------------------------------------- going on

  function PlayOn(f: Format, tr: Trace, more: seq<Point>): (r: Trace)
    requires Callable(tr.enc.start, more)
    ensures r.enc.start == tr.enc.start && r.enc.room == tr.enc.room
    decreases |more|
  {
    if more == [] then tr else Feed(f, PlayOn(f, tr, more[..|more| - 1]), more[|more| - 1])
  }

  /** A run that never stopped. */
  lemma {:induction false} PlayGoesOn(f: Format, start: U64, room: nat, calls: seq<Point>, more: seq<Point>)
    requires Callable(start, calls) && Callable(start, more)
    ensures Callable(start, calls + more)
    ensures Play(f, start, room, calls + more) == PlayOn(f, Play(f, start, room, calls), more)
    decreases |more|
  {
    hide Feed;
    if more == [] {
      assert calls + more == calls;
    } else {
      var k := |more| - 1;
      PlayGoesOn(f, start, room, calls, more[..k]);
      assert (calls + more)[..|calls| + k] == calls + more[..k];
    }
  }

  /** If the reader ends where the writer is, a stop is invisible. */
  lemma {:induction false} AlikeInvisible(f: Format, start: U64, room: nat, calls: seq<Point>, more: seq<Point>)
    requires Callable(start, calls) && Callable(start, more) && room < FOOLED
    requires !Play(f, start, room, calls).refused && Play(f, start, room, calls).stored != []
    ensures Callable(start, calls + more)
    ensures var tr := Play(f, start, room, calls);
            var r := Decode(f, start, tr.enc.bits);
            && r.Decoded?
            && (EndsAlike(tr.enc, r.last) ==>
                  PlayOn(f, tr.(enc := Restored(f, start, room, tr.enc.bits)), more) ==
                  Play(f, start, room, calls + more))
  {
    hide Play, PlayOn, Decode, Restored, EndsAlike;
    RestoredSameIff(f, start, room, calls);
    PlayGoesOn(f, start, room, calls, more);
  }

  /** The points kept after `kept`. */
  function KeepOn(kept: seq<Point>, more: seq<Point>): seq<Point> {
    if more == [] then kept else Keep(KeepOn(kept, more[..|more| - 1]), more[|more| - 1])
  }

  lemma {:induction false} KeepOnExtends(kept: seq<Point>, more: seq<Point>)
    ensures |KeepOn(kept, more)| >= |kept| && KeepOn(kept, more)[..|kept|] == kept
  {
    if more != [] { KeepOnExtends(kept, more[..|more| - 1]); }
  }

  /** The reader is where the writer is: as if the decoded points had been the written ones. */
  lemma {:induction false} RestoredTrace(f: Format, start: U64, room: nat, calls: seq<Point>)
    requires Callable(start, calls) && room < FOOLED && Stopped(start, Play(f, start, room, calls))
    ensures var bits := Play(f, start, room, calls).enc.bits;
            var r := Decode(f, start, bits);
            && r.Decoded? && |r.points| > 0
            && TraceOk(f, Trace(Restored(f, start, room, bits), r.points, false))
  {
    hide Play, Decode, ScaledRun, GridRun;
    var tr := Play(f, start, room, calls);
    var used := PlayHolds(f, start, room, calls);
    var r := Decode(f, start, tr.enc.bits);
    assert SameTimes(r.points, tr.stored);
    DecodedDeltas(start, r, tr.stored);
    OwnClose(r.points, f.p);
  }

  lemma {:induction false} DecodedDeltas(start: U64, r: Decoded, ps: seq<Point>)
    requires r.Decoded? && SameTimes(r.points, ps) && ps != []
    ensures LastDelta(start, r.points) == LastDelta(start, ps)
  {
  }

  lemma {:induction false} OwnClose(ps: seq<Point>, p: Precision)
    ensures Close(ps, ps, p)
  {
    forall i | 0 <= i < |ps| ensures Near(ps[i].v, ps[i].v, Over(i as real, p)) {
      assert Over(i as real, p) >= 0.0;
    }
  }

  // ---------------------------------------------------------------- the error starts again

  /** The differences written after the first `n` points are 64-bit numbers when scaled. */
  predicate ScaledFrom(ps: seq<Point>, n: nat, p: Precision) {
    forall i | 0 < i < |ps| && n <= i :: Scales(Diff(ps, i), p)
  }

  /** The first `n` values are exact, and the error of later ones grows by a unit each. */
  predicate CloseFrom(ds: seq<Point>, ps: seq<Point>, n: nat, p: Precision) {
    && |ds| == |ps|
    && (forall i | 0 <= i < |ps| && i < n :: ds[i].v == ps[i].v)
    && (forall i | 0 <= i < |ps| && n <= i :: Near(ds[i].v, ps[i].v, Over((i - n + 1) as real, p)))
  }

  ghost predicate Resumed(f: Format, tr: Trace, n: nat) {
    var r := Decode(f, tr.enc.start, tr.enc.bits);
    r.Decoded? && (ScaledFrom(tr.stored, n, f.p) ==> CloseFrom(r.points, tr.stored, n, f.p))
  }

  /** The reader after one point more. */
  function Moved(f: Format, e: Enc, d: Dec, p: Point): Dec
    requires e.prevT <= p.t
  {
    Advanced(d, Dod(p.t - e.prevT, e.prevDelta), StoredFloat(p.v - e.prevV, f.p))
  }

  /** What a point more adds to what is read back. */
  lemma {:induction false} NextDecoded(f: Format, e: Enc, p: Point, e': Enc)
    requires Decode(f, e.start, e.bits).Decoded? && Decode(f, e.start, e.bits).clean && e.prevT <= p.t
    requires Outcome(e', true) == CompressNext(f, e, p.t, p.v)
    ensures var r, r' := Decode(f, e.start, e.bits), Decode(f, e.start, e'.bits);
            && r'.Decoded? && r'.last == Moved(f, e, r.last, p)
            && r'.points == r.points + [Point(r'.last.t, r'.last.v)]
  {
    hide Decode, ReadPoint, IntCode, FloatCode, StoredFloat;
    var r := Decode(f, e.start, e.bits);
    var dod, dv := Dod(p.t - e.prevT, e.prevDelta), StoredFloat(p.v - e.prevV, f.p);
    NextCodeReads(f.p, r.last, dod, p.v - e.prevV);
    DecodeSnoc(f, e.start, e.bits, IntCode(dod) + FloatCode(p.v - e.prevV, f.p), Advanced(r.last, dod, dv));
  }

  lemma {:induction false} ScaledFromSnoc(ps: seq<Point>, p: Point, n: nat, prec: Precision)
    requires ps != [] && n <= |ps| && ScaledFrom(ps + [p], n, prec)
    ensures ScaledFrom(ps, n, prec) && Scales(p.v - ps[|ps| - 1].v, prec)
  {
    hide Scales;
    var qs := ps + [p];
    assert Diff(qs, |ps|) == p.v - ps[|ps| - 1].v;
    forall i | 0 < i < |ps| && n <= i ensures Scales(Diff(ps, i), prec) { assert Diff(qs, i) == Diff(ps, i); }
  }

  lemma {:induction false} NextClose(ds: seq<Point>, d: Point, ps: seq<Point>, p: Point, n: nat, prec: Precision)
    requires 0 < n <= |ps| && CloseFrom(ds, ps, n, prec)
    requires Scales(p.v - ps[|ps| - 1].v, prec)
    requires d.v == ds[|ds| - 1].v + StoredFloat(p.v - ps[|ps| - 1].v, prec)
    ensures CloseFrom(ds + [d], ps + [p], n, prec)
  {
    hide StoredFloat, Scales, Over, Near;
    var k, v := |ps|, p.v - ps[|ps| - 1].v;
    StoredFloatNear(v, prec);
    if k == n { ExactIsNear(ds[k - 1].v, prec); }
    NextError(ds[k - 1].v, ps[k - 1].v, StoredFloat(v, prec), p.v, k - n, prec);
  }

  lemma {:induction false} ExactIsNear(v: real, p: Precision)
    ensures Near(v, v, Over(0 as real, p))
  {
  }

  lemma {:induction false} ResumedNext(f: Format, tr: Trace, n: nat, p: Point, e': Enc)
    requires TraceOk(f, tr) && Resumed(f, tr, n) && 0 < n <= |tr.stored| && tr.enc.prevT <= p.t
    requires Outcome(e', true) == CompressNext(f, tr.enc, p.t, p.v)
    ensures Resumed(f, Trace(e', tr.stored + [p], false), n)
  {
    hide Decode, CompressNext, TimesHold, ValuesHold, ScaledFrom, CloseFrom, StoredFloat;
    var e, ps := tr.enc, tr.stored;
    NextDecoded(f, e, p, e');
    SameStart(f, e, p, e');
    if ScaledFrom(ps + [p], n, f.p) {
      ScaledFromSnoc(ps, p, n, f.p);
      var ds, r' := Decode(f, e.start, e.bits).points, Decode(f, e.start, e'.bits);
      CloseLength(ds, ps, n, f.p);
      NextClose(ds, Point(r'.last.t, r'.last.v), ps, p, n, f.p);
    }
  }

  lemma {:induction false} SameStart(f: Format, e: Enc, p: Point, e': Enc)
    requires e.prevT <= p.t && Outcome(e', true) == CompressNext(f, e, p.t, p.v)
    ensures e'.start == e.start
  {
    hide IntCode, FloatCode;
  }

  /** A call that is accepted and not dropped appends to the points before it. */
  lemma {:induction false} FeedCases(f: Format, tr: Trace, p: Point)
    requires TraceOk(f, tr) && !tr.refused && tr.stored != [] && tr.enc.start <= p.t && tr.enc.room < FOOLED
    ensures var o := Compress(f, tr.enc, p.t, p.v);
            if o.accepted && tr.enc.prevT <= p.t then
              o == CompressNext(f, tr.enc, p.t, p.v) && Feed(f, tr, p) == Trace(o.enc, tr.stored + [p], false)
            else Feed(f, tr, p).stored == tr.stored && Feed(f, tr, p).enc.bits == tr.enc.bits
  {
    hide Decode, Faithful, IntCode, FloatCode, HeaderCode;
  }

  lemma {:induction false} ResumedFeed(f: Format, tr: Trace, n: nat, p: Point)
    requires TraceOk(f, tr) && Resumed(f, tr, n) && 0 < n <= |tr.stored|
    requires tr.enc.start <= p.t && tr.enc.room < FOOLED
    ensures Resumed(f, Feed(f, tr, p), n)
  {
    hide TraceOk, Compress, CompressNext, Decode, ScaledFrom, CloseFrom;
    if !tr.refused {
      FeedCases(f, tr, p);
      var o := Compress(f, tr.enc, p.t, p.v);
      if o.accepted && tr.enc.prevT <= p.t { ResumedNext(f, tr, n, p, o.enc); }
    }
  }

  lemma {:induction false} CloseLength(ds: seq<Point>, ps: seq<Point>, n: nat, p: Precision)
    requires CloseFrom(ds, ps, n, p)
    ensures |ds| == |ps|
  {
  }

  lemma {:induction false} ResumedPlay(f: Format, tr: Trace, n: nat, more: seq<Point>) returns (used: nat)
    requires TraceOk(f, tr) && Resumed(f, tr, n) && !tr.refused && 0 < n == |tr.stored|
    requires Callable(tr.enc.start, more) && tr.enc.room < FOOLED
    ensures TraceOk(f, PlayOn(f, tr, more)) && Resumed(f, PlayOn(f, tr, more), n)
    ensures used <= |more| && PlayOn(f, tr, more).stored == KeepOn(tr.stored, more[..used])
    ensures PlayOn(f, tr, more).refused <==> used < |more|
    decreases |more|
  {
    hide Feed, Keep, Resumed, TraceOk;
    if more == [] {
      used := 0;
    } else {
      var k := |more| - 1;
      var before := more[..k];
      used := ResumedPlay(f, tr, n, before);
      var was := PlayOn(f, tr, before);
      KeepOnExtends(tr.stored, before[..used]);
      KeepsFeed(f, was, more[k]);
      ResumedFeed(f, was, n, more[k]);
      PrefixesOf(more);
      assert before[..k] == before;
      if !was.refused && !Feed(f, was, more[k]).refused { used := k + 1; }
    }
  }

  /**
   Going on after a restore: up to the first refused call the page holds what could be read before the stop and
   then the kept points of `more`.  All times come back, what could be read before is read again unchanged, and
   the i-th value after the stop is off by at most i units.
   */
  lemma {:induction false} RestoreRestartsError(f: Format, start: U64, room: nat, calls: seq<Point>, more: seq<Point>)
    returns (used: nat)
    requires Callable(start, calls) && Callable(start, more) && room < FOOLED
    requires Stopped(start, Play(f, start, room, calls))
    ensures var bits := Play(f, start, room, calls).enc.bits;
            var was := Decode(f, start, bits);
            && used <= |more| && was.Decoded? && SameTimes(was.points, Play(f, start, room, calls).stored)
            && var again := PlayOn(f, Trace(Restored(f, start, room, bits), was.points, false), more);
               var out := Decode(f, start, again.enc.bits);
               && (again.refused <==> used < |more|) && again.stored == KeepOn(was.points, more[..used])
               && out.Decoded? && SameTimes(out.points, again.stored)
               && (ScaledFrom(again.stored, |was.points|, f.p) ==>
                     CloseFrom(out.points, again.stored, |was.points|, f.p))
  {
    hide Play, Decode, Feed, PlayOn, KeepOn, ScaledFrom, CloseFrom, ValuesHold;
    var n := PlayHolds(f, start, room, calls);
    var bits := Play(f, start, room, calls).enc.bits;
    var was := Decode(f, start, bits);
    RestoredTrace(f, start, room, calls);
    var tr := Trace(Restored(f, start, room, bits), was.points, false);
    OwnCloseFrom(was.points, f.p);
    used := ResumedPlay(f, tr, |was.points|, more);
    KeepOnExtends(was.points, more[..used]);
  }

  lemma {:induction false} OwnCloseFrom(ps: seq<Point>, p: Precision)
    ensures CloseFrom(ps, ps, |ps|, p)
  {
  }

  // ---------------------------------------------------------------- a stop that shows

  /** How far the reader has drifted from the writer: by the first value and by every difference since. */
  function Drift(f: Format, ps: seq<Point>): real {
    if ps == [] then 0.0
    else if |ps| == 1 then f.value(f.bits(ps[0].v)) - ps[0].v
    else
      var k := |ps| - 1;
      Drift(f, ps[..k]) + (StoredFloat(Diff(ps, k), f.p) - Diff(ps, k))
  }

  lemma {:induction false} DriftSnoc(f: Format, ps: seq<Point>, p: Point)
    requires ps != []
    ensures Drift(f, ps + [p]) ==
            Drift(f, ps) + (StoredFloat(p.v - ps[|ps| - 1].v, f.p) - (p.v - ps[|ps| - 1].v))
  {
    hide StoredFloat;
    assert (ps + [p])[..|ps|] == ps;
  }

  /** How much of the first timestamp the 32 bits of the header lose. */
  function Shift(start: U64, ps: seq<Point>): int {
    if ps == [] then 0 else ps[0].t - start - (ps[0].t - start) % TWO32
  }

  /** The last value is read back off by the drift, and its time by the shift. */
  ghost predicate Drifted(f: Format, tr: Trace) {
    tr.stored != [] ==>
      var e, ps := tr.enc, tr.stored;
      var r := Decode(f, e.start, e.bits);
      && r.Decoded? && r.last.v == ps[|ps| - 1].v + Drift(f, ps)
      && e.start <= r.last.t == ps[|ps| - 1].t - Shift(e.start, ps)
      && r.last.delta == if |ps| == 1 then LastDelta(e.start, ps) % TWO32 else LastDelta(e.start, ps)
  }

  lemma {:induction false} DriftNext(f: Format, tr: Trace, p: Point, e': Enc)
    requires TraceOk(f, tr) && !tr.refused && Drifted(f, tr) && tr.stored != [] && tr.enc.prevT <= p.t
    requires Outcome(e', true) == CompressNext(f, tr.enc, p.t, p.v)
    ensures Drifted(f, Trace(e', tr.stored + [p], false))
  {
    hide Decode, CompressNext, TimesHold, ValuesHold, StoredFloat, Drift, Dod, Wrap;
    var e, ps := tr.enc, tr.stored;
    NextDecoded(f, e, p, e');
    DeltaArrives(Decode(f, e.start, e.bits).last, e.prevDelta, p.t - e.prevT);
    SameStart(f, e, p, e');
    DriftSnoc(f, ps, p);
  }

  /** A reader that is at the right delta and not ahead in time moves on by exactly the next delta. */
  lemma {:induction false} DeltaArrives(d: Dec, prevDelta: U64, delta: U64)
    requires d.delta == prevDelta && d.t + delta < TWO64
    ensures var dod := Dod(delta, prevDelta);
            -TWO63 <= dod < TWO63 && Wrap(d.delta + dod) == delta && Wrap(d.t + delta) == d.t + delta
  {
    DodAddsBack(delta, prevDelta, Dod(delta, prevDelta));
  }

  lemma {:induction false} DriftFirst(f: Format, tr: Trace, p: Point)
    requires TraceOk(f, tr) && !tr.refused && tr.stored == [] && tr.enc.start <= p.t
    ensures Drifted(f, Feed(f, tr, p))
  {
    hide Decode, HeaderCode, Faithful;
    var offset := p.t - tr.enc.start;
    HeaderReads(f, tr.enc.start, offset, p.v);
    assert [] + HeaderCode(offset, f.bits(p.v)) == HeaderCode(offset, f.bits(p.v));
    assert [] + [p] == [p];
  }

  lemma {:induction false} DriftFeed(f: Format, tr: Trace, p: Point)
    requires TraceOk(f, tr) && Drifted(f, tr) && tr.enc.start <= p.t && tr.enc.room < FOOLED
    ensures Drifted(f, Feed(f, tr, p))
  {
    hide TraceOk, Compress, CompressNext, Decode, Drift;
    if !tr.refused {
      if tr.stored == [] {
        DriftFirst(f, tr, p);
      } else {
        FeedCases(f, tr, p);
        var o := Compress(f, tr.enc, p.t, p.v);
        if o.accepted && tr.enc.prevT <= p.t { DriftNext(f, tr, p, o.enc); }
      }
    }
  }

  lemma {:induction false} DriftHolds(f: Format, start: U64, room: nat, calls: seq<Point>)
    requires Callable(start, calls) && room < FOOLED
    ensures Drifted(f, Play(f, start, room, calls))
    decreases |calls|
  {
    hide Feed, Play, Drifted;
    if calls == [] {
      NothingDrifted(f, start, room);
    } else {
      var before := calls[..|calls| - 1];
      DriftHolds(f, start, room, before);
      var used := PlayHolds(f, start, room, before);
      PlaySnoc(f, start, room, calls);
      DriftFeed(f, Play(f, start, room, before), calls[|calls| - 1]);
    }
  }

  lemma {:induction false} NothingDrifted(f: Format, start: U64, room: nat)
    ensures Drifted(f, Play(f, start, room, []))
  {
  }

  /** Without drift a stop is invisible, however full the page is: everything goes on as if there had been none. */
  lemma {:induction false} RestoreInvisible(f: Format, start: U64, room: nat, calls: seq<Point>, more: seq<Point>)
    requires Callable(start, calls) && Callable(start, more) && room < FOOLED
    requires Stopped(start, Play(f, start, room, calls)) && Drift(f, Play(f, start, room, calls).stored) == 0.0
    ensures Callable(start, calls + more)
    ensures var tr := Play(f, start, room, calls);
            && Decode(f, start, tr.enc.bits).Decoded?
            && PlayOn(f, tr.(enc := Restored(f, start, room, tr.enc.bits)), more) ==
               Play(f, start, room, calls + more)
  {
    hide Play, PlayOn, Decode, Restored, Drift, ScaledRun, GridRun;
    RestoredSameIff(f, start, room, calls);
    DriftHolds(f, start, room, calls);
    AlikeInvisible(f, start, room, calls, more);
  }

  // ---------------------------------------------------------------- telling two values apart

  lemma {:induction false} CodesDiffer(q: Quantum, n: int)
    requires q.scaled || ((q.n == 0) != (n == 0))
    ensures [q.scaled] + IntCode(q.n) != [false] + IntCode(n)
  {
    hide ToBits;
    var a, b := [q.scaled] + IntCode(q.n), [false] + IntCode(n);
    assert a[0] == q.scaled && b[0] == false;
    assert a[1] == IntCode(q.n)[0] && b[1] == IntCode(n)[0];
  }

  /** A difference of a unit or more is not stored as nothing. */
  lemma {:induction false} UnitShows(d: real, p: Precision)
    requires d <= -Unit(p) || Unit(p) <= d
    ensures Quantise(d, p).scaled || Quantise(d, p).n != 0
  {
    hide Over, Rounded;
  }

  lemma {:induction false} UnitAtMostOne(p: Precision)
    ensures 0.0 < Unit(p) <= 1.0
  {
    assert 1.0 / p as real <= 1.0;
  }

  /** A difference of less than a unit is stored as nothing, in the shortest code there is. */
  lemma {:induction false} LessIsNothing(d: real, p: Precision)
    requires -Unit(p) < d < Unit(p)
    ensures FloatCode(d, p) == [false, false]
  {
    UnitAtMostOne(p);
    assert Truncated(d) == 0;
  }

  /** From two different values there is a value to which the step is nothing from one and something from the other. */
  lemma {:induction false} StepTells(a: real, b: real, p: Precision) returns (v: real)
    requires a != b
    ensures FloatCode(v - a, p) == [false, false] != FloatCode(v - b, p)
  {
    hide Quantise, IntCode, Unit, FloatCode;
    UnitAtMostOne(p);
    v := if a - b <= -Unit(p) || Unit(p) <= a - b then a else if a < b then b - Unit(p) else b + Unit(p);
    LessIsNothing(v - a, p);
    SomethingShows(v - b, p);
  }

  lemma {:induction false} SomethingShows(d: real, p: Precision)
    requires d <= -Unit(p) || Unit(p) <= d
    ensures FloatCode(d, p) != [false, false]
  {
    hide Quantise, IntCode, Unit;
    UnitShows(d, p);
    CodesDiffer(Quantise(d, p), 0);
    assert IntCode(0) == [false] by { ZeroCode(); }
    assert [false] + [false] == [false, false];
  }

  lemma {:induction false} ZeroCode()
    ensures IntCode(0) == [false]
  {
  }

  // ---------------------------------------------------------------- room for one more point

  /** Some further point is still accepted.  (On a small page, a counter that reads zero again accepts none.) */
  ghost predicate Accepts(f: Format, e: Enc) {
    e.count != 0 && exists p: Point | e.prevT <= p.t :: CompressNext(f, e, p.t, p.v).accepted
  }

  /** Unless time runs out, that takes three bits. */
  lemma {:induction false} AcceptsIff(f: Format, e: Enc)
    requires e.prevT + e.prevDelta < TWO64 && e.count != 0
    ensures Accepts(f, e) <==> |e.bits| + 3 <= e.room
  {
    hide FloatCode, IntCode;
    var p := Point(e.prevT + e.prevDelta, e.prevV);
    ZeroCode();
    UnitAtMostOne(f.p);
    LessIsNothing(p.v - e.prevV, f.p);
    assert CompressNext(f, e, p.t, p.v).accepted <==> |e.bits| + 3 <= e.room;
  }

  /** A point that is accepted with some value is accepted with the last value again, in two bits. */
  lemma {:induction false} SameAgain(f: Format, e: Enc, p: Point)
    requires e.prevT <= p.t && CompressNext(f, e, p.t, p.v).accepted
    ensures FloatCode(e.prevV - e.prevV, f.p) == [false, false] && CompressNext(f, e, p.t, e.prevV).accepted
  {
    hide FloatCode, IntCode;
    UnitAtMostOne(f.p);
    LessIsNothing(e.prevV - e.prevV, f.p);
  }

  /** Where nothing is accepted, nothing changes the stream. */
  lemma {:induction false} NothingFits(f: Format, tr: Trace, more: seq<Point>)
    requires Callable(tr.enc.start, more) && !Accepts(f, tr.enc)
    requires tr.enc.count == 0 ==> |tr.enc.bits| + 96 > tr.enc.room
    ensures var r := PlayOn(f, tr, more); r.enc.bits == tr.enc.bits && (r.refused || r.enc == tr.enc)
    decreases |more|
  {
    hide IntCode, FloatCode, HeaderCode, Accepts;
    if more != [] {
      var k := |more| - 1;
      NothingFits(f, tr, more[..k]);
      if tr.enc.count != 0 && tr.enc.prevT <= more[k].t {
        assert !CompressNext(f, tr.enc, more[k].t, more[k].v).accepted by { NotAccepted(f, tr.enc, more[k]); }
      }
    }
  }

  lemma {:induction false} NotAccepted(f: Format, e: Enc, p: Point)
    requires e.count != 0 && e.prevT <= p.t && !Accepts(f, e)
    ensures !CompressNext(f, e, p.t, p.v).accepted
  {
    hide CompressNext;
  }

  // ---------------------------------------------------------------- when a stop shows

  /** Whatever calls follow, the page is the one of a run that never stopped (see `PlayGoesOn`). */
  ghost predicate Invisible(f: Format, start: U64, room: nat, calls: seq<Point>)
    requires Callable(start, calls)
  {
    var tr := Play(f, start, room, calls);
    && Decode(f, start, tr.enc.bits).Decoded?
    && forall more: seq<Point> | Callable(start, more) ::
         PlayOn(f, tr.(enc := Restored(f, start, room, tr.enc.bits)), more).enc.bits == PlayOn(f, tr, more).enc.bits
  }

  /** Compressors that differ in the last value write some next point differently, if they accept any. */
  lemma {:induction false} ValueTells(f: Format, e: Enc, r: Enc) returns (p: Point)
    requires r == e.(prevV := r.prevV) && r.prevV != e.prevV && Accepts(f, e)
    ensures e.prevT <= p.t && CompressNext(f, e, p.t, p.v).enc.bits != CompressNext(f, r, p.t, p.v).enc.bits
  {
    hide IntCode, FloatCode;
    var some: Point :| e.prevT <= some.t && CompressNext(f, e, some.t, some.v).accepted;
    SameAgain(f, e, some);
    var v := StepTells(e.prevV, r.prevV, f.p);
    p := Point(some.t, v);
    var time := IntCode(Dod(p.t - e.prevT, e.prevDelta));
    var x, y := FloatCode(v - e.prevV, f.p), FloatCode(v - r.prevV, f.p);
    CancelLeft(time, x, y);
    CancelLeft(e.bits, time + x, time + y);
  }

  /** Two different integers begin different streams, whatever follows. */
  lemma {:induction false} IntsDiffer(a: int, b: int, x: seq<bool>, y: seq<bool>)
    requires -TWO63 <= a < TWO63 && -TWO63 <= b < TWO63 && a != b
    ensures IntCode(a) + x != IntCode(b) + y
  {
    hide IntCode, ReadInt, Stored;
    IntCodeReads(a, x);
    IntCodeReads(b, y);
    StoredExactly(a);
    StoredExactly(b);
  }

  /** Compressors whose last times differ, but not their deltas, write some next point differently. */
  lemma {:induction false} TimeTells(f: Format, e: Enc, r: Enc) returns (p: Point)
    requires r == e.(prevT := r.prevT, prevV := r.prevV) && r.prevT < e.prevT && Accepts(f, r)
    ensures r.prevT <= p.t && |CompressNext(f, r, p.t, p.v).enc.bits| > |e.bits|
    ensures e.prevT <= p.t ==> CompressNext(f, e, p.t, p.v).enc.bits != CompressNext(f, r, p.t, p.v).enc.bits
  {
    hide IntCode, FloatCode;
    p :| r.prevT <= p.t && CompressNext(f, r, p.t, p.v).accepted;
    if e.prevT <= p.t {
      var a, b := Dod(p.t - e.prevT, e.prevDelta), Dod(p.t - r.prevT, r.prevDelta);
      var x, y := FloatCode(p.v - e.prevV, f.p), FloatCode(p.v - r.prevV, f.p);
      DodsDiffer(p.t - e.prevT, p.t - r.prevT, e.prevDelta);
      IntsDiffer(a, b, x, y);
      CancelLeft(e.bits, IntCode(a) + x, IntCode(b) + y);
    }
  }

  lemma {:induction false} DodsDiffer(a: U64, b: U64, prev: U64)
    requires a != b
    ensures Dod(a, prev) != Dod(b, prev) && -TWO63 <= Dod(a, prev) < TWO63 && -TWO63 <= Dod(b, prev) < TWO63
  {
  }

  /** With an earlier last time, a compressor accepts at least as much. */
  lemma {:induction false} EarlierAccepts(f: Format, e: Enc, r: Enc)
    requires r == e.(prevT := r.prevT, prevV := r.prevV) && r.prevT <= e.prevT && Accepts(f, e)
    ensures Accepts(f, r)
  {
    hide IntCode, FloatCode;
    var p: Point :| e.prevT <= p.t && CompressNext(f, e, p.t, p.v).accepted;
    var q := Point(p.t - e.prevT + r.prevT, r.prevV);
    UnitAtMostOne(f.p);
    LessIsNothing(q.v - r.prevV, f.p);
    assert CompressNext(f, r, q.t, q.v).accepted;
  }

  lemma {:induction false} PlayOnOne(f: Format, tr: Trace, p: Point)
    requires tr.enc.start <= p.t
    ensures PlayOn(f, tr, [p]) == Feed(f, tr, p)
  {
    hide Feed;
    assert [p][..0] == [];
  }

  lemma {:induction false} FeedBits(f: Format, tr: Trace, p: Point)
    requires !tr.refused && tr.enc.count != 0 && tr.enc.start <= p.t
    ensures Feed(f, tr, p).enc.bits ==
            if tr.enc.prevT <= p.t then CompressNext(f, tr.enc, p.t, p.v).enc.bits else tr.enc.bits
  {
    hide CompressNext;
  }

  lemma {:induction false} AcceptsCounts(f: Format, e: Enc)
    requires Accepts(f, e)
    ensures e.count != 0
  {
    hide CompressNext;
  }

  /** One more point after either compressor tells them apart. */
  lemma {:induction false} NextShows(f: Format, tr: Trace, r: Enc)
    requires !tr.refused && tr.enc.start <= r.prevT <= tr.enc.prevT && Accepts(f, r)
    requires r == tr.enc.(prevT := r.prevT, prevV := r.prevV) && r != tr.enc
    ensures exists more: seq<Point> | Callable(tr.enc.start, more) ::
              PlayOn(f, tr.(enc := r), more).enc.bits != PlayOn(f, tr, more).enc.bits
  {
    hide CompressNext, PlayOn, Accepts, Feed;
    var e := tr.enc;
    var p;
    AcceptsCounts(f, r);
    if r.prevT < e.prevT {
      p := TimeTells(f, e, r);
    } else {
      assert Accepts(f, e) by { EarlierAccepts(f, r, e); }
      p := ValueTells(f, e, r);
    }
    PlayOnOne(f, tr, p);
    PlayOnOne(f, tr.(enc := r), p);
    FeedBits(f, tr, p);
    FeedBits(f, tr.(enc := r), p);
    assert Callable(e.start, [p]);
  }

  /** A run that stopped before any refusal, on a page too small to fool the counter. */
  predicate Saved(f: Format, start: U64, room: nat, calls: seq<Point>) {
    && Callable(start, calls) && room < FOOLED
    && !Play(f, start, room, calls).refused && Play(f, start, room, calls).stored != []
  }

  /** What a restore changes: the value by the drift, and the time by the shift. */
  lemma {:induction false} RestoredFields(f: Format, start: U64, room: nat, calls: seq<Point>)
    requires Saved(f, start, room, calls)
    ensures var e, ps := Play(f, start, room, calls).enc, Play(f, start, room, calls).stored;
            && 0 <= Shift(start, ps) && start <= e.prevT - Shift(start, ps)
            && (e.count == 0 ==> |e.bits| + 96 > room)
            && Decode(f, start, e.bits).Decoded?
            && Restored(f, start, room, e.bits) ==
               e.(prevT := e.prevT - Shift(start, ps), prevV := e.prevV + Drift(f, ps))
  {
    hide Play, Decode, ScaledRun, GridRun, Close, Drift, TimesHold, ValuesHold;
    var used := PlayHolds(f, start, room, calls);
    NotFull(f, start, room, calls);
    DriftHolds(f, start, room, calls);
    var tr := Play(f, start, room, calls);
    var e, ps := tr.enc, tr.stored;
    assert Counts(e, ps) && Follows(e, ps);
  }

  /** On the grid nothing drifts. */
  lemma {:induction false} GridHasNoDrift(f: Format, start: U64, room: nat, calls: seq<Point>)
    requires Saved(f, start, room, calls)
    ensures var ps := Play(f, start, room, calls).stored;
            Representable(f, ps[0].v) && ScaledRun(ps, f.p) && GridRun(ps, f.p) ==> Drift(f, ps) == 0.0
  {
    hide Play, Decode, ScaledRun, GridRun, Close, Drift, TimesHold, Representable;
    var used := PlayHolds(f, start, room, calls);
    DriftHolds(f, start, room, calls);
  }

  /**
   Stopping after `calls` is invisible if and only if nothing was lost that a later point could show, neither of the
   first timestamp nor, in sum, of the first value and all differences; or no further point is accepted any more.
   On the grid nothing is lost of the values.
   */
  lemma {:induction false} InvisibleIffNoDrift(f: Format, start: U64, room: nat, calls: seq<Point>)
    requires Saved(f, start, room, calls)
    ensures 0 <= Shift(start, Play(f, start, room, calls).stored) <= Play(f, start, room, calls).enc.prevT
    ensures var e, ps := Play(f, start, room, calls).enc, Play(f, start, room, calls).stored;
            Invisible(f, start, room, calls) <==>
            (Shift(start, ps) == 0 && Drift(f, ps) == 0.0) || !Accepts(f, e.(prevT := e.prevT - Shift(start, ps)))
    ensures var ps := Play(f, start, room, calls).stored;
            Representable(f, ps[0].v) && ScaledRun(ps, f.p) && GridRun(ps, f.p) ==> Drift(f, ps) == 0.0
  {
    hide Play, PlayOn, Decode, Drift, Shift, ScaledRun, GridRun, Representable, Accepts, Restored;
    var tr := Play(f, start, room, calls);
    var e, ps := tr.enc, tr.stored;
    RestoredFields(f, start, room, calls);
    GridHasNoDrift(f, start, room, calls);
    var r := Restored(f, start, room, e.bits);
    var shifted := e.(prevT := r.prevT);
    AcceptsAlike(f, shifted, r);
    if Accepts(f, shifted) {
      if r != e { NextShows(f, tr, r); }
    } else {
      if Accepts(f, e) { EarlierAccepts(f, e, shifted); }
      forall more: seq<Point> | Callable(start, more)
        ensures PlayOn(f, tr.(enc := r), more).enc.bits == PlayOn(f, tr, more).enc.bits
      {
        NothingFits(f, tr, more);
        NothingFits(f, tr.(enc := r), more);
      }
    }
  }

  lemma {:induction false} AcceptsAlike(f: Format, a: Enc, b: Enc)
    requires a == b.(prevV := a.prevV)
    ensures Accepts(f, a) <==> Accepts(f, b)
  {
    hide Accepts;
    if Accepts(f, a) { EarlierAccepts(f, a, b); }
    if Accepts(f, b) { EarlierAccepts(f, b, a); }
  }

  // ---------------------------------------------------------------- one that shows

  /** The code for a step from 0.5 to 1.2 is not the one for a step from 0 to 1.2. */
  lemma {:induction false} StepShows(f: Format, e: Enc, r: Enc)
    requires f.p == 1 && e.count != 0 && e.prevV == 0.5 && r == e.(prevV := 0.0) && e.start <= e.prevT
    requires |e.bits| + 64 <= e.room && e.prevDelta == 0
    ensures Compress(f, e, e.prevT, 1.2).enc.bits != Compress(f, r, e.prevT, 1.2).enc.bits
  {
    assert Quantise(1.2 - 0.5, 1) == Quantum(false, 0);
    assert Quantise(1.2 - 0.0, 1) == Quantum(false, 1);
    assert |IntCode(0)| == 1 && |IntCode(1)| == 14;
  }

  lemma {:induction false} HalfIsLost(f: Format, room: nat)
    requires f.p == 1 && Representable(f, 0.0) && room >= 99
    ensures var tr := Play(f, 0, room, [Point(0, 0.0), Point(0, 0.5)]);
            && tr.stored == [Point(0, 0.0), Point(0, 0.5)] && !tr.refused
            && tr.enc.(bits := []) == Enc(0, room, [], 2, 0, 0, 0.5, false) && |tr.enc.bits| == 99
            && Decode(f, 0, tr.enc.bits).Decoded? && Decode(f, 0, tr.enc.bits).last.v == 0.0
  {
    hide HeaderCode, Decode, FloatCode, IntCode, Play, Feed, StoredFloat;
    var a, b := Point(0, 0.0), Point(0, 0.5);
    var e1 := Enc(0, room, HeaderCode(0, f.bits(0.0)), 1, 0, 0, 0.0, false);
    HalfFirst(f, room);
    HalfSecond(f, e1);
    HalfCodes();
    HeaderReads(f, 0, 0, 0.0);
    NextDecoded(f, e1, b, CompressNext(f, e1, 0, 0.5).enc);
    PlaySnoc(f, 0, room, [a, b]);
    assert [a, b][..1] == [a];
  }

  lemma {:induction false} HalfFirst(f: Format, room: nat)
    requires room >= 99
    ensures Play(f, 0, room, [Point(0, 0.0)]) ==
            Trace(Enc(0, room, HeaderCode(0, f.bits(0.0)), 1, 0, 0, 0.0, false), [Point(0, 0.0)], false)
  {
    hide HeaderCode;
    var a := Point(0, 0.0);
    assert [a][..0] == [] && [] + [a] == [a];
    assert [] + HeaderCode(0, f.bits(0.0)) == HeaderCode(0, f.bits(0.0));
  }

  lemma {:induction false} HalfSecond(f: Format, e: Enc)
    requires f.p == 1 && e.(bits := []) == Enc(0, e.room, [], 1, 0, 0, 0.0, false) && |e.bits| == 96 && e.room >= 99
    ensures var o := CompressNext(f, e, 0, 0.5);
            && o.accepted && o.enc.(bits := []) == Enc(0, e.room, [], 2, 0, 0, 0.5, false) && |o.enc.bits| == 99
            && Feed(f, Trace(e, [Point(0, 0.0)], false), Point(0, 0.5)) ==
               Trace(o.enc, [Point(0, 0.0), Point(0, 0.5)], false)
  {
    hide FloatCode, IntCode;
    HalfCodes();
    assert [Point(0, 0.0)] + [Point(0, 0.5)] == [Point(0, 0.0), Point(0, 0.5)];
  }

  lemma {:induction false} HalfCodes()
    ensures |IntCode(0)| == 1 && |FloatCode(0.5, 1)| == 2 && StoredFloat(0.5, 1) == 0.0
  {
    assert Quantise(0.5, 1) == Quantum(false, 0);
  }

  /** Units of 1: after 0 and 0.5, a stop makes the page store 1.2 differently. */
  lemma {:induction false} StopShows(f: Format, room: nat)
    requires f.p == 1 && Representable(f, 0.0) && 163 <= room < FOOLED
    ensures var calls, p := [Point(0, 0.0), Point(0, 0.5)], Point(0, 1.2);
            var bits := Play(f, 0, room, calls).enc.bits;
            && Decode(f, 0, bits).Decoded?
            && Compress(f, Restored(f, 0, room, bits), p.t, p.v).enc.bits !=
               Compress(f, Play(f, 0, room, calls).enc, p.t, p.v).enc.bits
  {
    hide Play, Decode, Compress;
    var calls := [Point(0, 0.0), Point(0, 0.5)];
    HalfIsLost(f, room);
    var tr := Play(f, 0, room, calls);
    var used := PlayHolds(f, 0, room, calls);
    StepShows(f, tr.enc, Restored(f, 0, room, tr.enc.bits));
  }
}
