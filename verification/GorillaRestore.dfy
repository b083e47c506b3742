/**
 Saving and restoring `Compressor_v2`: the fields a restored compressor gets from reading its own
 stream differ from those of the one that wrote it, but no later `compress` call can tell.
 */
module GorillaRestore {
  import opened StreamCode
  import opened Series
  import opened StampDrift
  import opened GorillaCode
  import opened GorillaStream
  import opened GorillaTheorems

  /** The window fields after reading: all zero if no window was ever read. */
  function WindowRead(seen: Seen): Window {
    Window(seen.lz, if seen.nz == 0 || seen.lz + seen.nz > 64 then 0 else 64 - (seen.nz + seen.lz), seen.nz)
  }

  /** A compressor initialised and then restored from `bits`. */
  function Restored(start: U64, room: nat, bits: seq<bool>): (e: Enc)
    requires Decode(start, bits).Decoded?
    ensures e.start == start
  {
    var r := Decode(start, bits);
    Enc(start, room, bits, |r.points| % 0x1_0000, r.last.t, r.last.delta, r.last.v, WindowRead(r.last.seen), false)
  }

  // ---------------------------------------------------------------- windows that cannot be told apart

  /** Only a window with 1 to 31 leading zeros can ever be reused. */
  predicate Live(w: Window) { 0 < w.lz <= 31 }

  predicate SameWindow(a: Window, b: Window) {
    (Live(a) <==> Live(b)) && (Live(a) ==> a == b)
  }

  predicate Twins(a: Enc, b: Enc) {
    a == b.(win := a.win) && SameWindow(a.win, b.win) && WindowOk(a.win) && WindowOk(b.win)
  }

  lemma {:induction false} SameReuse(x: Word, a: Window, b: Window)
    requires SameWindow(a, b)
    ensures Reuses(x, a) == Reuses(x, b) && (Reuses(x, a) ==> a == b)
  {
  }

  lemma {:induction false} SameValueCode(x: Word, a: Window, b: Window)
    requires SameWindow(a, b) && WindowOk(a) && WindowOk(b)
    ensures ValueCode(x, a) == ValueCode(x, b) && SameWindow(NextWindow(x, a), NextWindow(x, b))
    ensures WindowOk(NextWindow(x, a)) && WindowOk(NextWindow(x, b))
  {
    hide Reuses, WindowOf;
    SameReuse(x, a, b);
    NextWindowOk(x, a);
    NextWindowOk(x, b);
  }

  /** One `compress` call treats twins alike and leaves twins. */
  lemma {:induction false} TwinsCompress(a: Enc, b: Enc, t: U64, v: Word)
    requires Twins(a, b) && a.start <= t
    ensures Compress(a, t, v).accepted == Compress(b, t, v).accepted
    ensures Twins(Compress(a, t, v).enc, Compress(b, t, v).enc)
  {
    hide HeaderCode, DodCode, ValueCode, NextWindow;
    SameValueCode(XorWord(v, a.prevV), a.win, b.win);
  }

  // ---------------------------------------------------------------- continuing a run

  function FeedAll(tr: Trace, more: seq<Point>): Trace
    requires Callable(tr.enc.start, more) && WindowOk(tr.enc.win)
    decreases |more|
  {
    if more == [] then tr
    else
      FeedShape(tr, more[0]);
      FeedAll(Feed(tr, more[0]), more[1..])
  }

  predicate TwinTraces(a: Trace, b: Trace) {
    Twins(a.enc, b.enc) && a.stored == b.stored && a.refused == b.refused
  }

  lemma {:induction false} TwinsFeed(a: Trace, b: Trace, p: Point)
    requires TwinTraces(a, b) && a.enc.start <= p.t
    ensures TwinTraces(Feed(a, p), Feed(b, p))
  {
    hide Compress;
    TwinsCompress(a.enc, b.enc, p.t, p.v);
  }

  lemma {:induction false} TwinsFeedAll(a: Trace, b: Trace, more: seq<Point>)
    requires TwinTraces(a, b) && Callable(a.enc.start, more)
    ensures TwinTraces(FeedAll(a, more), FeedAll(b, more))
    decreases |more|
  {
    hide Feed;
    if more != [] {
      TwinsFeed(a, b, more[0]);
      FeedShape(a, more[0]);
      TwinsFeedAll(Feed(a, more[0]), Feed(b, more[0]), more[1..]);
    }
  }

  lemma {:induction false} PlayContinues(start: U64, room: nat, calls: seq<Point>, more: seq<Point>)
    requires Callable(start, calls) && Callable(start, more)
    ensures Callable(start, calls + more) && Play(start, room, calls + more) == FeedAll(Play(start, room, calls), more)
    decreases |more|
  {
    hide Feed;
    if more == [] {
      assert calls + more == calls;
    } else {
      var c1 := calls + [more[0]];
      assert c1[..|calls|] == calls;
      assert c1 + more[1..] == calls + more;
      FeedShape(Play(start, room, calls), more[0]);
      PlayContinues(start, room, c1, more[1..]);
    }
  }

  // ---------------------------------------------------------------- the restored compressor

  lemma {:induction false} WindowReadBack(w: Window)
    requires WindowOk(w)
    ensures SameWindow(w, WindowRead(SeenOf(w))) && WindowOk(WindowRead(SeenOf(w)))
  {
  }

  /** How version 2 stores timestamps. */
  const STAMPS := Stamping(d => StoredDod(d), true)

  /** The time and the delta that the reader ends at, from what was lost of the timestamps stored. */
  ghost predicate Drifted(tr: Trace) {
    tr.stored != [] ==>
      var r := Decode(tr.enc.start, tr.enc.bits);
      r.Decoded? && ReaderAt(STAMPS, tr.enc.start, tr.stored, r.last.t, r.last.delta)
  }

  lemma {:induction false} DriftFirst(tr: Trace, p: Point, e': Enc)
    requires TraceOk(tr) && tr.stored == [] && tr.enc.start <= p.t
    requires e' == CompressFirst(tr.enc, p.t, p.v).enc && CompressFirst(tr.enc, p.t, p.v).accepted
    ensures Drifted(Trace(e', [p], false))
  {
    hide Decode, HeaderOf, HeaderCode, ReaderAt;
    var d := HeaderOf(e'.start, e'.bits[..96]);
    FirstFields(tr.enc, p, e', d);
    HeaderAlone(e'.start, e'.bits);
    ReaderFirst(STAMPS, e'.start, p, d.t, d.delta);
  }

  lemma {:induction false} DriftNext(tr: Trace, p: Point, e': Enc)
    requires TraceOk(tr) && !tr.refused && tr.stored != [] && tr.enc.prevT <= p.t && Drifted(tr)
    requires e' == CompressNext(tr.enc, p.t, p.v).enc && CompressNext(tr.enc, p.t, p.v).accepted
    ensures Drifted(Trace(e', tr.stored + [p], false))
  {
    hide Decode, ReaderAt, InRange, DodCode, ValueCode, SeenOf, NextWindow, Dod, StoredDod, Wrap;
    var e, ps := tr.enc, tr.stored;
    var dod := Dod(p.t - e.prevT, e.prevDelta);
    var ds, d :| Mirrors(e, ps, ds, d) && Exact(e, ps, ds, d);
    NextDecodes(e.start, e.bits, ds, d, dod, p.v, e.win);
    var d' := NextDec(d, dod, p.v, SeenOf(NextWindow(XorWord(p.v, d.v), e.win)));
    ReaderNext(STAMPS, e.start, ps, p, e.prevDelta, d.t, d.delta, d'.t, d'.delta);
  }

  lemma {:induction false} DriftFeed(tr: Trace, p: Point)
    requires TraceOk(tr) && Drifted(tr) && tr.enc.start <= p.t && tr.enc.room < FOOLED
    ensures Drifted(Feed(tr, p))
  {
    hide Decode, ReaderAt, InRange, HeaderCode, DodCode, ValueCode, NextWindow;
    var e := tr.enc;
    if !tr.refused && Compress(e, p.t, p.v).accepted {
      if tr.stored == [] {
        DriftFirst(tr, p, Compress(e, p.t, p.v).enc);
        assert [] + [p] == [p];
      } else if e.prevT <= p.t {
        DriftNext(tr, p, Compress(e, p.t, p.v).enc);
      }
    }
  }

  /** After every run, the reader is off by the sums of what was lost of the timestamps. */
  lemma {:induction false} DriftHolds(start: U64, room: nat, calls: seq<Point>)
    requires Callable(start, calls) && room < FOOLED
    ensures Drifted(Play(start, room, calls))
    decreases |calls|
  {
    hide Feed, Decode, ReaderAt, TraceOk;
    if calls != [] {
      var before := calls[..|calls| - 1];
      DriftHolds(start, room, before);
      PlayHolds(start, room, before);
      DriftFeed(Play(start, room, before), calls[|calls| - 1]);
    }
  }

  lemma {:induction false} NotFull(start: U64, room: nat, calls: seq<Point>)
    requires Callable(start, calls) && !Play(start, room, calls).refused
    ensures !Play(start, room, calls).enc.full
    decreases |calls|
  {
    hide HeaderCode, DodCode, ValueCode, NextWindow;
    if calls != [] {
      NotFull(start, room, calls[..|calls| - 1]);
    }
  }

  /**
   The restored compressor is a twin of the one that wrote the stream exactly when what was lost of the timestamps adds
   up to nothing, and so whenever they are in range.
   */
  lemma {:induction false} RestoredIsTwin(start: U64, room: nat, calls: seq<Point>)
    requires Callable(start, calls) && room < FOOLED
    requires !Play(start, room, calls).refused && Play(start, room, calls).stored != []
    ensures var tr := Play(start, room, calls);
            && Decode(start, tr.enc.bits).Decoded?
            && (Twins(tr.enc, Restored(start, room, tr.enc.bits)) <==> InStep(STAMPS, start, tr.stored))
            && (InRange(start, tr.stored, 33) ==> InStep(STAMPS, start, tr.stored))
  {
    hide Play, Decode, InRange, SeenOf, WindowRead, InStep, ReaderAt;
    var tr := Play(start, room, calls);
    var e, ps := tr.enc, tr.stored;
    PlayHolds(start, room, calls);
    NotFull(start, room, calls);
    DriftHolds(start, room, calls);
    var ds, d :| Mirrors(e, ps, ds, d) && Exact(e, ps, ds, d);
    WindowReadBack(e.win);
    EndsWhereWriterIs(STAMPS, start, ps, d.t, d.delta, e.prevDelta);
    if InRange(start, ps, 33) { DeltaKept(e, ps); }
  }

  lemma {:induction false} DeltaKept(e: Enc, ps: seq<Point>)
    requires ps != [] && Follows(e, ps) && InRange(e.start, ps, 33)
    ensures e.prevDelta == LastDelta(e.start, ps)
  {
    InRangeFirst(e.start, ps, 33);
  }

  /**
   Stopping after `calls` and restoring from the saved stream is invisible if what was lost of the timestamps adds up to
   nothing: whatever calls follow, the same ones are accepted and the stream is bit for bit the one of a run that never
   stopped.  Timestamps in range suffice.
   */
  lemma {:induction false} RestoreInvisible(start: U64, room: nat, calls: seq<Point>, more: seq<Point>)
    requires Callable(start, calls) && Callable(start, more) && room < FOOLED
    requires var tr := Play(start, room, calls); !tr.refused && tr.stored != []
    ensures Callable(start, calls + more) && Decode(start, Play(start, room, calls).enc.bits).Decoded?
    ensures var tr := Play(start, room, calls);
            && (InRange(start, tr.stored, 33) ==> InStep(STAMPS, start, tr.stored))
            && (InStep(STAMPS, start, tr.stored) ==>
                  && WindowOk(Restored(start, room, tr.enc.bits).win)
                  && var again := FeedAll(tr.(enc := Restored(start, room, tr.enc.bits)), more);
                     var through := Play(start, room, calls + more);
                     && again.refused == through.refused && again.stored == through.stored
                     && again.enc.bits == through.enc.bits && Twins(through.enc, again.enc))
  {
    hide Play, Decode, InRange, Restored, InStep;
    var tr := Play(start, room, calls);
    PlayHolds(start, room, calls);
    RestoredIsTwin(start, room, calls);
    PlayContinues(start, room, calls, more);
    if InStep(STAMPS, start, tr.stored) {
      TwinsFeedAll(tr, tr.(enc := Restored(start, room, tr.enc.bits)), more);
    }
  }
}
