/**
 What `Compressor_v2` promises over whole runs: the stream decodes to the points stored, exactly when
 their timestamps are in range; a refused point leaves the stream as it was; stopping and restoring is
 invisible; and all of it holds on every page that is too small for the 16-bit point counter to wrap.
 */
module GorillaTheorems {
  import opened Sequences
  import opened BitCode
  import opened StreamCode
  import opened Series
  import opened GorillaCode
  import opened GorillaStream

  // ---------------------------------------------------------------- runs

  /**
   A run of `compress` calls up to the first refusal.  `stored` are the accepted points that were not
   dropped for being older than their predecessor.
   */
  datatype Trace = Trace(enc: Enc, stored: seq<Point>, refused: bool)

  function Feed(tr: Trace, p: Point): Trace
    requires tr.enc.start <= p.t && WindowOk(tr.enc.win)
  {
    if tr.refused then tr
    else
      var o := Compress(tr.enc, p.t, p.v);
      if !o.accepted then Trace(o.enc, tr.stored, true)
      else if tr.enc.count != 0 && tr.enc.prevT > p.t then tr.(enc := o.enc)
      else Trace(o.enc, tr.stored + [p], false)
  }

  lemma {:induction false} NextWindowOk(x: Word, w: Window)
    requires WindowOk(w)
    ensures WindowOk(NextWindow(x, w))
  {
    if !Zero(x) { WindowOfOk(x); }
  }

  lemma {:induction false} FeedShape(tr: Trace, p: Point)
    requires tr.enc.start <= p.t && WindowOk(tr.enc.win)
    ensures Feed(tr, p).enc.start == tr.enc.start && Feed(tr, p).enc.room == tr.enc.room
    ensures WindowOk(Feed(tr, p).enc.win)
  {
    NextWindowOk(XorWord(p.v, tr.enc.prevV), tr.enc.win);
  }

  function Play(start: U64, room: nat, calls: seq<Point>): (tr: Trace)
    requires Callable(start, calls)
    ensures tr.enc.start == start && tr.enc.room == room && WindowOk(tr.enc.win)
    decreases |calls|
  {
    if calls == [] then Trace(Init(start, room), [], false)
    else
      var tr := Play(start, room, calls[..|calls| - 1]);
      FeedShape(tr, calls[|calls| - 1]);
      Feed(tr, calls[|calls| - 1])
  }

  // ---------------------------------------------------------------- the invariant of a run

  /** The stream decodes to as many points as were stored, with their values; the reader ends where the writer is. */
  ghost predicate Mirrors(e: Enc, ps: seq<Point>, ds: seq<Point>, d: Dec) {
    && Decode(e.start, e.bits) == Decoded(ds, d)
    && |ds| == |ps| > 0
    && (forall i | 0 <= i < |ps| :: ds[i].v == ps[i].v)
    && d.v == e.prevV && d.seen == SeenOf(e.win)
  }

  /** If the timestamps are in range the decoded points are the stored ones, otherwise they differ. */
  ghost predicate Exact(e: Enc, ps: seq<Point>, ds: seq<Point>, d: Dec)
    requires ps != []
  {
    && (ds == ps <==> InRange(e.start, ps, 33))
    && (ds == ps ==> d.t == ps[|ps| - 1].t && d.delta == LastDelta(e.start, ps))
  }

  /** The counter has not wrapped into looking like an empty page. */
  ghost predicate Counts(e: Enc, ps: seq<Point>) {
    && |ps| <= 0x1_0000
    && e.count == |ps| % 0x1_0000
    && (ps != [] ==> |e.bits| >= 96 + 2 * (|ps| - 1))
  }

  ghost predicate Follows(e: Enc, ps: seq<Point>)
    requires ps != []
  {
    && e.prevT == ps[|ps| - 1].t
    && e.prevDelta == (if |ps| == 1 then LastDelta(e.start, ps) % TWO32 else LastDelta(e.start, ps))
  }

  ghost predicate TraceOk(tr: Trace) {
    var e, ps := tr.enc, tr.stored;
    && WindowOk(e.win) && Counts(e, ps)
    && (ps == [] ==> e.bits == [] && e.win == NoWindow)
    && (ps != [] && !tr.refused ==> Follows(e, ps))
    && (ps != [] ==> exists ds, d :: Mirrors(e, ps, ds, d) && Exact(e, ps, ds, d))
  }

  // ---------------------------------------------------------------- one more point

  lemma {:induction false} HeaderAlone(start: U64, s: seq<bool>)
    requires |s| == 96
    ensures Decode(start, s) == Decoded([Point(HeaderOf(start, s).t, HeaderOf(start, s).v)], HeaderOf(start, s))
  {
    assert s[..96] == s && s[96..] == [];
  }

  lemma {:induction false} FirstMirrors(e: Enc, p: Point, d: Dec)
    requires |e.bits| == 96 && HeaderOf(e.start, e.bits) == d && d.v == p.v && d.seen == NothingSeen
    requires e.win == NoWindow && e.prevV == p.v
    ensures Mirrors(e, [p], [Point(d.t, p.v)], d)
  {
    HeaderAlone(e.start, e.bits);
  }

  lemma {:induction false} FirstExact(e: Enc, p: Point, d: Dec)
    requires e.start <= p.t
    requires d.t == Wrap(e.start + (p.t - e.start) % TWO32) && d.delta == (p.t - e.start) % TWO32 && d.v == p.v
    ensures Exact(e, [p], [Point(d.t, d.v)], d)
  {
    assert [p][..0] == [];
    assert d.t == e.start + (p.t - e.start) % TWO32;
    assert [Point(d.t, d.v)] == [p] <==> d.t == p.t;
  }

  lemma {:induction false} NextMirrors(e: Enc, e': Enc, ps: seq<Point>, p: Point, ds: seq<Point>, d: Dec, dod: int)
    requires WindowOk(e.win) && Mirrors(e, ps, ds, d)
    requires e'.bits == e.bits + (DodCode(dod) + ValueCode(XorWord(p.v, e.prevV), e.win))
    requires e'.start == e.start && e'.prevV == p.v && e'.win == NextWindow(XorWord(p.v, e.prevV), e.win)
    ensures var d' := NextDec(d, dod, p.v, SeenOf(e'.win));
            Mirrors(e', ps + [p], ds + [Point(d'.t, p.v)], d')
  {
    NextDecodes(e.start, e.bits, ds, d, dod, p.v, e.win);
  }

  /** If the reader was right so far, it is right about the next time exactly when the delta of deltas fits. */
  lemma {:induction false} NextTime(e: Enc, ps: seq<Point>, p: Point, d: Dec, seen: Seen)
    requires ps != [] && Follows(e, ps) && e.prevT <= p.t && InRange(e.start, ps, 33)
    requires d.t == e.prevT && d.delta == LastDelta(e.start, ps)
    ensures var d' := NextDec(d, Dod(p.t - e.prevT, e.prevDelta), p.v, seen);
            && (d'.t == p.t <==> Fits(Dod(p.t - e.prevT, LastDelta(e.start, ps)), 33))
            && (d'.t == p.t ==> d'.delta == p.t - e.prevT)
  {
    var dod := Dod(p.t - e.prevT, e.prevDelta);
    InRangeFirst(e.start, ps, 33);
    assert d.delta == e.prevDelta;
    DodSurvives(dod);
    TimeArrives(e.prevT, e.prevDelta, p.t, StoredDod(dod));
  }

  lemma {:induction false} NextExact(e: Enc, ps: seq<Point>, p: Point, ds: seq<Point>, d: Dec, seen: Seen)
    requires ps != [] && Follows(e, ps) && e.prevT <= p.t && Exact(e, ps, ds, d)
    ensures var d' := NextDec(d, Dod(p.t - e.prevT, e.prevDelta), p.v, seen);
            Exact(e, ps + [p], ds + [Point(d'.t, p.v)], d')
  {
    hide InRange, Fits, Dod, StoredDod;
    var d' := NextDec(d, Dod(p.t - e.prevT, e.prevDelta), p.v, seen);
    InRangeSnoc(e.start, ps, p, 33);
    SnocEqual(ds, Point(d'.t, p.v), ps, p);
    if ds == ps { NextTime(e, ps, p, d, seen); }
  }

  // ---------------------------------------------------------------- a run keeps the invariant

  lemma {:induction false} Assemble(tr: Trace, e': Enc, p: Point, ds: seq<Point>, d: Dec)
    requires Counts(tr.enc, tr.stored) && |tr.stored| < 0x1_0000
    requires WindowOk(e'.win) && e'.count == Bump(tr.enc.count)
    requires |e'.bits| >= (if tr.stored == [] then 96 else |tr.enc.bits| + 2)
    requires Follows(e', tr.stored + [p])
    requires Mirrors(e', tr.stored + [p], ds, d) && Exact(e', tr.stored + [p], ds, d)
    ensures TraceOk(Trace(e', tr.stored + [p], false))
  {
    hide Decode, InRange, SeenOf;
  }

  /** A refused point changes nothing the reader can see. */
  lemma {:induction false} KeepsRefused(tr: Trace, e': Enc)
    requires TraceOk(tr) && e'.bits == tr.enc.bits && e'.win == tr.enc.win && e'.count == tr.enc.count
    requires e'.start == tr.enc.start && e'.prevV == tr.enc.prevV
    ensures TraceOk(Trace(e', tr.stored, true))
  {
    if tr.stored != [] {
      var ds, d :| Mirrors(tr.enc, tr.stored, ds, d) && Exact(tr.enc, tr.stored, ds, d);
      assert Mirrors(e', tr.stored, ds, d) && Exact(e', tr.stored, ds, d);
    }
  }

  lemma {:induction false} KeepsFirst(tr: Trace, p: Point, e': Enc)
    requires TraceOk(tr) && tr.stored == [] && tr.enc.start <= p.t
    requires e' == CompressFirst(tr.enc, p.t, p.v).enc && CompressFirst(tr.enc, p.t, p.v).accepted
    ensures TraceOk(Trace(e', tr.stored + [p], false))
  {
    hide Decode, InRange, HeaderOf, HeaderCode;
    var d := HeaderOf(e'.start, e'.bits[..96]);
    FirstFields(tr.enc, p, e', d);
    FirstMirrors(e', p, d);
    FirstExact(e', p, d);
    assert tr.stored + [p] == [p];
    Assemble(tr, e', p, [Point(d.t, p.v)], d);
  }

  lemma {:induction false} FirstFields(e: Enc, p: Point, e': Enc, d: Dec)
    requires e.bits == [] && e.start <= p.t
    requires e' == CompressFirst(e, p.t, p.v).enc && CompressFirst(e, p.t, p.v).accepted
    requires d == HeaderOf(e'.start, e'.bits[..96])
    ensures |e'.bits| == 96 && d == HeaderOf(e'.start, e'.bits)
    ensures d.t == Wrap(e.start + (p.t - e.start) % TWO32) && d.delta == (p.t - e.start) % TWO32
    ensures d.v == p.v && d.seen == NothingSeen
  {
    hide HeaderOf, HeaderCode;
    assert e'.bits == HeaderCode(p.t - e.start, p.v);
    assert e'.bits[..96] == e'.bits;
    HeaderReads(e.start, p.t - e.start, p.v);
  }

  lemma {:induction false} KeepsNext(tr: Trace, p: Point, e': Enc)
    requires TraceOk(tr) && !tr.refused && tr.stored != [] && |tr.stored| < 0x1_0000
    requires tr.enc.prevT <= p.t
    requires e' == CompressNext(tr.enc, p.t, p.v).enc && CompressNext(tr.enc, p.t, p.v).accepted
    ensures TraceOk(Trace(e', tr.stored + [p], false))
  {
    hide Decode, InRange, DodCode, ValueCode, NextDec, SeenOf, NextWindow, Dod;
    var e, ps := tr.enc, tr.stored;
    var dod := Dod(p.t - e.prevT, e.prevDelta);
    NextWindowOk(XorWord(p.v, e.prevV), e.win);
    var ds, d :| Mirrors(e, ps, ds, d) && Exact(e, ps, ds, d);
    NextMirrors(e, e', ps, p, ds, d, dod);
    NextExact(e, ps, p, ds, d, SeenOf(e'.win));
    var d' := NextDec(d, dod, p.v, SeenOf(e'.win));
    Assemble(tr, e', p, ds + [Point(d'.t, p.v)], d');
  }

  /** Bits needed to fool the 16-bit counter: a header, 65535 two-bit points, and a second header. */
  const FOOLED: nat := 96 + 2 * 0xFFFF + 96

  lemma {:induction false} KeepsFeed(tr: Trace, p: Point)
    requires TraceOk(tr) && tr.enc.start <= p.t && tr.enc.room < FOOLED
    ensures TraceOk(Feed(tr, p))
  {
    hide Decode, InRange, HeaderCode, DodCode, ValueCode, NextWindow;
    var e := tr.enc;
    if !tr.refused {
      var o := Compress(e, p.t, p.v);
      if !o.accepted {
        KeepsRefused(tr, o.enc);
      } else if tr.stored == [] {
        KeepsFirst(tr, p, o.enc);
      } else if e.prevT <= p.t {
        KeepsNext(tr, p, o.enc);
      }
    }
  }

  lemma {:induction false} PlayHolds(start: U64, room: nat, calls: seq<Point>)
    requires Callable(start, calls) && room < FOOLED
    ensures TraceOk(Play(start, room, calls))
    decreases |calls|
  {
    hide Feed, Decode, InRange;
    if calls != [] {
      PlayHolds(start, room, calls[..|calls| - 1]);
      KeepsFeed(Play(start, room, calls[..|calls| - 1]), calls[|calls| - 1]);
    }
  }

  lemma {:induction false} FeedStores(tr: Trace, p: Point)
    requires TraceOk(tr) && !tr.refused && tr.enc.start <= p.t && tr.enc.room < FOOLED
    ensures Feed(tr, p).stored == if Feed(tr, p).refused then tr.stored else Keep(tr.stored, p)
    ensures Feed(tr, p).refused ==> Feed(tr, p).enc.full && Feed(tr, p).enc.bits == tr.enc.bits
  {
    hide Decode, InRange, HeaderCode, DodCode, ValueCode, NextWindow;
  }

  /** Until it refuses one, a page stores exactly the points that are not older than their predecessors. */
  lemma {:induction false} StoresKept(start: U64, room: nat, calls: seq<Point>) returns (used: nat)
    requires Callable(start, calls) && room < FOOLED
    ensures used <= |calls| && Play(start, room, calls).stored == Kept(calls[..used])
    ensures forall j | 0 <= j <= |calls| :: Play(start, room, calls[..j]).refused <==> used < j
    ensures Play(start, room, calls).refused ==> Play(start, room, calls).enc.full
    decreases |calls|
  {
    hide Feed, TraceOk, Keep;
    if calls == [] {
      used := 0;
    } else {
      var k := |calls| - 1;
      var before := calls[..k];
      var tr := Play(start, room, before);
      used := StoresKept(start, room, before);
      PlayHolds(start, room, before);
      if tr.refused {
        RefusedStays(tr, calls[k]);
        assert calls[..used] == before[..used];
      } else {
        FeedStores(tr, calls[k]);
        assert before[..k] == before;
        used := if Feed(tr, calls[k]).refused then k else |calls|;
        assert calls[..k] == before && calls[..|calls|] == calls;
      }
      PrefixesOf(calls);
    }
  }

  lemma {:induction false} RefusedStays(tr: Trace, p: Point)
    requires tr.refused && tr.enc.start <= p.t && WindowOk(tr.enc.win)
    ensures Feed(tr, p) == tr
  {
  }

  /**
   A page too small to fool the counter, whatever is thrown at it: up to the first refused call it holds
   the kept points, value for value; and time for time exactly when their timestamps are in range.
   */
  lemma {:induction false} RoundTrip(start: U64, room: nat, calls: seq<Point>) returns (used: nat)
    requires Callable(start, calls) && room < FOOLED
    ensures used <= |calls| && (forall j | 0 <= j <= |calls| :: Play(start, room, calls[..j]).refused <==> used < j)
    ensures Play(start, room, calls).stored == Kept(calls[..used])
    ensures Kept(calls[..used]) != [] ==>
              var kept, out := Kept(calls[..used]), Decode(start, Play(start, room, calls).enc.bits);
              && out.Decoded? && |out.points| == |kept|
              && (forall i | 0 <= i < |kept| :: out.points[i].v == kept[i].v)
              && (out.points == kept <==> InRange(start, kept, 33))
  {
    hide Decode, InRange, Kept, Play;
    used := StoresKept(start, room, calls);
    PlayHolds(start, room, calls);
  }
}
