/**
 `Compressor_v1` of src/core/compress.cpp as a machine over byte strings, and what it promises over
 whole runs.
 */
module ByteStream {
  import opened Sequences
  import opened BitCode
  import opened StreamCode
  import opened Series
  import opened StampDrift
  import opened ByteCode

  type Point = DataPoint<Value>

  const NoValue: Value := [0, 0, 0, 0, 0, 0, 0, 0]

  // ---------------------------------------------------------------- writing

  /** The compressor's fields and stream; `ms` is the timestamp resolution and `size` the page in bytes. */
  datatype Enc = Enc(
    start: U64,
    ms: bool,
    size: nat,
    bytes: seq<bv8>,
    count: nat,
    prevT: U64,
    prevDelta: U64,
    prevV: Value,
    full: bool)

  datatype Outcome = Outcome(enc: Enc, accepted: bool)

  function Init(start: U64, ms: bool, size: nat): Enc { Enc(start, ms, size, [], 0, start, 0, NoValue, false) }

  function HeaderCode(offset: int, v: Value): (r: seq<bv8>)
    ensures |r| == 12
  {
    Little(offset, 32) + v
  }

  function PointCode(e: Enc, t: U64, v: Value): (r: seq<bv8>)
    requires e.prevT <= t
    ensures r != []
  {
    TimeCode(Dod(t - e.prevT, e.prevDelta), e.ms) + XorCode(XorBytes(v, e.prevV))
  }

  /** `compress`: the first point, a dropped older point, a refused point, or a later point. */
  function Compress(e: Enc, t: U64, v: Value): Outcome
    requires e.start <= t
  {
    if e.bytes == [] then
      Outcome(e.(bytes := HeaderCode(t - e.start, v), count := Bump(e.count), prevT := t,
                 prevDelta := t - e.start, prevV := v), true)
    else if e.prevT > t then Outcome(e, true)
    else if |PointCode(e, t, v)| > e.size - |e.bytes| then Outcome(e.(full := true), false)
    else
      Outcome(e.(bytes := e.bytes + PointCode(e, t, v), count := Bump(e.count), prevT := t,
                 prevDelta := t - e.prevT, prevV := v), true)
  }

  // ---------------------------------------------------------------- reading

  datatype Dec = Dec(t: U64, delta: U64, v: Value)

  datatype Decoded = Garbled | Decoded(points: seq<Point>, last: Dec)

  function Advanced(d: Dec, dod: int, x: Value): Dec
    requires -TWO32 <= dod < TWO32
  {
    var delta := Wrap(d.delta + dod);
    Dec(Wrap(d.t + delta), delta, XorBytes(x, d.v))
  }

  function ReadPoint(ms: bool, d: Dec, s: seq<bv8>): (r: Got<Dec>)
    ensures r.Got? ==> |r.rest| < |s|
  {
    match ReadTime(s, ms)
    case Short => Short
    case Got(dod, r1) =>
      match ReadXor(r1)
      case Short => Short
      case Got(x, r2) => Got(Advanced(d, dod, x), r2)
  }

  function DecodeRest(ms: bool, d: Dec, s: seq<bv8>): Decoded
    decreases |s|
  {
    if s == [] then Decoded([], d)
    else match ReadPoint(ms, d, s)
      case Short => Garbled
      case Got(d', rest) =>
        match DecodeRest(ms, d', rest)
        case Garbled => Garbled
        case Decoded(ps, last) => Decoded([Point(d'.t, d'.v)] + ps, last)
  }

  lemma {:induction false} OffsetBound(b: seq<bv8>)
    requires |b| == 4
    ensures Unsigned(BigBits(b)) < TWO32
  {
    UnsignedBound(BigBits(b));
    Powers();
  }

  function HeaderOf(start: U64, s: seq<bv8>): Dec
    requires |s| == 12
  {
    OffsetBound(s[..4]);
    var offset := Unsigned(BigBits(s[..4]));
    Dec(Wrap(start + offset), offset, s[4..])
  }

  /** `uncompress` of a stream that is not empty. */
  function Decode(start: U64, ms: bool, s: seq<bv8>): Decoded {
    if |s| < 12 then Garbled
    else
      var d := HeaderOf(start, s[..12]);
      match DecodeRest(ms, d, s[12..])
      case Garbled => Garbled
      case Decoded(ps, last) => Decoded([Point(d.t, d.v)] + ps, last)
  }

  // ---------------------------------------------------------------- reading is stable under appending

  lemma {:induction false} ReadTimeStable(s: seq<bv8>, more: seq<bv8>, ms: bool)
    requires ReadTime(s, ms).Got?
    ensures ReadTime(s + more, ms) == Got(ReadTime(s, ms).value, ReadTime(s, ms).rest + more)
  {
    hide Split, ReadLittle;
    SplitStable(s, more, ShortBits(ms) / 8);
    var r := Split(s, ShortBits(ms) / 8);
    if ReadLittle(r.value) == -Limit(ms) - 1 { SplitStable(r.rest, more, 4); }
  }

  lemma {:induction false} ReadPointStable(ms: bool, d: Dec, s: seq<bv8>, more: seq<bv8>)
    requires ReadPoint(ms, d, s).Got?
    ensures ReadPoint(ms, d, s + more) == Got(ReadPoint(ms, d, s).value, ReadPoint(ms, d, s).rest + more)
  {
    hide ReadTime, Unpacked, ListBits;
    ReadTimeStable(s, more, ms);
    var r := ReadTime(s, ms).rest;
    assert (r + more)[1..] == r[1..] + more;
    UnpackedStable(ListBits(r[0]), r[1..], more);
  }

  lemma {:induction false} DecodeRestCons(ms: bool, d: Dec, s: seq<bv8>, d': Dec, rest: seq<bv8>)
    requires s != [] && ReadPoint(ms, d, s) == Got(d', rest) && DecodeRest(ms, d', rest).Decoded?
    ensures DecodeRest(ms, d, s)
              == Decoded([Point(d'.t, d'.v)] + DecodeRest(ms, d', rest).points, DecodeRest(ms, d', rest).last)
  {
    hide ReadPoint;
  }

  /** Appending the code of one more point appends that point to what is decoded. */
  lemma {:induction false} DecodeRestSnoc(ms: bool, d: Dec, s: seq<bv8>, code: seq<bv8>, d': Dec)
    requires DecodeRest(ms, d, s).Decoded? && code != []
    requires ReadPoint(ms, DecodeRest(ms, d, s).last, code) == Got(d', [])
    ensures DecodeRest(ms, d, s + code) == Decoded(DecodeRest(ms, d, s).points + [Point(d'.t, d'.v)], d')
    decreases |s|
  {
    hide ReadPoint;
    if s == [] {
      assert s + code == code;
      DecodeRestCons(ms, d, code, d', []);
    } else {
      var r := ReadPoint(ms, d, s);
      DecodeRestSnoc(ms, r.value, r.rest, code, d');
      DecodeRestCons(ms, d, s, r.value, r.rest);
      ReadPointStable(ms, d, s, code);
      DecodeRestCons(ms, d, s + code, r.value, r.rest + code);
    }
  }

  lemma {:induction false} DecodeSnoc(start: U64, ms: bool, s: seq<bv8>, code: seq<bv8>, d': Dec)
    requires Decode(start, ms, s).Decoded? && code != []
    requires ReadPoint(ms, Decode(start, ms, s).last, code) == Got(d', [])
    ensures Decode(start, ms, s + code) == Decoded(Decode(start, ms, s).points + [Point(d'.t, d'.v)], d')
  {
    hide DecodeRest, ReadPoint, HeaderOf;
    assert (s + code)[..12] == s[..12] && (s + code)[12..] == s[12..] + code;
    DecodeRestSnoc(ms, HeaderOf(start, s[..12]), s[12..], code, d');
  }

  /** The code of one more point is read back. */
  lemma {:induction false} PointCodeReads(e: Enc, d: Dec, t: U64, v: Value)
    requires e.prevT <= t && d.v == e.prevV
    ensures var stored := StoredTime(Dod(t - e.prevT, e.prevDelta), e.ms);
            && -TWO32 <= stored < TWO32
            && ReadPoint(e.ms, d, PointCode(e, t, v)) == Got(Advanced(d, stored, XorBytes(v, d.v)), [])
            && Advanced(d, stored, XorBytes(v, d.v)).v == v
  {
    hide TimeCode, XorCode, ReadTime, ReadXor, StoredTime, XorBytes, Dod;
    var dod, x := Dod(t - e.prevT, e.prevDelta), XorBytes(v, e.prevV);
    TimeSurvives(dod, e.ms);
    TimeCodeReads(dod, e.ms, XorCode(x));
    assert XorCode(x) + [] == XorCode(x);
    XorCodeReads(x, []);
    XorTwice(d.v, v);
  }

  lemma {:induction false} HeaderReads(start: U64, ms: bool, offset: U64, v: Value)
    ensures var d := Dec(Wrap(start + offset % TWO32), offset % TWO32, v);
            Decode(start, ms, HeaderCode(offset, v)) == Decoded([Point(d.t, d.v)], d)
  {
    hide Little, BigBits, Unsigned, ToBits;
    var s := HeaderCode(offset, v);
    assert s[..12] == s && s[12..] == [] && s[..4] == Little(offset, 32) && s[4..] == v;
    LittleBits(offset, 32);
    UnsignedLow(offset, 32);
    Powers();
    var d := Dec(Wrap(start + offset % TWO32), offset % TWO32, v);
    assert [Point(d.t, d.v)] + [] == [Point(d.t, d.v)];
  }

  // ---------------------------------------------------------------- runs

  /** A run of `compress` calls up to the first refusal, and the points stored by it. */
  datatype Trace = Trace(enc: Enc, stored: seq<Point>, refused: bool)

  function Feed(tr: Trace, p: Point): (r: Trace)
    requires tr.enc.start <= p.t
    ensures r.enc.start == tr.enc.start && r.enc.ms == tr.enc.ms
  {
    if tr.refused then tr
    else
      var o := Compress(tr.enc, p.t, p.v);
      if !o.accepted then Trace(o.enc, tr.stored, true)
      else if tr.enc.bytes != [] && tr.enc.prevT > p.t then tr.(enc := o.enc)
      else Trace(o.enc, tr.stored + [p], false)
  }

  function Play(start: U64, ms: bool, size: nat, calls: seq<Point>): (tr: Trace)
    requires Callable(start, calls)
    ensures tr.enc.start == start && tr.enc.ms == ms
    decreases |calls|
  {
    if calls == [] then Trace(Init(start, ms, size), [], false)
    else Feed(Play(start, ms, size, calls[..|calls| - 1]), calls[|calls| - 1])
  }

  // ---------------------------------------------------------------- the invariant of a run

  /** The stream decodes to as many points as were stored, with their values, and their times if in range. */
  ghost predicate Faithful(start: U64, ps: seq<Point>, r: Decoded, v: Value) {
    && r.Decoded? && |r.points| == |ps| > 0 && r.last.v == v
    && (forall i | 0 <= i < |ps| :: r.points[i].v == ps[i].v)
    && (r.points == ps <==> InRange(start, ps, 32))
    && (r.points == ps ==> r.last.t == ps[|ps| - 1].t && r.last.delta == LastDelta(start, ps))
  }

  ghost predicate Follows(e: Enc, ps: seq<Point>)
    requires ps != []
  {
    e.prevT == ps[|ps| - 1].t && e.prevDelta == LastDelta(e.start, ps) && e.prevV == ps[|ps| - 1].v
  }

  ghost predicate TraceOk(tr: Trace) {
    var e, ps := tr.enc, tr.stored;
    && (ps == [] <==> e.bytes == [])
    && e.count == |ps| % 0x1_0000 && (!tr.refused ==> !e.full)
    && (ps != [] ==> Follows(e, ps) && Faithful(e.start, ps, Decode(e.start, e.ms, e.bytes), e.prevV))
  }

  lemma {:induction false} FirstFaithful(start: U64, p: Point, d: Dec)
    requires start <= p.t && d == Dec(Wrap(start + (p.t - start) % TWO32), (p.t - start) % TWO32, p.v)
    ensures Faithful(start, [p], Decoded([Point(d.t, d.v)], d), p.v)
  {
    assert d.t == start + (p.t - start) % TWO32;
    assert [Point(d.t, d.v)] == [p] <==> d.t == p.t;
  }

  lemma {:induction false} NextTime(e: Enc, ps: seq<Point>, p: Point, d: Dec, x: Value)
    requires ps != [] && Follows(e, ps) && e.prevT <= p.t && d.t == e.prevT && d.delta == e.prevDelta
    requires -TWO32 <= StoredTime(Dod(p.t - e.prevT, e.prevDelta), e.ms) < TWO32
    ensures var d' := Advanced(d, StoredTime(Dod(p.t - e.prevT, e.prevDelta), e.ms), x);
            && (d'.t == p.t <==> Fits(Dod(p.t - e.prevT, e.prevDelta), 32))
            && (d'.t == p.t ==> d'.delta == p.t - e.prevT)
  {
    hide StoredTime, Fits;
    var dod := Dod(p.t - e.prevT, e.prevDelta);
    TimeSurvives(dod, e.ms);
    TimeArrives(e.prevT, e.prevDelta, p.t, StoredTime(dod, e.ms));
  }

  lemma {:induction false} NextFaithful(e: Enc, ps: seq<Point>, p: Point, r: Decoded)
    requires ps != [] && Follows(e, ps) && e.prevT <= p.t && Faithful(e.start, ps, r, e.prevV)
    requires -TWO32 <= StoredTime(Dod(p.t - e.prevT, e.prevDelta), e.ms) < TWO32
    ensures var d' := Advanced(r.last, StoredTime(Dod(p.t - e.prevT, e.prevDelta), e.ms), XorBytes(p.v, r.last.v));
            d'.v == p.v ==> Faithful(e.start, ps + [p], Decoded(r.points + [Point(d'.t, d'.v)], d'), p.v)
  {
    hide InRange, StoredTime, XorBytes, Fits, Dod;
    var d' := Advanced(r.last, StoredTime(Dod(p.t - e.prevT, e.prevDelta), e.ms), XorBytes(p.v, r.last.v));
    InRangeSnoc(e.start, ps, p, 32);
    SnocEqual(r.points, Point(d'.t, p.v), ps, p);
    if r.points == ps { NextTime(e, ps, p, r.last, XorBytes(p.v, r.last.v)); }
  }

  lemma {:induction false} KeepsFirst(tr: Trace, p: Point)
    requires TraceOk(tr) && !tr.refused && tr.stored == [] && tr.enc.start <= p.t
    ensures TraceOk(Feed(tr, p)) && Feed(tr, p).stored == [p]
  {
    hide Decode, HeaderCode, Faithful;
    var e := tr.enc;
    HeaderReads(e.start, e.ms, p.t - e.start, p.v);
    FirstFaithful(e.start, p, Dec(Wrap(e.start + (p.t - e.start) % TWO32), (p.t - e.start) % TWO32, p.v));
    assert [] + [p] == [p];
  }

  lemma {:induction false} KeepsNext(tr: Trace, p: Point)
    requires TraceOk(tr) && !tr.refused && tr.stored != [] && tr.enc.start <= p.t && tr.enc.prevT <= p.t
    requires Compress(tr.enc, p.t, p.v).accepted
    ensures TraceOk(Feed(tr, p)) && Feed(tr, p).stored == tr.stored + [p]
  {
    hide Decode, PointCode, ReadPoint, InRange, StoredTime, XorBytes, Advanced, Dod;
    var e, r := tr.enc, Decode(tr.enc.start, tr.enc.ms, tr.enc.bytes);
    PointCodeReads(e, r.last, p.t, p.v);
    var stored := StoredTime(Dod(p.t - e.prevT, e.prevDelta), e.ms);
    DecodeSnoc(e.start, e.ms, e.bytes, PointCode(e, p.t, p.v), Advanced(r.last, stored, XorBytes(p.v, r.last.v)));
    NextFaithful(e, tr.stored, p, r);
  }

  /** One call keeps the invariant; a refused one changes nothing but the mark that the page is full. */
  lemma {:induction false} KeepsFeed(tr: Trace, p: Point)
    requires TraceOk(tr) && tr.enc.start <= p.t
    ensures TraceOk(Feed(tr, p))
    ensures tr.refused ==> Feed(tr, p) == tr
    ensures !tr.refused && Feed(tr, p).refused ==> Feed(tr, p) == Trace(tr.enc.(full := true), tr.stored, true)
    ensures !tr.refused && !Feed(tr, p).refused ==> Feed(tr, p).stored == Keep(tr.stored, p)
  {
    hide Decode, PointCode, HeaderCode, Faithful;
    if !tr.refused && Compress(tr.enc, p.t, p.v).accepted {
      if tr.stored == [] {
        KeepsFirst(tr, p);
      } else if tr.enc.prevT <= p.t {
        KeepsNext(tr, p);
      }
    }
  }

  lemma {:induction false} PlaySnoc(start: U64, ms: bool, size: nat, calls: seq<Point>)
    requires Callable(start, calls) && calls != []
    ensures Play(start, ms, size, calls) == Feed(Play(start, ms, size, calls[..|calls| - 1]), calls[|calls| - 1])
  {
    hide Feed;
  }

  lemma {:induction false} PlayNone(start: U64, ms: bool, size: nat)
    ensures var tr := Play(start, ms, size, []); !tr.refused && tr.stored == Kept([]) && TraceOk(tr)
  {
  }

  lemma {:induction false} PlayHolds(start: U64, ms: bool, size: nat, calls: seq<Point>) returns (used: nat)
    requires Callable(start, calls)
    ensures TraceOk(Play(start, ms, size, calls))
    ensures used <= |calls| && Play(start, ms, size, calls).stored == Kept(calls[..used])
    ensures forall j | 0 <= j <= |calls| :: Play(start, ms, size, calls[..j]).refused <==> used < j
    decreases |calls|
  {
    hide Feed, Keep, Kept, Play, TraceOk;
    if calls == [] {
      used := 0;
      PlayNone(start, ms, size);
    } else {
      var k := |calls| - 1;
      var before := calls[..k];
      used := PlayHolds(start, ms, size, before);
      var tr := Play(start, ms, size, before);
      KeepsFeed(tr, calls[k]);
      PlaySnoc(start, ms, size, calls);
      KeptSnoc(calls);
      PrefixesOf(calls);
      assert before[..k] == before;
      if !tr.refused && !Feed(tr, calls[k]).refused { used := k + 1; }
    }
  }

  /**
   Up to the first refused call the page holds the kept points, value for value; and time for time
   exactly when their timestamps are in range.
   */
  lemma {:induction false} RoundTrip(start: U64, ms: bool, size: nat, calls: seq<Point>) returns (used: nat)
    requires Callable(start, calls)
    ensures used <= |calls| && (forall j | 0 <= j <= |calls| :: Play(start, ms, size, calls[..j]).refused <==> used < j)
    ensures Play(start, ms, size, calls).stored == Kept(calls[..used])
    ensures Kept(calls[..used]) != [] ==>
              var kept, out := Kept(calls[..used]), Decode(start, ms, Play(start, ms, size, calls).enc.bytes);
              && out.Decoded? && |out.points| == |kept|
              && (forall i | 0 <= i < |kept| :: out.points[i].v == kept[i].v)
              && (out.points == kept <==> InRange(start, kept, 32))
  {
    hide Play, Decode, Kept, InRange;
    used := PlayHolds(start, ms, size, calls);
  }

  // ---------------------------------------------------------------- the end of the page

  /** No run writes past the end of the page. */
  ghost predicate StaysInPage(size: nat) {
    forall start: U64, ms: bool, calls: seq<Point> {:trigger Play(start, ms, size, calls)} | Callable(start, calls) ::
      |Play(start, ms, size, calls).enc.bytes| <= size
  }

  lemma {:induction false} InPage(start: U64, ms: bool, size: nat, calls: seq<Point>)
    requires Callable(start, calls) && size >= 12
    ensures Play(start, ms, size, calls).enc.size == size && |Play(start, ms, size, calls).enc.bytes| <= size
    decreases |calls|
  {
    hide HeaderCode, PointCode;
    if calls != [] { InPage(start, ms, size, calls[..|calls| - 1]); }
  }

  /** The first point is written without looking at the size: a page must hold its 12 bytes, and that suffices. */
  lemma {:induction false} StaysInPageIff(size: nat)
    ensures StaysInPage(size) <==> size >= 12
  {
    hide Play;
    if size >= 12 {
      forall start: U64, ms: bool, calls: seq<Point> | Callable(start, calls)
        ensures |Play(start, ms, size, calls).enc.bytes| <= size
      {
        InPage(start, ms, size, calls);
      }
    } else {
      FirstTakesTwelve(size);
    }
  }

  lemma {:induction false} FirstTakesTwelve(size: nat)
    ensures |Play(0, false, size, [Point(0, NoValue)]).enc.bytes| == 12
  {
    hide HeaderCode;
    assert [Point(0, NoValue)][..0] == [];
  }

  // ---------------------------------------------------------------- restoring

  /** A compressor initialised and then restored from saved bytes. */
  function Restored(start: U64, ms: bool, size: nat, bytes: seq<bv8>): Enc
    requires bytes == [] || Decode(start, ms, bytes).Decoded?
  {
    if bytes == [] then Init(start, ms, size)
    else
      var r := Decode(start, ms, bytes);
      Enc(start, ms, size, bytes, |r.points| % 0x1_0000, r.last.t, r.last.delta, r.last.v, false)
  }

  /** How version 1 stores timestamps. */
  function Stamps(ms: bool): Stamping { Stamping(d => StoredTime(d, ms), false) }

  /** The time and the delta that the reader ends at, from what was lost of the timestamps stored. */
  ghost predicate Drifted(tr: Trace) {
    tr.stored != [] ==>
      var r := Decode(tr.enc.start, tr.enc.ms, tr.enc.bytes);
      r.Decoded? && ReaderAt(Stamps(tr.enc.ms), tr.enc.start, tr.stored, r.last.t, r.last.delta)
  }

  lemma {:induction false} DriftFirst(tr: Trace, p: Point)
    requires TraceOk(tr) && !tr.refused && tr.stored == [] && tr.enc.start <= p.t
    ensures Drifted(Feed(tr, p))
  {
    hide Decode, HeaderCode, Faithful, ReaderAt, Wrap;
    var e := tr.enc;
    HeaderReads(e.start, e.ms, p.t - e.start, p.v);
    var d := (p.t - e.start) % TWO32;
    ReaderFirst(Stamps(e.ms), e.start, p, Wrap(e.start + d), d);
    assert [] + [p] == [p];
  }

  lemma {:induction false} DriftNext(tr: Trace, p: Point)
    requires TraceOk(tr) && !tr.refused && tr.stored != [] && tr.enc.start <= p.t && tr.enc.prevT <= p.t
    requires Compress(tr.enc, p.t, p.v).accepted && Drifted(tr)
    ensures Drifted(Feed(tr, p))
  {
    hide Decode, PointCode, ReadPoint, InRange, StoredTime, XorBytes, Dod, ReaderAt, Wrap;
    var e, r := tr.enc, Decode(tr.enc.start, tr.enc.ms, tr.enc.bytes);
    PointCodeReads(e, r.last, p.t, p.v);
    var stored := StoredTime(Dod(p.t - e.prevT, e.prevDelta), e.ms);
    var d' := Advanced(r.last, stored, XorBytes(p.v, r.last.v));
    DecodeSnoc(e.start, e.ms, e.bytes, PointCode(e, p.t, p.v), d');
    ReaderNext(Stamps(e.ms), e.start, tr.stored, p, e.prevDelta, r.last.t, r.last.delta, d'.t, d'.delta);
  }

  lemma {:induction false} DriftFeed(tr: Trace, p: Point)
    requires TraceOk(tr) && Drifted(tr) && tr.enc.start <= p.t
    ensures Drifted(Feed(tr, p))
  {
    hide Decode, PointCode, HeaderCode, Faithful, ReaderAt;
    if !tr.refused && Compress(tr.enc, p.t, p.v).accepted {
      if tr.stored == [] { DriftFirst(tr, p); } else if tr.enc.prevT <= p.t { DriftNext(tr, p); }
    }
  }

  /** After every run, the reader is off by the sums of what was lost of the timestamps. */
  lemma {:induction false} DriftHolds(start: U64, ms: bool, size: nat, calls: seq<Point>)
    requires Callable(start, calls)
    ensures Drifted(Play(start, ms, size, calls))
    decreases |calls|
  {
    hide Feed, Decode, ReaderAt, TraceOk;
    if calls != [] {
      var before := calls[..|calls| - 1];
      DriftHolds(start, ms, size, before);
      var used := PlayHolds(start, ms, size, before);
      DriftFeed(Play(start, ms, size, before), calls[|calls| - 1]);
    }
  }

  lemma {:induction false} PlayShape(start: U64, ms: bool, size: nat, calls: seq<Point>)
    requires Callable(start, calls)
    ensures Play(start, ms, size, calls).enc.size == size
    ensures Play(start, ms, size, calls).enc.bytes == [] ==> Play(start, ms, size, calls).enc == Init(start, ms, size)
    decreases |calls|
  {
    hide PointCode, HeaderCode;
    if calls != [] { PlayShape(start, ms, size, calls[..|calls| - 1]); }
  }

  /**
   Stopping and restoring: unless the page was found full, the restored compressor is exactly the one that was saved, so
   that every later call does the same, if and only if what was lost of the timestamps adds up to nothing.
   Timestamps in range suffice.
   */
  lemma {:induction false} RestoreInvisible(start: U64, ms: bool, size: nat, calls: seq<Point>)
    requires Callable(start, calls) && !Play(start, ms, size, calls).refused
    ensures var e, ps := Play(start, ms, size, calls).enc, Play(start, ms, size, calls).stored;
            && (e.bytes == [] || Decode(start, ms, e.bytes).Decoded?)
            && (Restored(start, ms, size, e.bytes) == e <==> ps == [] || InStep(Stamps(ms), start, ps))
            && (InRange(start, ps, 32) ==> ps == [] || InStep(Stamps(ms), start, ps))
  {
    hide Decode, InRange, InStep, ReaderAt, Play;
    var used := PlayHolds(start, ms, size, calls);
    PlayShape(start, ms, size, calls);
    DriftHolds(start, ms, size, calls);
    var e, ps := Play(start, ms, size, calls).enc, Play(start, ms, size, calls).stored;
    if ps != [] {
      var d := Decode(start, ms, e.bytes).last;
      EndsWhereWriterIs(Stamps(ms), start, ps, d.t, d.delta, e.prevDelta);
    }
  }
}
