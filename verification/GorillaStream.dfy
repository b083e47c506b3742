/**
 `Compressor_v2` of src/core/compress.cpp as a machine over bit strings: what one `compress` call
 does to the compressor's fields and its stream, and how the stream is read back.
 */
module GorillaStream {
  import opened BitCode
  import opened StreamCode
  import opened Series
  import opened GorillaCode

  type Point = DataPoint<Word>

  function XorWord(a: Word, b: Word): Word {
    seq(64, i requires 0 <= i < 64 => a[i] != b[i])
  }

  lemma {:induction false} XorBack(a: Word, b: Word)
    ensures XorWord(a, XorWord(b, a)) == b
  {
  }

  // ---------------------------------------------------------------- writing

  /** The compressor's fields and stream; `room` is the page capacity in bits. */
  datatype Enc = Enc(
    start: U64,
    room: nat,
    bits: seq<bool>,
    count: nat,
    prevT: U64,
    prevDelta: U64,
    prevV: Word,
    win: Window,
    full: bool)

  datatype Outcome = Outcome(enc: Enc, accepted: bool)

  function Init(start: U64, room: nat): Enc {
    Enc(start, room, [], 0, start, 0, Repeat(false, 64), NoWindow, false)
  }

  function TimeCode(e: Enc, t: U64): seq<bool>
    requires e.prevT <= t
  {
    DodCode(Dod(t - e.prevT, e.prevDelta))
  }

  function CompressFirst(e: Enc, t: U64, v: Word): Outcome
    requires e.start <= t
  {
    var code := HeaderCode(t - e.start, v);
    if |e.bits| + |code| > e.room then Outcome(e.(full := true), false)
    else Outcome(e.(bits := e.bits + code, count := Bump(e.count), prevT := t,
                    prevDelta := (t - e.start) % TWO32, prevV := v), true)
  }

  /** A later point; when its value does not fit, the timestamp fields have already moved. */
  function CompressNext(e: Enc, t: U64, v: Word): Outcome
    requires e.prevT <= t && WindowOk(e.win)
  {
    var x := XorWord(v, e.prevV);
    var time, value := TimeCode(e, t), ValueCode(x, e.win);
    if |e.bits| + |time| > e.room then Outcome(e.(full := true), false)
    else if |e.bits| + |time| + |value| > e.room then
      Outcome(e.(full := true, prevT := t, prevDelta := t - e.prevT), false)
    else
      Outcome(e.(bits := e.bits + (time + value), count := Bump(e.count), prevT := t,
                 prevDelta := t - e.prevT, prevV := v, win := NextWindow(x, e.win)), true)
  }

  /** `compress`: the first point, a dropped older point, or a later point. */
  function Compress(e: Enc, t: U64, v: Word): Outcome
    requires e.start <= t && WindowOk(e.win)
  {
    if e.count == 0 then CompressFirst(e, t, v)
    else if e.prevT > t then Outcome(e, true)
    else CompressNext(e, t, v)
  }

  // ---------------------------------------------------------------- reading

  /** What the reader knows after a point. */
  datatype Dec = Dec(t: U64, delta: U64, v: Word, seen: Seen)

  datatype Decoded = Garbled | Decoded(points: seq<Point>, last: Dec)

  /** What the reader knows after reading a delta of deltas and an XOR. */
  function Advanced(d: Dec, dod: int, xor: Xor): Dec
    requires -TWO32 <= dod < TWO32
  {
    var delta := Wrap(d.delta + dod);
    Dec(Wrap(d.t + delta), delta, XorWord(d.v, xor.x), xor.seen)
  }

  function ReadPoint(d: Dec, s: seq<bool>): (r: Parsed<Dec>)
    ensures r.Parsed? ==> |r.rest| < |s|
  {
    match ReadDod(s)
    case Cut => Cut
    case Parsed(dod, r1) =>
      match ReadValue(r1, d.seen)
      case Cut => Cut
      case Parsed(v, r2) =>
        Parsed(Advanced(d, dod, v), r2)
  }

  function DecodeRest(d: Dec, s: seq<bool>): Decoded
    decreases |s|
  {
    if s == [] then Decoded([], d)
    else match ReadPoint(d, s)
      case Cut => Garbled
      case Parsed(d', rest) =>
        match DecodeRest(d', rest)
        case Garbled => Garbled
        case Decoded(ps, last) => Decoded([Point(d'.t, d'.v)] + ps, last)
  }

  function HeaderOf(start: U64, s: seq<bool>): Dec
    requires |s| == 96
  {
    var h := HeaderFields(s);
    Dec(Wrap(start + h.offset), h.offset, h.v, NothingSeen)
  }

  function DecodeAfter(d: Dec, s: seq<bool>): Decoded {
    match DecodeRest(d, s)
    case Garbled => Garbled
    case Decoded(ps, last) => Decoded([Point(d.t, d.v)] + ps, last)
  }

  /** `uncompress` of a stream that is not empty. */
  function Decode(start: U64, s: seq<bool>): Decoded {
    if |s| < 96 then Garbled else DecodeAfter(HeaderOf(start, s[..96]), s[96..])
  }

  // ---------------------------------------------------------------- reading is stable under appending

  lemma {:induction false} ReadDodStable(s: seq<bool>, more: seq<bool>)
    requires ReadDod(s).Parsed?
    ensures ReadDod(s + more) == Parsed(ReadDod(s).value, ReadDod(s).rest + more)
  {
    var t := s + more;
    if !s[0] {
      assert t[1..] == s[1..] + more;
    } else if !s[1] {
      assert t[2..] == s[2..] + more;
      TakeStable(s[2..], more, 14);
    } else {
      assert t[3..] == s[3..] + more;
      TakeStable(s[3..], more, if s[2] then 33 else 17);
    }
  }

  lemma {:induction false} ReadWindowedStable(s: seq<bool>, more: seq<bool>, w: Seen)
    requires ReadWindowed(s, w).Parsed?
    ensures ReadWindowed(s + more, w) == Parsed(ReadWindowed(s, w).value, ReadWindowed(s, w).rest + more)
  {
    TakeStable(s, more, w.nz);
  }

  lemma {:induction false} ReadValueStable(s: seq<bool>, more: seq<bool>, w: Seen)
    requires ReadValue(s, w).Parsed?
    ensures ReadValue(s + more, w) == Parsed(ReadValue(s, w).value, ReadValue(s, w).rest + more)
  {
    var t := s + more;
    if !s[0] {
      assert t[1..] == s[1..] + more;
    } else {
      assert t[2..] == s[2..] + more;
      if !s[1] {
        ReadWindowedStable(s[2..], more, w);
      } else {
        TakeStable(s[2..], more, 11);
        var p := Take(s[2..], 11);
        ReadWindowedStable(p.rest, more, ReadSeen(p.value));
      }
    }
  }

  lemma {:induction false} ReadPointStable(d: Dec, s: seq<bool>, more: seq<bool>)
    requires ReadPoint(d, s).Parsed?
    ensures ReadPoint(d, s + more) == Parsed(ReadPoint(d, s).value, ReadPoint(d, s).rest + more)
  {
    ReadDodStable(s, more);
    ReadValueStable(ReadDod(s).rest, more, d.seen);
  }

  lemma {:induction false} DecodeRestCons(d: Dec, s: seq<bool>, d': Dec, rest: seq<bool>)
    requires s != [] && ReadPoint(d, s) == Parsed(d', rest) && DecodeRest(d', rest).Decoded?
    ensures DecodeRest(d, s) == Decoded([Point(d'.t, d'.v)] + DecodeRest(d', rest).points, DecodeRest(d', rest).last)
  {
  }

  /** Appending the code of one more point appends that point to what is decoded. */
  lemma {:induction false} DecodeRestSnoc(d: Dec, s: seq<bool>, code: seq<bool>, d': Dec)
    requires DecodeRest(d, s).Decoded? && code != []
    requires ReadPoint(DecodeRest(d, s).last, code) == Parsed(d', [])
    ensures DecodeRest(d, s + code) == Decoded(DecodeRest(d, s).points + [Point(d'.t, d'.v)], d')
    decreases |s|
  {
    hide ReadPoint;
    if s == [] {
      assert s + code == code;
      DecodeRestCons(d, code, d', []);
    } else {
      var p := ReadPoint(d, s);
      DecodeRestSnoc(p.value, p.rest, code, d');
      DecodeRestCons(d, s, p.value, p.rest);
      ReadPointStable(d, s, code);
      DecodeRestCons(d, s + code, p.value, p.rest + code);
    }
  }

  lemma {:induction false} DecodeAfterSnoc(d: Dec, s: seq<bool>, code: seq<bool>, d': Dec)
    requires DecodeAfter(d, s).Decoded? && code != []
    requires ReadPoint(DecodeAfter(d, s).last, code) == Parsed(d', [])
    ensures DecodeAfter(d, s + code) == Decoded(DecodeAfter(d, s).points + [Point(d'.t, d'.v)], d')
  {
    DecodeRestSnoc(d, s, code, d');
  }

  lemma {:induction false} DecodeSnoc(start: U64, s: seq<bool>, code: seq<bool>, d': Dec)
    requires Decode(start, s).Decoded? && code != []
    requires ReadPoint(Decode(start, s).last, code) == Parsed(d', [])
    ensures Decode(start, s + code) == Decoded(Decode(start, s).points + [Point(d'.t, d'.v)], d')
  {
    SplitAppend(s, code, 96);
    DecodeAfterSnoc(HeaderOf(start, s[..96]), s[96..], code, d');
  }

  lemma {:induction false} ReadPointParts(d: Dec, s: seq<bool>, dod: int, mid: seq<bool>, xor: Xor)
    requires -TWO32 <= dod < TWO32 && ReadDod(s) == Parsed(dod, mid) && ReadValue(mid, d.seen) == Parsed(xor, [])
    ensures ReadPoint(d, s) == Parsed(Advanced(d, dod, xor), [])
  {
  }

  /** The XOR by which `v` is written after `prevV`, and the window the reader then knows. */
  function XorFor(v: Word, prevV: Word, win: Window): Xor {
    var x := XorWord(v, prevV);
    Xor(x, SeenOf(NextWindow(x, win)))
  }

  /** The code of one more point is read back; its time is right if it was stored exactly. */
  lemma {:induction false} NextCodeReads(d: Dec, dod: int, v: Word, prevV: Word, win: Window)
    requires WindowOk(win) && d.seen == SeenOf(win)
    ensures ReadPoint(d, DodCode(dod) + ValueCode(XorWord(v, prevV), win))
              == Parsed(Advanced(d, StoredDod(dod), XorFor(v, prevV, win)), [])
  {
    var x := XorWord(v, prevV);
    var value := ValueCode(x, win);
    DodCodeReads(dod, value);
    assert value + [] == value;
    ValueCodeReads(x, win, []);
    ReadPointParts(d, DodCode(dod) + value, StoredDod(dod), value, XorFor(v, prevV, win));
  }

  /** The reader's state after the next point. */
  function NextDec(d: Dec, dod: int, v: Word, seen: Seen): Dec {
    var delta := Wrap(d.delta + StoredDod(dod));
    Dec(Wrap(d.t + delta), delta, v, seen)
  }

  /** Appending the code of one more point appends that point to what is decoded. */
  lemma {:induction false} NextDecodes(start: U64, bits: seq<bool>, ds: seq<Point>, d: Dec,
                                       dod: int, v: Word, win: Window)
    requires Decode(start, bits) == Decoded(ds, d) && WindowOk(win) && d.seen == SeenOf(win)
    ensures var d' := NextDec(d, dod, v, SeenOf(NextWindow(XorWord(v, d.v), win)));
            Decode(start, bits + (DodCode(dod) + ValueCode(XorWord(v, d.v), win))) == Decoded(ds + [Point(d'.t, v)], d')
  {
    NextCodeReads(d, dod, v, d.v, win);
    XorBack(d.v, v);
    var d' := NextDec(d, dod, v, SeenOf(NextWindow(XorWord(v, d.v), win)));
    assert d' == Advanced(d, StoredDod(dod), XorFor(v, d.v, win));
    DecodeSnoc(start, bits, DodCode(dod) + ValueCode(XorWord(v, d.v), win), d');
  }

  lemma {:induction false} HeaderReads(start: U64, offset: U64, v: Word)
    ensures HeaderOf(start, HeaderCode(offset, v)) == Dec(Wrap(start + offset % TWO32), offset % TWO32, v, NothingSeen)
  {
    hide HeaderFields, HeaderCode;
    HeaderFieldsRead(offset, v);
  }
}
