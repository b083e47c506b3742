/**
 `Compressor_v3` of src/core/compress.cpp as a machine over bit strings, with values as reals: what
 one `compress` call does to the fields and the stream, and how the stream is read back.
 */
module FixedPointStream {
  import opened BitCode
  import opened StreamCode
  import opened Series
  import opened FixedPointCode

  type Point = DataPoint<real>

  /** How a page stores values: the 64-bit pattern of the first one, and the precision of the others. */
  datatype Format = Format(bits: real -> Word, value: Word -> real, p: Precision)

  predicate Representable(f: Format, v: real) { f.value(f.bits(v)) == v }

  // ---------------------------------------------------------------- writing

  datatype Enc = Enc(
    start: U64,
    room: nat,
    bits: seq<bool>,
    count: nat,
    prevT: U64,
    prevDelta: U64,
    prevV: real,
    full: bool)

  datatype Outcome = Outcome(enc: Enc, accepted: bool)

  function Init(start: U64, room: nat): Enc { Enc(start, room, [], 0, start, 0, 0.0, false) }

  function CompressFirst(f: Format, e: Enc, t: U64, v: real): Outcome
    requires e.start <= t
  {
    var code := HeaderCode(t - e.start, f.bits(v));
    if |e.bits| + |code| > e.room then Outcome(e.(full := true), false)
    else Outcome(e.(bits := e.bits + code, count := Bump(e.count), prevT := t,
                    prevDelta := (t - e.start) % TWO32, prevV := v), true)
  }

  /** A later point; when its value does not fit, the timestamp fields have already moved. */
  function CompressNext(f: Format, e: Enc, t: U64, v: real): Outcome
    requires e.prevT <= t
  {
    var time, value := IntCode(Dod(t - e.prevT, e.prevDelta)), FloatCode(v - e.prevV, f.p);
    if |e.bits| + |time| > e.room then Outcome(e.(full := true), false)
    else if |e.bits| + |time| + |value| > e.room then
      Outcome(e.(full := true, prevT := t, prevDelta := t - e.prevT), false)
    else
      Outcome(e.(bits := e.bits + (time + value), count := Bump(e.count), prevT := t,
                 prevDelta := t - e.prevT, prevV := v), true)
  }

  function Compress(f: Format, e: Enc, t: U64, v: real): Outcome
    requires e.start <= t
  {
    if e.count == 0 then CompressFirst(f, e, t, v)
    else if e.prevT > t then Outcome(e, true)
    else CompressNext(f, e, t, v)
  }

  // ---------------------------------------------------------------- reading

  /** What the reader knows after a point. */
  datatype Dec = Dec(t: U64, delta: U64, v: real)

  /** Points read, the reader's state, and whether the stream ended exactly after a point. */
  datatype Decoded = Garbled | Decoded(points: seq<Point>, last: Dec, clean: bool)

  function Advanced(d: Dec, dod: int, dv: real): Dec
    requires -TWO63 <= dod < TWO63
  {
    var delta := Wrap(d.delta + dod);
    Dec(Wrap(d.t + delta), delta, d.v + dv)
  }

  function ReadPoint(p: Precision, d: Dec, s: seq<bool>): (r: Parsed<Dec>)
    ensures r.Parsed? ==> |r.rest| < |s|
  {
    match ReadInt(s)
    case Cut => Cut
    case Parsed(dod, r1) =>
      match ReadFloat(r1, p)
      case Cut => Cut
      case Parsed(dv, r2) => Parsed(Advanced(d, dod, dv), r2)
  }

  /** Reading stops at the first point that cannot be read. */
  function DecodeRest(p: Precision, d: Dec, s: seq<bool>): (r: Decoded)
    ensures r.Decoded?
    decreases |s|
  {
    if s == [] then Decoded([], d, true)
    else match ReadPoint(p, d, s)
      case Cut => Decoded([], d, false)
      case Parsed(d', rest) =>
        var r := DecodeRest(p, d', rest);
        Decoded([Point(d'.t, d'.v)] + r.points, r.last, r.clean)
  }

  function HeaderOf(f: Format, start: U64, s: seq<bool>): Dec
    requires |s| == 96
  {
    var h := HeaderFields(s);
    Dec(Wrap(start + h.offset), h.offset, f.value(h.v))
  }

  function DecodeAfter(p: Precision, d: Dec, s: seq<bool>): (r: Decoded)
    ensures r.Decoded?
  {
    var r := DecodeRest(p, d, s);
    Decoded([Point(d.t, d.v)] + r.points, r.last, r.clean)
  }

  function Decode(f: Format, start: U64, s: seq<bool>): Decoded {
    if |s| < 96 then Garbled else DecodeAfter(f.p, HeaderOf(f, start, s[..96]), s[96..])
  }

  // ---------------------------------------------------------------- reading is stable under appending

  lemma {:induction false} ReadNumberStable(s: seq<bool>, more: seq<bool>, k: nat)
    requires 0 < k <= 64 && ReadNumber(s, k).Parsed?
    ensures ReadNumber(s + more, k) == Parsed(ReadNumber(s, k).value, ReadNumber(s, k).rest + more)
  {
    hide Signed;
    TakeStable(s, more, k);
  }

  lemma {:induction false} ReadIntStable(s: seq<bool>, more: seq<bool>)
    requires ReadInt(s).Parsed?
    ensures ReadInt(s + more) == Parsed(ReadInt(s).value, ReadInt(s).rest + more)
  {
    hide ReadNumber;
    var t := s + more;
    if !s[0] {
      assert t[1..] == s[1..] + more;
    } else if !s[1] {
      assert t[2..] == s[2..] + more;
      ReadNumberStable(s[2..], more, 12);
    } else {
      assert t[3..] == s[3..] + more;
      ReadNumberStable(s[3..], more, if s[2] then 64 else 17);
    }
  }

  lemma {:induction false} ReadFloatStable(s: seq<bool>, more: seq<bool>, p: Precision)
    requires ReadFloat(s, p).Parsed?
    ensures ReadFloat(s + more, p) == Parsed(ReadFloat(s, p).value, ReadFloat(s, p).rest + more)
  {
    hide ReadInt, Approx;
    assert (s + more)[1..] == s[1..] + more;
    ReadIntStable(s[1..], more);
  }

  lemma {:induction false} ReadPointStable(p: Precision, d: Dec, s: seq<bool>, more: seq<bool>)
    requires ReadPoint(p, d, s).Parsed?
    ensures ReadPoint(p, d, s + more) == Parsed(ReadPoint(p, d, s).value, ReadPoint(p, d, s).rest + more)
  {
    hide ReadInt, ReadFloat, Advanced;
    ReadIntStable(s, more);
    ReadFloatStable(ReadInt(s).rest, more, p);
  }

  lemma {:induction false} DecodeRestCons(p: Precision, d: Dec, s: seq<bool>, d': Dec, rest: seq<bool>)
    requires s != [] && ReadPoint(p, d, s) == Parsed(d', rest)
    ensures DecodeRest(p, d, s)
              == Decoded([Point(d'.t, d'.v)] + DecodeRest(p, d', rest).points, DecodeRest(p, d', rest).last,
                         DecodeRest(p, d', rest).clean)
  {
    hide ReadPoint;
  }

  /** Appending the code of one more point appends that point to what is decoded. */
  lemma {:induction false} DecodeRestSnoc(p: Precision, d: Dec, s: seq<bool>, code: seq<bool>, d': Dec)
    requires DecodeRest(p, d, s).clean && code != []
    requires ReadPoint(p, DecodeRest(p, d, s).last, code) == Parsed(d', [])
    ensures DecodeRest(p, d, s + code) == Decoded(DecodeRest(p, d, s).points + [Point(d'.t, d'.v)], d', true)
    decreases |s|
  {
    hide ReadPoint;
    if s == [] {
      assert s + code == code;
      DecodeRestCons(p, d, code, d', []);
    } else {
      var r := ReadPoint(p, d, s);
      DecodeRestSnoc(p, r.value, r.rest, code, d');
      DecodeRestCons(p, d, s, r.value, r.rest);
      ReadPointStable(p, d, s, code);
      DecodeRestCons(p, d, s + code, r.value, r.rest + code);
    }
  }

  lemma {:induction false} DecodeSnoc(f: Format, start: U64, s: seq<bool>, code: seq<bool>, d': Dec)
    requires Decode(f, start, s).Decoded? && Decode(f, start, s).clean && code != []
    requires ReadPoint(f.p, Decode(f, start, s).last, code) == Parsed(d', [])
    ensures Decode(f, start, s + code) == Decoded(Decode(f, start, s).points + [Point(d'.t, d'.v)], d', true)
  {
    hide DecodeRest, ReadPoint, HeaderOf;
    SplitAppend(s, code, 96);
    DecodeRestSnoc(f.p, HeaderOf(f, start, s[..96]), s[96..], code, d');
  }

  /** The code of one more point is read back. */
  lemma {:induction false} NextCodeReads(p: Precision, d: Dec, dod: int, dv: real)
    requires -TWO63 <= dod < TWO63
    ensures ReadPoint(p, d, IntCode(dod) + FloatCode(dv, p)) == Parsed(Advanced(d, dod, StoredFloat(dv, p)), [])
  {
    hide IntCode, FloatCode, ReadInt, ReadFloat, Stored, StoredFloat, Advanced;
    var value := FloatCode(dv, p);
    IntCodeReads(dod, value);
    StoredExactly(dod);
    assert value + [] == value;
    FloatCodeReads(dv, p, []);
  }

  lemma {:induction false} HeaderReads(f: Format, start: U64, offset: U64, v: real)
    ensures var s := HeaderCode(offset, f.bits(v));
            var d := Dec(Wrap(start + offset % TWO32), offset % TWO32, f.value(f.bits(v)));
            Decode(f, start, s) == Decoded([Point(d.t, d.v)], d, true)
  {
    hide HeaderFields, HeaderCode;
    var s := HeaderCode(offset, f.bits(v));
    HeaderFieldsRead(offset, f.bits(v));
    assert s[..96] == s && s[96..] == [];
    var first := Point(Wrap(start + offset % TWO32), f.value(f.bits(v)));
    assert [first] + [] == [first];
  }
}
