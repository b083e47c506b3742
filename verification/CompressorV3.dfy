/**
 `Compressor_v3` of src/core/compress.cpp in its own form: fields updated point by point and a bit set
 that throws when it is full.  Writing refines the machine of FixedPointStream, and so does reading.
 */
module CompressorV3 {
  import opened ByteBits
  import opened BitCode
  import opened BitSet
  import opened BitWriter
  import opened BitReader
  import opened StreamCode
  import opened Series
  import opened FixedPointCode
  import opened FixedPointStream
  import opened FixedPointTheorems
  import opened FixedPointRestore
  import FixedPointRoom

  class CompressorV3 {
    const bitset: BitSet
    const f: Format
    var start: U64
    var count: nat
    var prevT: U64
    var prevDelta: U64
    var prevV: real
    var full: bool

    ghost predicate Valid()
      reads this, bitset
    {
      bitset.Valid()
    }

    ghost function Bits(): (r: seq<bool>)
      requires Valid()
      reads this, bitset, bitset.bits
    {
      bitset.Contents()
    }

    ghost function Room(): nat
      reads bitset
    {
      8 * bitset.bits.Length
    }

    /** The compressor as a state of the machine. */
    ghost function View(): Enc
      requires Valid()
      reads this, bitset, bitset.bits
    {
      Enc(start, Room(), Bits(), count, prevT, prevDelta, prevV, full)
    }

    constructor (f: Format, start: U64, base: array<bv8>)
      ensures Valid() && View() == Init(start, 8 * base.Length) && this.f == f && bitset.bits == base && fresh(bitset)
    {
      bitset := new BitSet(base);
      this.f, this.start, count, prevT, prevDelta, prevV, full := f, start, 0, start, 0, 0.0, false;
      new;
      assert Bits() == [];
    }

    /** `compress` of an integer. */
    method PutInt(n: int, ghost base: seq<bool>) returns (ok: bool)
      requires Valid() && base <= Bits()
      modifies bitset`cursor, bitset`start, bitset.bits
      ensures Valid()
      ensures ok <==> |old(Bits())| + |IntCode(n)| <= Room()
      ensures if ok then Bits() == old(Bits()) + IntCode(n) else Holds(bitset, base)
    {
      hide BitsOf, Bytes, ToBits;
      Prefixes();
      if n == 0 {
        ok := Put(bitset, [0x00], 1, 0, base, [false]);
      } else if -2048 <= n <= 2047 {
        BytesLow(n, 16, 12);
        ok := PutTwo(bitset, [0x80], 2, 0, Bytes(n, 16), 12, 16 - 12, base, IntCode(n));
      } else if -65536 <= n <= 65535 {
        BytesLow(n, 32, 17);
        ok := PutTwo(bitset, [0xC0], 3, 0, Bytes(n, 32), 17, 32 - 17, base, IntCode(n));
      } else {
        BytesLow(n, 64, 64);
        ok := PutTwo(bitset, [0xE0], 3, 0, Bytes(n, 64), 64, 0, base, IntCode(n));
      }
    }

    /** `compress` of a difference of values: whole, or scaled and rounded. */
    method PutFloat(v: real, ghost base: seq<bool>) returns (ok: bool)
      requires Valid() && base <= Bits()
      modifies bitset`cursor, bitset`start, bitset.bits
      ensures Valid()
      ensures ok <==> |old(Bits())| + |FloatCode(v, f.p)| <= Room()
      ensures if ok then Bits() == old(Bits()) + FloatCode(v, f.p) else Holds(bitset, base)
    {
      hide BitsOf, IntCode, Quantise;
      Prefixes();
      var q := Quantise(v, f.p);
      ghost var before := Bits();
      if !q.scaled {
        ok := Put(bitset, [0x00], 1, 0, base, [false]);
      } else {
        ok := Put(bitset, [0x80], 1, 0, base, [true]);
      }
      if ok {
        ok := PutInt(q.n, base);
        assert before + [q.scaled] + IntCode(q.n) == before + ([q.scaled] + IntCode(q.n));
      }
    }

    /** `compress1`. */
    method Compress1(t: U64, v: real, ghost base: seq<bool>) returns (ok: bool)
      requires Valid() && start <= t && base == Bits()
      modifies bitset`cursor, bitset`start, bitset.bits, `prevT, `prevDelta, `prevV, `count
      ensures Valid() && (ok <==> CompressFirst(f, old(View()), t, v).accepted)
      ensures if ok then View() == CompressFirst(f, old(View()), t, v).enc
              else Holds(bitset, base) && CompressFirst(f, old(View()), t, v).enc == Refused(base)
    {
      hide HeaderCode;
      ok := PutHeader(bitset, t - start, f.bits(v), base);
      if ok {
        prevT, prevV, prevDelta, count := t, v, (t - start) % TWO32, Bump(count);
      }
    }

    /** The part of `compress` for a point that is neither the first nor too old. */
    method CompressLater(t: U64, v: real, ghost base: seq<bool>) returns (ok: bool)
      requires Valid() && prevT <= t && base == Bits()
      modifies bitset`cursor, bitset`start, bitset.bits, `prevT, `prevDelta, `prevV, `count
      ensures Valid() && (ok <==> CompressNext(f, old(View()), t, v).accepted)
      ensures if ok then View() == CompressNext(f, old(View()), t, v).enc
              else Holds(bitset, base) && CompressNext(f, old(View()), t, v).enc == Refused(base)
    {
      hide IntCode, FloatCode, Dod, BitsOf;
      var delta := t - prevT;
      var dod := Dod(delta, prevDelta);
      ghost var dv := v - prevV;
      ok := PutInt(dod, base);
      if ok {
        prevT, prevDelta := t, delta;
        ok := PutFloat(v - prevV, base);
        assert base + IntCode(dod) + FloatCode(dv, f.p) == base + (IntCode(dod) + FloatCode(dv, f.p));
        if ok {
          count, prevV := Bump(count), v;
        }
      }
    }

    /** The state that a refused call leaves once the bit set is cut back to `base`. */
    ghost function Refused(base: seq<bool>): Enc
      reads this, bitset
    {
      Enc(start, Room(), base, count, prevT, prevDelta, prevV, true)
    }

    /** `compress`: one step of the machine, with the bit set cut back when it throws. */
    method Compress(t: U64, v: real) returns (ok: bool)
      requires Valid() && start <= t
      modifies this, bitset, bitset.bits
      ensures Valid() && bitset.bits == old(bitset.bits)
      ensures Outcome(View(), ok) == FixedPointStream.Compress(f, old(View()), t, v)
      ensures ok <==> FixedPointRoom.Takes(f, old(View()), t, v)
    {
      hide CompressFirst, CompressNext, FixedPointRoom.Takes;
      ghost var base := Bits();
      FixedPointRoom.AcceptedIff(f, View(), t, v);
      bitset.SaveCheckPoint();
      if count == 0 {
        ok := Compress1(t, v, base);
      } else if prevT > t {
        return true;
      } else {
        ok := CompressLater(t, v, base);
      }
      if !ok {
        bitset.RestoreFromCheckPoint();
        full := true;
      }
    }

    /** `uncompress`: on every stream that ends after a point, the points and the state the model decodes. */
    method Uncompress() returns (ok: bool, dps: seq<Point>, d: Dec)
      requires Valid()
      ensures Bits() == [] ==> ok && dps == []
      ensures var goal := Decode(f, start, Bits());
              goal.Decoded? && goal.clean ==> ok && goal == Decoded(dps, d, true)
    {
      hide Rest, HeaderFields, Remains, Decode;
      ghost var goal := Decode(f, start, Bits());
      ok, dps, d := true, [], Dec(start, 0, 0.0);
      RemainsAll(f, start, Bits());
      if bitset.Size() == 0 { return; }
      var cur, offset, first;
      ok, cur, offset, first := GetHeader(bitset);
      if !ok { return; }
      d := Dec(Wrap(start + offset), offset, f.value(first));
      dps, d := GetPoints(f.p, bitset, cur, d, goal);
    }

    /** `restore`: takes over a saved stream, or the one in its own buffer, and sets the fields from reading it. */
    method Restore(base: array?<bv8>, offset: nat, from: nat) returns (ok: bool, dps: seq<Point>)
      requires Valid() && offset > 0 && from < 8 && 8 * offset + from <= Room()
      requires base != null ==> 8 * offset + from <= 8 * base.Length
      modifies this, bitset`cursor, bitset`start, bitset.bits
      ensures bitset.Valid()
      ensures Bits() == BitsOf(old(if base == null then bitset.bits[..] else base[..]))[..8 * offset + from]
      ensures var goal := Decode(f, old(start), Bits());
              goal.Decoded? && goal.clean ==>
                ok && dps == goal.points && View() == Restored(f, old(start), Room(), Bits()).(full := old(full))
    {
      hide Decode;
      bitset.CopyFrom(base, offset, from);
      var d;
      ok, dps, d := Uncompress();
      if ok {
        count, prevDelta, prevT, prevV := |dps| % 0x1_0000, d.delta, d.t, d.v;
      }
    }
  }

  // ---------------------------------------------------------------- reading

  /** The repair of a 12-bit number in two bytes. */
  function Repair12(b: seq<bv8>): (r: seq<bv8>)
    requires |b| == 2
    ensures |r| == 2
  {
    [if b[0] & 0x08 != 0 then b[0] | 0xF0 else b[0] & 0x07, b[1]]
  }

  lemma RepairNibble(b: bv8, j: nat)
    requires j < 8
    ensures b & 0x08 != 0 ==> Bit(b | 0xF0, j) == Bit(b, if j < 4 then 4 else j)
    ensures b & 0x08 == 0 ==> Bit(b & 0x07, j) == Bit(b, if j < 4 then 4 else j)
  {
  }

  lemma {:induction false} Repaired12(b: seq<bv8>)
    requires |b| == 2
    ensures SignCopied(Repair12(b), b, 4)
  {
    forall j | 0 <= j < 16 ensures BitAt(Repair12(b), j) == BitAt(b, if j < 4 then 4 else j) {
      RepairNibble(b[0], j % 8);
    }
  }

  lemma {:induction false} NotRepaired(b: seq<bv8>)
    requires |b| == 8
    ensures SignCopied(b, b, 0)
  {
  }

  method GetNumber(bs: BitSet, cur: Cursor, k: nat) returns (ok: bool, cur': Cursor, n: int)
    requires bs.Valid() && Readable(bs, cur) && k in {12, 17, 64}
    ensures ok ==> Readable(bs, cur') && cur'.Pos() > cur.Pos() && -TWO63 <= n < TWO63
    ensures var p := ReadNumber(Rest(bs, cur), k);
            p.Parsed? ==> ok && p == Parsed(n, Rest(bs, cur'))
  {
    hide BitsOf, Signed;
    var w := if k == 12 then 16 else if k == 17 then 32 else 64;
    var b;
    ok, cur', b := Get(bs, cur, Blank(w / 8), k, w - k);
    var r := b;
    if k == 12 {
      Repaired12(b);
      r := Repair12(b);
    } else if k == 17 {
      Repaired17(b);
      r := Repair17(b);
    } else {
      NotRepaired(b);
    }
    n := Signed(BitsOf(r));
    ghost var s := BitsOf(b)[w - k..];
    RepairedValue(r, b, w - k, s);
    Signed64(s);
    assert s == BitsOf(b)[w - k..w];
  }

  /** `uncompress_i`. */
  method GetInt(bs: BitSet, cur: Cursor) returns (ok: bool, cur': Cursor, n: int)
    requires bs.Valid() && Readable(bs, cur)
    ensures ok ==> Readable(bs, cur') && cur'.Pos() > cur.Pos() && -TWO63 <= n < TWO63
    ensures Rest(bs, cur) == [] ==> !ok
    ensures var p := ReadInt(Rest(bs, cur));
            p.Parsed? ==> ok && p == Parsed(n, Rest(bs, cur'))
  {
    hide ReadInt, Rest;
    n := 0;
    ReadIntCut();
    var bit;
    ok, cur', bit := GetBit(bs, cur);
    if ok {
      ReadIntOne(Rest(bs, cur'));
      if bit {
        ok, cur', n := GetTwo(bs, cur');
      }
    }
  }

  /** The rest of an integer after a first bit that was set. */
  method GetTwo(bs: BitSet, cur: Cursor) returns (ok: bool, cur': Cursor, n: int)
    requires bs.Valid() && Readable(bs, cur)
    ensures ok ==> Readable(bs, cur') && cur'.Pos() > cur.Pos() && -TWO63 <= n < TWO63
    ensures var p := ReadInt([true] + Rest(bs, cur));
            p.Parsed? ==> ok && p == Parsed(n, Rest(bs, cur'))
  {
    hide ReadInt, ReadNumber, Rest;
    n := 0;
    ReadIntCut();
    var bit;
    ok, cur', bit := GetBit(bs, cur);
    if ok {
      ReadIntTwo(Rest(bs, cur'));
      if !bit {
        ok, cur', n := GetNumber(bs, cur', 12);
      } else {
        ok, cur', n := GetThree(bs, cur');
      }
    }
  }

  /** The rest of an integer after two bits that were set. */
  method GetThree(bs: BitSet, cur: Cursor) returns (ok: bool, cur': Cursor, n: int)
    requires bs.Valid() && Readable(bs, cur)
    ensures ok ==> Readable(bs, cur') && cur'.Pos() > cur.Pos() && -TWO63 <= n < TWO63
    ensures var p := ReadInt([true] + ([true] + Rest(bs, cur)));
            p.Parsed? ==> ok && p == Parsed(n, Rest(bs, cur'))
  {
    hide ReadInt, ReadNumber, Rest;
    n := 0;
    ReadIntCut();
    var bit;
    ok, cur', bit := GetBit(bs, cur);
    if ok {
      ReadIntThree(bit, Rest(bs, cur'));
      ok, cur', n := GetNumber(bs, cur', if bit then 64 else 17);
    }
  }

  lemma {:induction false} ReadIntCut()
    ensures ReadInt([]).Cut? && ReadInt([true] + []).Cut? && ReadInt([true] + ([true] + [])).Cut?
  {
  }

  lemma {:induction false} ReadIntOne(r: seq<bool>)
    ensures ReadInt([false] + r) == Parsed(0, r)
  {
  }

  lemma {:induction false} ReadIntTwo(r: seq<bool>)
    ensures ReadInt([true] + ([false] + r)) == ReadNumber(r, 12)
  {
    hide ReadNumber;
    assert ([true] + ([false] + r))[2..] == r;
  }

  lemma {:induction false} ReadIntThree(long: bool, r: seq<bool>)
    ensures ReadInt([true] + ([true] + ([long] + r))) == ReadNumber(r, if long then 64 else 17)
  {
    hide ReadNumber;
    assert ([true] + ([true] + ([long] + r)))[3..] == r;
  }

  /** `uncompress_f`. */
  method GetFloat(p: Precision, bs: BitSet, cur: Cursor) returns (ok: bool, cur': Cursor, v: real)
    requires bs.Valid() && Readable(bs, cur)
    ensures ok ==> Readable(bs, cur') && cur'.Pos() > cur.Pos()
    ensures var r := ReadFloat(Rest(bs, cur), p);
            r.Parsed? ==> ok && r == Parsed(v, Rest(bs, cur'))
  {
    hide ReadInt, Rest;
    v := 0.0;
    ghost var s := Rest(bs, cur);
    var bit, n;
    ok, cur', bit := GetBit(bs, cur);
    if ok {
      assert s[0] == bit && s[1..] == Rest(bs, cur');
      ok, cur', n := GetInt(bs, cur');
      v := if bit then Over(n as real, p) else n as real;
    }
  }

  /** Both differences of one point. */
  method GetDeltas(p: Precision, bs: BitSet, cur: Cursor) returns (ok: bool, cur': Cursor, dod: int, dv: real)
    requires bs.Valid() && Readable(bs, cur)
    ensures ok ==> Readable(bs, cur') && cur'.Pos() > cur.Pos() && -TWO63 <= dod < TWO63
    ensures Rest(bs, cur) == [] ==> !ok
    ensures ReadDeltas(p, Rest(bs, cur)).Parsed? ==>
              ok && ReadDeltas(p, Rest(bs, cur)) == Parsed((dod, dv), Rest(bs, cur'))
  {
    hide ReadInt, ReadFloat, Rest;
    dv := 0.0;
    ok, cur', dod := GetInt(bs, cur);
    if ok {
      ok, cur', dv := GetFloat(p, bs, cur');
    }
  }

  /** The loop of `uncompress`, from the first point `first` on. */
  method GetPoints(p: Precision, bs: BitSet, cur: Cursor, first: Dec, ghost goal: Decoded)
    returns (dps: seq<Point>, d: Dec)
    requires bs.Valid() && Readable(bs, cur)
    requires goal.Decoded? && goal.clean ==> Remains(p, goal, [Point(first.t, first.v)], first, Rest(bs, cur))
    ensures goal.Decoded? && goal.clean ==> goal == Decoded(dps, d, true)
  {
    hide Rest, ReadDeltas, Remains;
    d, dps := first, [Point(first.t, first.v)];
    var at := cur;
    while true
      invariant Readable(bs, at)
      invariant goal.Decoded? && goal.clean ==> Remains(p, goal, dps, d, Rest(bs, at))
      decreases 8 * bs.bits.Length - at.Pos()
    {
      ghost var rest := Rest(bs, at);
      var more, dod, dv;
      more, at, dod, dv := GetDeltas(p, bs, at);
      if goal.Decoded? && goal.clean { RemainsStep(p, goal, dps, d, rest, dod, dv, Rest(bs, at), more); }
      if !more { return; }
      var delta := Wrap(d.delta + dod);
      d := Dec(Wrap(d.t + delta), delta, d.v + dv);
      dps := dps + [Point(d.t, d.v)];
    }
  }

  function ReadDeltas(p: Precision, s: seq<bool>): Parsed<(int, real)> {
    match ReadInt(s)
    case Cut => Cut
    case Parsed(dod, r1) =>
      match ReadFloat(r1, p)
      case Cut => Cut
      case Parsed(dv, r2) => Parsed((dod, dv), r2)
  }

  /** `goal` is what was read so far followed by what is still to be read. */
  ghost predicate Remains(p: Precision, goal: Decoded, dps: seq<Point>, d: Dec, rest: seq<bool>)
    requires goal.Decoded?
  {
    var r := DecodeRest(p, d, rest);
    r.clean && goal == Decoded(dps + r.points, r.last, true)
  }

  /** After the header everything behind it remains to be read. */
  lemma {:induction false} RemainsAll(f: Format, start: U64, s: seq<bool>)
    ensures Decode(f, start, s).Decoded? <==> |s| >= 96
    ensures |s| >= 96 && Decode(f, start, s).clean ==>
              var h := HeaderFields(s[..96]);
              var d := Dec(Wrap(start + h.offset), h.offset, f.value(h.v));
              Remains(f.p, Decode(f, start, s), [Point(d.t, d.v)], d, s[96..])
  {
    hide HeaderFields, DecodeRest;
  }

  lemma {:induction false} RemainsStep(p: Precision, goal: Decoded, dps: seq<Point>, d: Dec, rest: seq<bool>,
                                       dod: int, dv: real, rest': seq<bool>, more: bool)
    requires goal.Decoded? && Remains(p, goal, dps, d, rest) && (rest == [] ==> !more)
    requires ReadDeltas(p, rest).Parsed? ==> more && ReadDeltas(p, rest) == Parsed((dod, dv), rest')
    requires more ==> -TWO63 <= dod < TWO63
    ensures !more ==> goal == Decoded(dps, d, true)
    ensures more ==>
              var d' := Advanced(d, dod, dv);
              Remains(p, goal, dps + [Point(d'.t, d'.v)], d', rest')
  {
    hide ReadInt, ReadFloat;
    if rest == [] {
      assert dps + [] == dps;
    } else {
      var d' := Advanced(d, dod, dv);
      var ps := DecodeRest(p, d', rest').points;
      assert dps + ([Point(d'.t, d'.v)] + ps) == dps + [Point(d'.t, d'.v)] + ps;
    }
  }

  // ---------------------------------------------------------------- writing and reading a series

  /**
   Writing a series through the class and reading it back through the class, on a page below the limit: the
   times come back exactly when the first is within 32 bits of the start, and values within their bound.
   */
  method WriteAndRead(f: Format, start: U64, base: array<bv8>, calls: seq<Point>) returns (used: nat, out: seq<Point>)
    requires Callable(start, calls) && 8 * base.Length < FOOLED
    modifies base
    ensures used <= |calls| && !Play(f, start, 8 * base.Length, calls[..used]).refused
    ensures used < |calls| ==> Play(f, start, 8 * base.Length, calls[..used + 1]).refused
    ensures var kept := Kept(calls[..used]);
            && |out| == |kept|
            && (kept != [] ==> (SameTimes(out, kept) <==> kept[0].t - start < TWO32))
            && (kept != [] && Representable(f, kept[0].v) && ScaledRun(kept, f.p) ==> Close(out, kept, f.p))
  {
    hide Play, Decode, Kept, FixedPointStream.Compress, SameTimes, Close, ScaledRun, Representable, GridRun;
    var c := new CompressorV3(f, start, base);
    ghost var room := 8 * base.Length;
    used := 0;
    PlayNothing(f, start, room);
    assert calls[..0] == [];
    while used < |calls|
      invariant used <= |calls| && c.Valid() && fresh(c) && fresh(c.bitset) && c.bitset.bits == base && c.f == f
      invariant Play(f, start, room, calls[..used]) == Trace(c.View(), Kept(calls[..used]), false)
    {
      ghost var before := c.View();
      var ok := c.Compress(calls[used].t, calls[used].v);
      PlayNext(f, start, room, calls, used, before, c.View(), ok);
      if !ok { break; }
      used := used + 1;
    }
    ghost var n := PlayHolds(f, start, room, calls[..used]);
    var ok, d;
    ok, out, d := c.Uncompress();
  }

  lemma {:induction false} PlayNothing(f: Format, start: U64, room: nat)
    ensures Play(f, start, room, []) == Trace(Init(start, room), Kept<real>([]), false)
  {
  }

  /** One more call of a run that has not been refused. */
  lemma {:induction false} PlayNext(f: Format, start: U64, room: nat, calls: seq<Point>, i: nat,
                                    e: Enc, e': Enc, ok: bool)
    requires Callable(start, calls) && i < |calls| && room < FOOLED && e.start == start
    requires Play(f, start, room, calls[..i]) == Trace(e, Kept(calls[..i]), false)
    requires Outcome(e', ok) == FixedPointStream.Compress(f, e, calls[i].t, calls[i].v)
    ensures e'.start == e.start
    ensures !ok ==> Play(f, start, room, calls[..i + 1]).refused && e'.bits == e.bits
    ensures ok ==> Play(f, start, room, calls[..i + 1]) == Trace(e', Kept(calls[..i + 1]), false)
  {
    hide FixedPointStream.Compress, Keep, Faithful, Decode, Counts, Follows;
    var tr, more := Play(f, start, room, calls[..i]), calls[..i + 1];
    assert more[..i] == calls[..i] && more[i] == calls[i];
    var n := PlayHolds(f, start, room, calls[..i]);
    KeepsFeed(f, tr, calls[i]);
  }
}
