/**
 How large a page may be before the 16-bit point counter of `Compressor_v3` lets a run corrupt its
 stream, as in `Compressor_v2`; here a repeated point takes three bits.
 */
module FixedPointLimits {
  import opened BitCode
  import opened StreamCode
  import opened Series
  import opened ZeroBits
  import opened FixedPointCode
  import opened FixedPointStream
  import opened FixedPointTheorems

  /** The value 0 is the word of all zero bits and back, as it is in binary64. */
  ghost predicate ZeroIsZeroBits(f: Format) { f.bits(0.0) == ZeroValue && f.value(ZeroValue) == 0.0 }

  function Zeros(n: nat): (r: seq<Point>)
    ensures |r| == n && forall i | 0 <= i < n :: r[i] == Point(0, 0.0)
  {
    if n == 0 then [] else Zeros(n - 1) + [Point(0, 0.0)]
  }

  function ZeroEnc(room: nat, n: nat): Enc
    requires 0 < n
  {
    Enc(0, room, Repeat(false, 96 + 3 * (n - 1)), n % 0x1_0000, 0, 0, 0.0, false)
  }

  lemma {:induction false} ZeroCodes(p: Precision)
    ensures IntCode(0) + FloatCode(0.0, p) == Repeat(false, 3) && |IntCode(0)| == 1
  {
    assert Unit(p) > 0.0;
    assert Quantise(0.0, p) == Quantum(false, 0);
    assert [false] + ([false] + [false]) == Repeat(false, 3);
  }

  lemma {:induction false} ZeroNext(f: Format, room: nat, n: nat)
    requires ZeroIsZeroBits(f) && 0 < n < 0x1_0000 && room >= FOOLED
    ensures Compress(f, ZeroEnc(room, n), 0, 0.0) == Outcome(ZeroEnc(room, n + 1), true)
  {
    hide Repeat, HeaderCode, IntCode, FloatCode;
    ZeroCodes(f.p);
    RepeatJoins(96 + 3 * (n - 1), 3);
  }

  lemma {:induction false} ZeroFirst(f: Format, e: Enc)
    requires ZeroIsZeroBits(f) && e.start == 0 && e.count == 0 && |e.bits| + 96 <= e.room
    ensures Compress(f, e, 0, 0.0) ==
            Outcome(e.(bits := e.bits + Repeat(false, 96), count := 1, prevT := 0, prevDelta := 0, prevV := 0.0), true)
  {
    hide Repeat, HeaderCode;
    ZeroHeader();
  }

  lemma {:induction false} ZeroRun(f: Format, room: nat, n: nat)
    requires ZeroIsZeroBits(f) && 0 < n <= 0x1_0000 && room >= FOOLED
    ensures Play(f, 0, room, Zeros(n)) == Trace(ZeroEnc(room, n), Zeros(n), false)
  {
    hide Compress, Repeat;
    var ps := Zeros(n);
    assert ps[..n - 1] == Zeros(n - 1) && ps[n - 1] == Point(0, 0.0);
    if n == 1 {
      ZeroFirst(f, Init(0, room));
      assert [] + Repeat(false, 96) == Repeat(false, 96);
    } else {
      ZeroRun(f, room, n - 1);
      ZeroNext(f, room, n - 1);
    }
  }

  /** The 65537th point is written as a second header. */
  lemma {:induction false} ZeroRunWraps(f: Format, room: nat)
    requires ZeroIsZeroBits(f) && room >= FOOLED
    ensures Play(f, 0, room, Zeros(0x1_0001)).stored == Zeros(0x1_0001)
    ensures Play(f, 0, room, Zeros(0x1_0001)).enc.bits == Repeat(false, FOOLED)
  {
    hide Compress, Repeat;
    var ps := Zeros(0x1_0001);
    assert ps[..0x1_0000] == Zeros(0x1_0000) && ps[0x1_0000] == Point(0, 0.0);
    ZeroRun(f, room, 0x1_0000);
    ZeroFirst(f, ZeroEnc(room, 0x1_0000));
    RepeatJoins(96 + 3 * 0xFFFF, 96);
  }

  const ZeroDec := Dec(0, 0, 0.0)

  lemma {:induction false} ZeroReads(p: Precision, n: nat)
    requires n >= 3
    ensures ReadPoint(p, ZeroDec, Repeat(false, n)) == Parsed(ZeroDec, Repeat(false, n - 3))
  {
    var s := Repeat(false, n);
    assert s[1..] == Repeat(false, n - 1) && s[1..][1..] == Repeat(false, n - 2);
    assert s[1..][1..][1..] == Repeat(false, n - 3);
  }

  lemma {:induction false} ZeroStream(p: Precision, m: nat)
    ensures |DecodeRest(p, ZeroDec, Repeat(false, 3 * m)).points| == m
    decreases m
  {
    hide Repeat, ReadPoint;
    if m > 0 {
      ZeroReads(p, 3 * m);
      ZeroStream(p, m - 1);
      assert Repeat(false, 3 * m) != [];
    } else {
      assert Repeat(false, 0) == [];
    }
  }

  lemma {:induction false} ZeroDecodes(f: Format, m: nat)
    requires ZeroIsZeroBits(f)
    ensures Decode(f, 0, Repeat(false, 96 + 3 * m)).Decoded?
    ensures |Decode(f, 0, Repeat(false, 96 + 3 * m)).points| == m + 1
  {
    hide Repeat, HeaderFields, HeaderCode, DecodeRest;
    var s := Repeat(false, 96 + 3 * m);
    assert s[..96] == Repeat(false, 96) && s[96..] == Repeat(false, 3 * m);
    ZeroHeader();
    HeaderFieldsRead(0, ZeroValue);
    ZeroStream(f.p, m);
  }

  /** On such a page every run whose first point is near the start gets its timestamps back. */
  ghost predicate KeepsTimes(f: Format, room: nat) {
    forall start: U64, calls: seq<Point> {:trigger Play(f, start, room, calls)} |
      Callable(start, calls) && Play(f, start, room, calls).stored != []
      && Play(f, start, room, calls).stored[0].t - start < TWO32 ::
      var tr := Play(f, start, room, calls);
      Decode(f, start, tr.enc.bits).Decoded? && SameTimes(Decode(f, start, tr.enc.bits).points, tr.stored)
  }

  lemma {:induction false} LargePageLoses(f: Format, room: nat)
    requires ZeroIsZeroBits(f) && room >= FOOLED
    ensures !KeepsTimes(f, room)
  {
    hide Play, Decode, Repeat;
    var ps := Zeros(0x1_0001);
    ZeroRunWraps(f, room);
    ZeroDecodes(f, 0xFFFF + 32);
    assert Play(f, 0, room, ps).stored == ps;
  }

  /**
   Whatever the precision, exactly the pages below 196797 bits, that is up to 24599 bytes, keep the
   timestamps of every run.
   */
  lemma {:induction false} KeepsTimesIffSmall(f: Format, room: nat)
    requires ZeroIsZeroBits(f)
    ensures KeepsTimes(f, room) <==> room < FOOLED
  {
    hide Play, Decode, Kept;
    if room < FOOLED {
      forall start: U64, calls: seq<Point> |
        Callable(start, calls) && Play(f, start, room, calls).stored != []
        && Play(f, start, room, calls).stored[0].t - start < TWO32
        ensures var tr := Play(f, start, room, calls);
                Decode(f, start, tr.enc.bits).Decoded? && SameTimes(Decode(f, start, tr.enc.bits).points, tr.stored)
      {
        var used := PlayHolds(f, start, room, calls);
      }
    } else {
      LargePageLoses(f, room);
    }
  }
}
