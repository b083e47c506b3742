/**
 How large a page may be before the 16-bit point counter of `Compressor_v2` lets a run corrupt its
 stream: after 65536 points the counter reads zero, and the next point is written as a page header.
 */
module GorillaLimits {
  import opened BitCode
  import opened StreamCode
  import opened Series
  import opened ZeroBits
  import opened GorillaCode
  import opened GorillaStream
  import opened GorillaTheorems

  /** `n` points at time 0 with the value whose bits are all zero. */
  function Zeros(n: nat): (r: seq<Point>)
    ensures |r| == n
  {
    if n == 0 then [] else Zeros(n - 1) + [Point(0, ZeroValue)]
  }

  lemma {:induction false} ZerosAt(n: nat, i: nat)
    requires i < n
    ensures Zeros(n)[i] == Point(0, ZeroValue)
  {
    if i < n - 1 { ZerosAt(n - 1, i); }
  }

  lemma {:induction false} ZerosCallable(n: nat)
    ensures Callable(0, Zeros(n))
  {
    forall i | 0 <= i < n ensures 0 <= Zeros(n)[i].t { ZerosAt(n, i); }
  }

  lemma {:induction false} ZerosInRange(n: nat)
    ensures InRange(0, Zeros(n), 33)
  {
    if n > 0 {
      var ps := Zeros(n);
      assert ps[..n - 1] == Zeros(n - 1);
      ZerosInRange(n - 1);
      ZerosAt(n, n - 1);
      ZerosAt(n, 0);
      if n > 1 {
        ZerosAt(n - 1, n - 2);
        ZerosAt(n - 1, 0);
        if n > 2 { ZerosAt(n - 1, n - 3); }
        assert LastDelta(0, ps[..n - 1]) == 0;
        ZeroFits();
      }
    }
  }

  lemma {:induction false} ZeroFits()
    ensures Dod(0, 0) == 0 && Fits(0, 33)
  {
    Pow2Values();
  }

  // ---------------------------------------------------------------- the all-zero stream

  /** The state after `n` zero points. */
  function ZeroEnc(room: nat, n: nat): Enc
    requires 0 < n
  {
    Enc(0, room, Repeat(false, 96 + 2 * (n - 1)), n % 0x1_0000, 0, 0, ZeroValue, NoWindow, false)
  }

  lemma {:induction false} ZeroXor()
    ensures XorWord(ZeroValue, ZeroValue) == ZeroValue && Zero(ZeroValue)
  {
  }

  lemma {:induction false} ZeroNext(room: nat, n: nat)
    requires 0 < n < 0x1_0000 && room >= FOOLED
    ensures Compress(ZeroEnc(room, n), 0, ZeroValue) == Outcome(ZeroEnc(room, n + 1), true)
  {
    hide Repeat, HeaderCode, Reuses, ToBits;
    ZeroXor();
    var e := ZeroEnc(room, n);
    assert TimeCode(e, 0) == [false] && ValueCode(ZeroValue, e.win) == [false];
    RepeatJoins(96 + 2 * (n - 1), 2);
    PairOfZeros();
  }

  lemma {:induction false} PairOfZeros()
    ensures [false] + [false] == Repeat(false, 2)
  {
  }

  lemma {:induction false} ZeroFirst(e: Enc)
    requires e.start == 0 && e.count == 0 && WindowOk(e.win) && |e.bits| + 96 <= e.room
    ensures Compress(e, 0, ZeroValue) ==
            Outcome(e.(bits := e.bits + Repeat(false, 96), count := 1, prevT := 0, prevDelta := 0,
                       prevV := ZeroValue), true)
  {
    hide Repeat, HeaderCode;
    ZeroHeader();
  }

  lemma {:induction false} ZeroRun(room: nat, n: nat)
    requires 0 < n <= 0x1_0000 && room >= FOOLED
    ensures Callable(0, Zeros(n)) && Play(0, room, Zeros(n)) == Trace(ZeroEnc(room, n), Zeros(n), false)
  {
    hide Compress, Repeat;
    ZerosCallable(n);
    var ps := Zeros(n);
    assert ps[..n - 1] == Zeros(n - 1) && ps[n - 1] == Point(0, ZeroValue);
    if n == 1 {
      ZeroFirst(Init(0, room));
      assert [] + Repeat(false, 96) == Repeat(false, 96);
    } else {
      ZeroRun(room, n - 1);
      ZeroNext(room, n - 1);
    }
  }

  /** The 65537th point is written as a second header. */
  lemma {:induction false} ZeroRunWraps(room: nat)
    requires room >= FOOLED
    ensures Callable(0, Zeros(0x1_0001))
    ensures Play(0, room, Zeros(0x1_0001)).stored == Zeros(0x1_0001)
    ensures Play(0, room, Zeros(0x1_0001)).enc.bits == Repeat(false, FOOLED)
  {
    hide Compress, Repeat;
    var ps := Zeros(0x1_0001);
    ZerosCallable(0x1_0001);
    assert ps[..0x1_0000] == Zeros(0x1_0000) && ps[0x1_0000] == Point(0, ZeroValue);
    ZeroRun(room, 0x1_0000);
    ZeroFirst(ZeroEnc(room, 0x1_0000));
    RepeatJoins(96 + 2 * 0xFFFF, 96);
  }

  // ---------------------------------------------------------------- what the reader makes of it

  const ZeroDec := Dec(0, 0, ZeroValue, NothingSeen)

  lemma {:induction false} ZeroReads(n: nat)
    requires n >= 2
    ensures ReadPoint(ZeroDec, Repeat(false, n)) == Parsed(ZeroDec, Repeat(false, n - 2))
  {
    var s := Repeat(false, n);
    assert s[1..] == Repeat(false, n - 1) && s[1..][1..] == Repeat(false, n - 2);
    ZeroXor();
  }

  lemma {:induction false} ZeroStream(m: nat)
    ensures var r := DecodeRest(ZeroDec, Repeat(false, 2 * m)); r.Decoded? && |r.points| == m
    decreases m
  {
    hide Repeat, ReadPoint;
    if m > 0 {
      ZeroReads(2 * m);
      ZeroStream(m - 1);
      assert Repeat(false, 2 * m) != [];
    } else {
      assert Repeat(false, 0) == [];
    }
  }

  lemma {:induction false} ZeroDecodes(m: nat)
    ensures Decode(0, Repeat(false, 96 + 2 * m)).Decoded? && |Decode(0, Repeat(false, 96 + 2 * m)).points| == m + 1
  {
    hide Repeat, HeaderOf, HeaderCode, DecodeRest;
    var s := Repeat(false, 96 + 2 * m);
    assert s[..96] == Repeat(false, 96) && s[96..] == Repeat(false, 2 * m);
    ZeroHeader();
    HeaderReads(0, 0, ZeroValue);
    ZeroStream(m);
  }

  /** No run of in-range points is decoded to anything but the points stored. */
  ghost predicate LosslessPage(room: nat) {
    forall start: U64, calls: seq<Point> {:trigger Play(start, room, calls)} |
      Callable(start, calls) && InRange(start, Play(start, room, calls).stored, 33)
      && Play(start, room, calls).stored != [] ::
      var tr := Play(start, room, calls);
      Decode(start, tr.enc.bits).Decoded? && Decode(start, tr.enc.bits).points == tr.stored
  }

  /** 65537 equal points on a large page come back as 65584. */
  lemma {:induction false} LargePageLoses(room: nat)
    requires room >= FOOLED
    ensures !LosslessPage(room)
  {
    hide Play, Decode, Repeat, Zeros;
    var ps := Zeros(0x1_0001);
    ZeroRunWraps(room);
    ZerosInRange(0x1_0001);
    ZeroDecodes(0xFFFF + 48);
    assert Play(0, room, ps).stored == ps;
  }

  /** Exactly the pages below 131262 bits, that is up to 16407 bytes, are lossless for every run. */
  lemma {:induction false} LosslessIffSmall(room: nat)
    ensures LosslessPage(room) <==> room < FOOLED
  {
    hide Play, Decode, InRange;
    if room < FOOLED {
      forall start: U64, calls: seq<Point> |
        Callable(start, calls) && InRange(start, Play(start, room, calls).stored, 33)
        && Play(start, room, calls).stored != []
        ensures var tr := Play(start, room, calls);
                Decode(start, tr.enc.bits).Decoded? && Decode(start, tr.enc.bits).points == tr.stored
      {
        PlayHolds(start, room, calls);
      }
    } else {
      LargePageLoses(room);
    }
  }
}
