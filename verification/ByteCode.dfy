/**
 The byte codes of `Compressor_v1` in src/core/compress.cpp: a delta of deltas in one or two bytes
 with an escape to four more, and the XOR of two values as a control byte followed by the bytes that
 are not zero.
 */
module ByteCode {
  import opened ByteBits
  import opened Bits
  import opened BitCode
  import opened StreamCode

  /** What reading a code from the front of a byte string yields; `Short` when it ends too early. */
  datatype Got<+T> = Short | Got(value: T, rest: seq<bv8>)

  /** The bytes of a 64-bit floating point number, as they lie in memory. */
  type Value = s: seq<bv8> | |s| == 8 witness [0, 0, 0, 0, 0, 0, 0, 0]

  function Split(s: seq<bv8>, k: nat): (r: Got<seq<bv8>>)
    ensures r.Got? ==> |r.value| == k && |r.rest| == |s| - k
  {
    if |s| < k then Short else Got(s[..k], s[k..])
  }

  lemma {:induction false} SplitFront(b: seq<bv8>, rest: seq<bv8>)
    ensures Split(b + rest, |b|) == Got(b, rest)
  {
  }

  lemma {:induction false} SplitStable(s: seq<bv8>, more: seq<bv8>, k: nat)
    requires Split(s, k).Got?
    ensures Split(s + more, k) == Got(Split(s, k).value, Split(s, k).rest + more)
  {
    assert (s + more)[..k] == s[..k] && (s + more)[k..] == s[k..] + more;
  }

  // ---------------------------------------------------------------- numbers in memory

  /** The low `w` bits of `n`, least significant byte first. */
  function Little(n: int, w: nat): (r: seq<bv8>)
    requires w % 8 == 0
    ensures 8 * |r| == w
  {
    Reverse(BytesFrom(ToBits(n, w)))
  }

  function BigBits(b: seq<bv8>): (r: seq<bool>)
    ensures |r| == 8 * |b|
  {
    BitsOf(Reverse(b))
  }

  lemma {:induction false} LittleBits(n: int, w: nat)
    requires w % 8 == 0
    ensures BigBits(Little(n, w)) == ToBits(n, w)
  {
    hide BitsOf;
    ReverseTwice(BytesFrom(ToBits(n, w)));
    BitsOfBytesFrom(ToBits(n, w));
  }

  function ReadLittle(b: seq<bv8>): int
    requires b != []
  {
    Signed(BigBits(b))
  }

  lemma {:induction false} LittleBack(n: int, w: nat)
    requires w % 8 == 0 && w > 0
    ensures ReadLittle(Little(n, w)) == Signed(ToBits(n, w))
    ensures Fits(n, w) ==> ReadLittle(Little(n, w)) == n
  {
    hide Little, BigBits, Signed;
    LittleBits(n, w);
    if Fits(n, w) { SignedRoundTrip(n, w); }
  }

  lemma {:induction false} Powers()
    ensures Pow2(7) == 128 && Pow2(15) == 32768 && Pow2(31) == 0x8000_0000 && Pow2(32) == TWO32
  {
    assert Pow2(7) == 128;
    Pow2Add(7, 8);
    assert Pow2(8) == 256;
    Pow2Add(15, 16);
    Pow2Values();
  }

  // ---------------------------------------------------------------- timestamps

  /** Bits of the short form: two bytes for milliseconds, one for seconds. */
  function ShortBits(ms: bool): nat { if ms then 16 else 8 }

  /** The largest magnitude of the short form; one below is the escape. */
  function Limit(ms: bool): int { if ms then 32767 else 127 }

  function TimeCode(d: int, ms: bool): (r: seq<bv8>)
    ensures |r| >= 1
  {
    if -Limit(ms) <= d <= Limit(ms) then Little(d, ShortBits(ms))
    else Little(-Limit(ms) - 1, ShortBits(ms)) + Little(d, 32)
  }

  function ReadLong(s: seq<bv8>): (r: Got<int>)
    ensures r.Got? ==> |r.rest| == |s| - 4 && -TWO32 <= r.value < TWO32
  {
    match Split(s, 4)
    case Short => Short
    case Got(b, rest) =>
      Signed32(b);
      Got(ReadLittle(b), rest)
  }

  lemma {:induction false} Signed32(b: seq<bv8>)
    requires 0 < |b| <= 4
    ensures -TWO32 <= ReadLittle(b) < TWO32
  {
    hide BigBits, Signed;
    SignedBound(BigBits(b));
    Pow2Mono(8 * |b| - 1, 32);
    Powers();
  }

  function ReadTime(s: seq<bv8>, ms: bool): (r: Got<int>)
    ensures r.Got? ==> |r.rest| < |s| && -TWO32 <= r.value < TWO32
  {
    match Split(s, ShortBits(ms) / 8)
    case Short => Short
    case Got(b, rest) =>
      if ReadLittle(b) == -Limit(ms) - 1 then ReadLong(rest) else Signed32(b); Got(ReadLittle(b), rest)
  }

  /** The delta of deltas that is read back. */
  function StoredTime(d: int, ms: bool): int {
    if -Limit(ms) <= d <= Limit(ms) then d else Signed(ToBits(d, 32))
  }

  lemma {:induction false} ShortBack(n: int, ms: bool)
    requires -Limit(ms) - 1 <= n <= Limit(ms)
    ensures ReadLittle(Little(n, ShortBits(ms))) == n
  {
    hide ReadLittle, Little;
    Powers();
    LittleBack(n, ShortBits(ms));
  }

  /** Reading a timestamp code consumes exactly that code, whatever follows; short forms never look escaped. */
  lemma {:induction false} TimeCodeReads(d: int, ms: bool, rest: seq<bv8>)
    ensures ReadTime(TimeCode(d, ms) + rest, ms) == Got(StoredTime(d, ms), rest)
  {
    hide ReadLittle, Little, Split, Signed, ToBits;
    if -Limit(ms) <= d <= Limit(ms) {
      ShortBack(d, ms);
      SplitFront(Little(d, ShortBits(ms)), rest);
    } else {
      var esc, long := Little(-Limit(ms) - 1, ShortBits(ms)), Little(d, 32);
      assert esc + long + rest == esc + (long + rest);
      ShortBack(-Limit(ms) - 1, ms);
      SplitFront(esc, long + rest);
      SplitFront(long, rest);
      LittleBack(d, 32);
    }
  }

  /** A delta of deltas survives storing exactly when it is a 32-bit number. */
  lemma {:induction false} TimeSurvives(d: int, ms: bool)
    ensures StoredTime(d, ms) == d <==> Fits(d, 32)
    ensures -TWO32 <= StoredTime(d, ms) < TWO32
  {
    hide Signed, ToBits;
    Powers();
    if !(-Limit(ms) <= d <= Limit(ms)) {
      SignedBound(ToBits(d, 32));
      if Fits(d, 32) { SignedRoundTrip(d, 32); }
    }
  }

  // ---------------------------------------------------------------- values

  function XorBytes(a: Value, b: Value): Value {
    seq(8, i requires 0 <= i < 8 => a[i] ^ b[i])
  }

  lemma XorByte(a: bv8, b: bv8)
    ensures (b ^ a) ^ a == b && a ^ b == b ^ a
  {
  }

  lemma {:induction false} XorTwice(a: Value, b: Value)
    ensures XorBytes(XorBytes(b, a), a) == b
  {
    forall i | 0 <= i < 8 ensures XorBytes(XorBytes(b, a), a)[i] == b[i] { XorByte(a[i], b[i]); }
  }

  /** The bytes that are not zero. */
  function Packed(x: seq<bv8>): (r: seq<bv8>)
    ensures |r| <= |x|
  {
    if x == [] then [] else (if x[0] != 0 then [x[0]] else []) + Packed(x[1..])
  }

  /** Which bytes are not zero. */
  function Flags(x: seq<bv8>): (r: seq<bool>)
    ensures |r| == |x| && forall i | 0 <= i < |x| :: r[i] == (x[i] != 0)
  {
    if x == [] then [] else [x[0] != 0] + Flags(x[1..])
  }

  function Unpacked(flags: seq<bool>, s: seq<bv8>): (r: Got<seq<bv8>>)
    ensures r.Got? ==> |r.value| == |flags| && |r.rest| <= |s|
  {
    if flags == [] then Got([], s)
    else if flags[0] then
      if s == [] then Short
      else match Unpacked(flags[1..], s[1..])
        case Short => Short
        case Got(x, rest) => Got([s[0]] + x, rest)
    else match Unpacked(flags[1..], s)
      case Short => Short
      case Got(x, rest) => Got([0] + x, rest)
  }

  lemma {:induction false} UnpackedNone(s: seq<bv8>)
    ensures Unpacked([], s) == Got([], s)
  {
  }

  lemma {:induction false} UnpackedSet(flags: seq<bool>, s: seq<bv8>, x: seq<bv8>, rest: seq<bv8>)
    requires flags != [] && flags[0] && s != [] && Unpacked(flags[1..], s[1..]) == Got(x, rest)
    ensures Unpacked(flags, s) == Got([s[0]] + x, rest)
  {
  }

  lemma {:induction false} UnpackedClear(flags: seq<bool>, s: seq<bv8>, x: seq<bv8>, rest: seq<bv8>)
    requires flags != [] && !flags[0] && Unpacked(flags[1..], s) == Got(x, rest)
    ensures Unpacked(flags, s) == Got([0] + x, rest)
  {
  }

  /** The flags and the packed bytes give back all bytes. */
  lemma {:induction false} UnpackedBack(x: seq<bv8>, rest: seq<bv8>)
    ensures Unpacked(Flags(x), Packed(x) + rest) == Got(x, rest)
  {
    hide Unpacked;
    if x == [] {
      assert Packed(x) + rest == rest;
      UnpackedNone(rest);
    } else {
      UnpackedBack(x[1..], rest);
      assert Flags(x)[1..] == Flags(x[1..]) && x == [x[0]] + x[1..];
      var s, s' := Packed(x) + rest, Packed(x[1..]) + rest;
      if x[0] != 0 {
        assert s[0] == x[0] && s[1..] == s';
        UnpackedSet(Flags(x), s, x[1..], rest);
      } else {
        assert s == s';
        UnpackedClear(Flags(x), s, x[1..], rest);
      }
    }
  }

  lemma {:induction false} UnpackedStable(flags: seq<bool>, s: seq<bv8>, more: seq<bv8>)
    requires Unpacked(flags, s).Got?
    ensures Unpacked(flags, s + more) == Got(Unpacked(flags, s).value, Unpacked(flags, s).rest + more)
  {
    if flags != [] {
      if flags[0] {
        UnpackedStable(flags[1..], s[1..], more);
        assert (s + more)[1..] == s[1..] + more;
      } else {
        UnpackedStable(flags[1..], s, more);
      }
    }
  }

  function XorCode(x: Value): (r: seq<bv8>)
    ensures |r| >= 1
  {
    [MakeByte(Flags(x))] + Packed(x)
  }

  function ReadXor(s: seq<bv8>): (r: Got<Value>)
    ensures r.Got? ==> |r.rest| < |s|
  {
    if s == [] then Short else Unpacked(ListBits(s[0]), s[1..])
  }

  lemma MakeByteList(s: seq<bool>)
    requires |s| == 8
    ensures ListBits(MakeByte(s)) == s
  {
    forall i | 0 <= i < 8 ensures ListBits(MakeByte(s))[i] == s[i] { MakeByteBit(s, i); }
  }

  /** Reading a value code consumes exactly that code and recovers the XOR. */
  lemma {:induction false} XorCodeReads(x: Value, rest: seq<bv8>)
    ensures ReadXor(XorCode(x) + rest) == Got(x, rest)
  {
    hide Unpacked, Packed, MakeByte, ListBits;
    MakeByteList(Flags(x));
    assert (XorCode(x) + rest)[1..] == Packed(x) + rest;
    UnpackedBack(x, rest);
  }
}
