/**
 What the two bit-stream compressors of src/core/compress.cpp share: 64-bit words and unsigned
 arithmetic, reading from the front of a stream, and the header that stores the first point.
 */
module StreamCode {
  import opened ByteBits
  import opened Bits
  import opened BitCode

  /** A 64-bit pattern, most significant bit first. */
  type Word = w: seq<bool> | |w| == 64 witness Repeat(false, 64)

  /** What reading a code from the front of a stream yields; `Cut` when the stream ends too early. */
  datatype Parsed<+T> = Cut | Parsed(value: T, rest: seq<bool>)

  const TWO32: int := 0x1_0000_0000
  const TWO63: int := 0x8000_0000_0000_0000
  const TWO64: int := 0x1_0000_0000_0000_0000

  /** An unsigned 64-bit number: timestamps and their differences. */
  type U64 = n: nat | n < TWO64

  /** Unsigned 64-bit arithmetic: `n` modulo 2^64, for sums and differences of two numbers. */
  function Wrap(n: int): U64
    requires -TWO64 <= n < 2 * TWO64
  {
    if n < 0 then n + TWO64 else if n < TWO64 then n else n - TWO64
  }

  function AsInt64(n: U64): int { if n < TWO63 then n else n - TWO64 }

  /** `delta - prevDelta` as the source computes it: unsigned subtraction read as a signed number. */
  function Dod(delta: U64, prevDelta: U64): int { AsInt64(Wrap(delta - prevDelta)) }

  /** Adding the delta of deltas back, in unsigned arithmetic, recovers the delta and nothing else does. */
  lemma {:induction false} DodAddsBack(delta: U64, prevDelta: U64, d: int)
    requires -TWO63 <= d < TWO63
    ensures Wrap(prevDelta + d) == delta <==> d == Dod(delta, prevDelta)
  {
  }

  /** The reader arrives at time `t` exactly when it is given the true delta of deltas. */
  lemma {:induction false} TimeArrives(prevT: U64, prevDelta: U64, t: U64, d: int)
    requires prevT <= t && -TWO63 <= d < TWO63
    ensures Wrap(prevT + Wrap(prevDelta + d)) == t <==> d == Dod(t - prevT, prevDelta)
    ensures d == Dod(t - prevT, prevDelta) ==> Wrap(prevDelta + d) == t - prevT
  {
    DodAddsBack(t - prevT, prevDelta, d);
    var dl := Wrap(prevDelta + d);
    assert Wrap(prevT + dl) == if prevT + dl < TWO64 then prevT + dl else prevT + dl - TWO64;
  }

  // ---------------------------------------------------------------- reading from the front

  /** Reads `k` bits. */
  function Take(s: seq<bool>, k: nat): Parsed<seq<bool>> {
    if |s| < k then Cut else Parsed(s[..k], s[k..])
  }

  lemma {:induction false} TakeFront(b: seq<bool>, rest: seq<bool>)
    ensures Take(b + rest, |b|) == Parsed(b, rest)
  {
  }

  lemma {:induction false} DropPrefix(p: seq<bool>, b: seq<bool>, rest: seq<bool>)
    ensures (p + b + rest)[|p|..] == b + rest
  {
  }

  lemma {:induction false} Pow2Values()
    ensures Pow2(13) == 8192 && Pow2(16) == 65536 && Pow2(32) == TWO32
  {
    assert Pow2(8) == 256;
    Pow2Add(8, 5);
    assert Pow2(5) == 32;
    Pow2Add(8, 8);
    Pow2Add(16, 16);
  }

  lemma {:induction false} TakeStable(s: seq<bool>, more: seq<bool>, k: nat)
    requires Take(s, k).Parsed?
    ensures Take(s + more, k) == Parsed(Take(s, k).value, Take(s, k).rest + more)
  {
    assert (s + more)[..k] == s[..k] && (s + more)[k..] == s[k..] + more;
  }

  lemma {:induction false} SplitAppend(s: seq<bool>, code: seq<bool>, k: nat)
    requires k <= |s|
    ensures (s + code)[..k] == s[..k] && (s + code)[k..] == s[k..] + code
  {
  }

  // ---------------------------------------------------------------- the first point of a page

  /** Little-endian memory order of a big-endian bit string, and back. */
  function LittleEndian(s: seq<bool>): (r: seq<bool>)
    requires |s| % 8 == 0
    ensures |r| == |s|
  {
    BitsOf(Reverse(BytesFrom(s)))
  }

  lemma {:induction false} LittleEndianTwice(s: seq<bool>)
    requires |s| % 8 == 0
    ensures LittleEndian(LittleEndian(s)) == s
  {
    var b := Reverse(BytesFrom(s));
    BytesFromBitsOf(b);
    ReverseTwice(BytesFrom(s));
    BitsOfBytesFrom(s);
  }

  function HeaderCode(offset: int, v: Word): (r: seq<bool>)
    ensures |r| == 96
  {
    LittleEndian(ToBits(offset, 32)) + LittleEndian(v)
  }

  /** The point counter is a 16-bit field. */
  function Bump(count: nat): nat { (count + 1) % 0x1_0000 }

  lemma {:induction false} OffsetBound(a: seq<bool>)
    requires |a| == 32
    ensures Unsigned(LittleEndian(a)) < TWO32
  {
    UnsignedBound(LittleEndian(a));
    Pow2Values();
  }

  datatype Header = Header(offset: nat, v: Word)

  function FieldsOf(a: seq<bool>, b: seq<bool>): (h: Header)
    requires |a| == 32 && |b| == 64
    ensures h.offset < TWO32
  {
    OffsetBound(a);
    Header(Unsigned(LittleEndian(a)), LittleEndian(b))
  }

  /** The 32-bit offset and the 64-bit value at the start of a page. */
  function HeaderFields(s: seq<bool>): (h: Header)
    requires |s| == 96
    ensures h.offset < TWO32
  {
    FieldsOf(s[..32], s[32..])
  }

  lemma {:induction false} HeaderSplits(a: seq<bool>, b: seq<bool>)
    requires |a| == 32 && |b| == 64
    ensures (a + b)[..96] == a + b && (a + b)[96..] == [] && (a + b)[..32] == a && (a + b)[32..] == b
  {
  }

  lemma {:induction false} OffsetReads(n: nat)
    ensures Unsigned(LittleEndian(LittleEndian(ToBits(n, 32)))) == n % TWO32
  {
    LittleEndianTwice(ToBits(n, 32));
    UnsignedLow(n, 32);
    Pow2Values();
  }

  /** The first point is read back, except that its offset is cut to 32 bits. */
  lemma {:induction false} HeaderFieldsRead(offset: U64, v: Word)
    ensures HeaderFields(HeaderCode(offset, v)) == Header(offset % TWO32, v)
  {
    hide LittleEndian, Unsigned, ToBits;
    var a, b := LittleEndian(ToBits(offset, 32)), LittleEndian(v);
    HeaderSplits(a, b);
    OffsetReads(offset);
    LittleEndianTwice(v);
  }

  lemma {:induction false} UnsignedLow(n: nat, w: nat)
    ensures Unsigned(ToBits(n, w)) == n % Pow2(w)
  {
    if w > 0 {
      UnsignedLow(n / 2, w - 1);
      assert ToBits(n, w)[..w - 1] == ToBits(n / 2, w - 1);
      HalvedMod(n, Pow2(w - 1));
    }
  }
}
