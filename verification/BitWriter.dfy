/** Appending codes to a bit set that throws when it is full, as the bit-stream compressors do. */
module BitWriter {
  import opened ByteBits
  import opened Bits
  import opened BitCode
  import opened BitSet
  import opened StreamCode

  /** A number as big-endian bytes, of which the low bits are appended. */
  function Bytes(n: int, w: nat): (r: seq<bv8>)
    requires w % 8 == 0
    ensures 8 * |r| == w
  {
    BytesFrom(ToBits(n, w))
  }

  lemma {:induction false} BytesLow(n: int, w: nat, k: nat)
    requires w % 8 == 0 && k <= w
    ensures BitsOf(Bytes(n, w))[w - k..w] == ToBits(n, k)
  {
    BitsOfBytesFrom(ToBits(n, w));
    LowBits(n, w, k);
    assert ToBits(n, w)[w - k..w] == ToBits(n, w)[w - k..];
  }

  lemma {:induction false} WordBytes(x: Word)
    ensures BitsOf(BytesFrom(x)) == x
  {
    BitsOfBytesFrom(x);
  }

  /** The bits of the one-byte prefixes. */
  lemma Prefixes()
    ensures BitsOf([0x00])[0..1] == [false]
    ensures BitsOf([0x80])[0..1] == [true]
    ensures BitsOf([0x80])[0..2] == [true, false]
    ensures BitsOf([0xC0])[0..3] == [true, true, false]
    ensures BitsOf([0xE0])[0..3] == [true, true, true]
    ensures BitsOf([0xC0])[0..2] == [true, true]
  {
  }

  /** The buffer begins with `c`. */
  ghost predicate Holds(bs: BitSet, c: seq<bool>)
    reads bs, bs.bits
  {
    |c| <= 8 * bs.bits.Length && BitsOf(bs.bits[..])[..|c|] == c
  }

  /** One `append`: `code` are the bits appended, and `base` what must survive a failure. */
  method Put(bs: BitSet, src: seq<bv8>, len: nat, from: nat, ghost base: seq<bool>, ghost code: seq<bool>)
    returns (ok: bool)
    requires bs.Valid() && len > 0 && from + len <= 8 * |src| && code == BitsOf(src)[from..from + len]
    requires base <= bs.Contents()
    modifies bs`cursor, bs`start, bs.bits
    ensures bs.Valid()
    ensures ok <==> |old(bs.Contents())| + |code| <= 8 * bs.bits.Length
    ensures if ok then bs.Contents() == old(bs.Contents()) + code else Holds(bs, base)
  {
    ghost var before := bs.Contents();
    ok := bs.Append(src, len, from);
    if !ok {
      assert BitsOf(bs.bits[..])[..|base|] == before[..|base|];
    }
  }

  /** Two `append`s in a row. */
  method PutTwo(bs: BitSet, src1: seq<bv8>, len1: nat, from1: nat, src2: seq<bv8>, len2: nat, from2: nat,
                ghost base: seq<bool>, ghost code: seq<bool>) returns (ok: bool)
    requires bs.Valid() && len1 > 0 && from1 + len1 <= 8 * |src1| && len2 > 0 && from2 + len2 <= 8 * |src2|
    requires base <= bs.Contents() && code == BitsOf(src1)[from1..from1 + len1] + BitsOf(src2)[from2..from2 + len2]
    modifies bs`cursor, bs`start, bs.bits
    ensures bs.Valid()
    ensures ok <==> |old(bs.Contents())| + |code| <= 8 * bs.bits.Length
    ensures if ok then bs.Contents() == old(bs.Contents()) + code else Holds(bs, base)
  {
    ghost var c1, c2 := BitsOf(src1)[from1..from1 + len1], BitsOf(src2)[from2..from2 + len2];
    ghost var before := bs.Contents();
    ok := Put(bs, src1, len1, from1, base, c1);
    if ok {
      ok := Put(bs, src2, len2, from2, base, c2);
      assert before + c1 + c2 == before + (c1 + c2);
    }
  }

  /** The offset, cut to 32 bits, and the value, both in memory order. */
  method PutHeader(bs: BitSet, offset: nat, v: Word, ghost base: seq<bool>) returns (ok: bool)
    requires bs.Valid() && base <= bs.Contents()
    modifies bs`cursor, bs`start, bs.bits
    ensures bs.Valid()
    ensures ok <==> |old(bs.Contents())| + 96 <= 8 * bs.bits.Length
    ensures if ok then bs.Contents() == old(bs.Contents()) + HeaderCode(offset, v) else Holds(bs, base)
  {
    hide BytesFrom, Reverse, ToBits, BitsOf;
    OffsetBits(offset);
    ok := PutTwo(bs, Reverse(Bytes(offset % TWO32, 32)), 32, 0, Reverse(BytesFrom(v)), 64, 0,
                 base, HeaderCode(offset, v));
  }

  lemma {:induction false} OffsetBits(offset: nat)
    ensures BitsOf(Reverse(Bytes(offset % TWO32, 32))) == LittleEndian(ToBits(offset, 32))
  {
    ToBitsMod(offset, 32);
    Pow2Values();
  }

  lemma {:induction false} ToBitsMod(n: nat, w: nat)
    ensures ToBits(n % Pow2(w), w) == ToBits(n, w)
    decreases w
  {
    if w > 0 {
      HalvedMod(n, Pow2(w - 1));
      ToBitsMod(n / 2, w - 1);
    }
  }
}
