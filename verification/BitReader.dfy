/**
 Reading back what was appended to a bit set: bits are copied into the middle of a byte buffer, and
 numbers are repaired there with sign constants.
 */
module BitReader {
  import opened ByteBits
  import opened BitCode
  import opened BitSet
  import opened StreamCode

  // ---------------------------------------------------------------- sign repair

  /** Bits before `at` copy the sign bit at `at`, the others are those of `b`. */
  ghost predicate SignCopied(r: seq<bv8>, b: seq<bv8>, at: nat)
    requires at < 8 * |b| && |r| == |b|
  {
    forall j | 0 <= j < 8 * |b| :: BitAt(r, j) == BitAt(b, if j < at then at else j)
  }

  lemma RepairByte(b: bv8, j: nat)
    requires j < 8
    ensures b & 0x20 != 0 ==> Bit(b | 0xC0, j) == Bit(b, if j < 2 then 2 else j)
    ensures b & 0x20 == 0 ==> Bit(b & 0x1F, j) == Bit(b, if j < 2 then 2 else j)
    ensures b & 0x01 != 0 ==> Bit(b | 0xFE, j)
    ensures Bit(b | 0xFF, j) && !Bit(0, j)
  {
  }

  /** The repair of a 17-bit number in four bytes. */
  function Repair17(b: seq<bv8>): (r: seq<bv8>)
    requires |b| == 4
    ensures |r| == 4
  {
    if b[1] & 0x01 != 0 then [b[0] | 0xFF, b[1] | 0xFE, b[2], b[3]] else [0, 0, b[2], b[3]]
  }

  lemma {:induction false} Repaired17(b: seq<bv8>)
    requires |b| == 4
    ensures SignCopied(Repair17(b), b, 15)
  {
    forall j | 0 <= j < 32 ensures BitAt(Repair17(b), j) == BitAt(b, if j < 15 then 15 else j) {
      RepairByte(b[0], j % 8);
      RepairByte(b[1], j % 8);
    }
  }

  /** A repaired buffer has the value of the bits that were copied into it. */
  lemma {:induction false} RepairedValue(r: seq<bv8>, b: seq<bv8>, at: nat, s: seq<bool>)
    requires at < 8 * |b| && |r| == |b| && SignCopied(r, b, at)
    requires |s| == 8 * |b| - at && BitsOf(b)[at..] == s
    ensures Signed(BitsOf(r)) == Signed(s)
  {
    assert BitsOf(r) == Repeat(s[0], at) + s by {
      assert s[0] == BitsOf(b)[at];
      forall j | 0 <= j < 8 * |b| ensures BitsOf(r)[j] == (Repeat(s[0], at) + s)[j] {
        if j >= at { assert s[j - at] == BitsOf(b)[j]; }
      }
    }
    SignExtend(s, at);
  }

  // ---------------------------------------------------------------- reading bits

  /** What is left to read. */
  ghost function Rest(bs: BitSet, cur: Cursor): (r: seq<bool>)
    requires bs.Valid()
    reads bs, bs.bits
  {
    if cur.Pos() <= bs.Size() then bs.Contents()[cur.Pos()..] else []
  }

  predicate Readable(bs: BitSet, cur: Cursor)
    reads bs
  {
    cur.Valid() && cur.Pos() <= 8 * bs.bits.Length
  }

  /** A stretch of the contents and what is left after it. */
  lemma {:induction false} RestSplits(bs: BitSet, cur: Cursor, cur': Cursor, len: nat)
    requires bs.Valid() && cur'.Pos() == cur.Pos() + len && |Rest(bs, cur)| >= len > 0
    ensures cur.Pos() < bs.Size() && cur.Pos() + len <= 8 * bs.bits.Length
    ensures Take(Rest(bs, cur), len) == Parsed(BitsOf(bs.bits[..])[cur.Pos()..cur.Pos() + len], Rest(bs, cur'))
  {
    hide BitsOf;
    var all, pos, size := BitsOf(bs.bits[..]), cur.Pos(), bs.Size();
    assert all[..size][pos..][..len] == all[pos..pos + len];
    assert all[..size][pos..][len..] == all[..size][pos + len..];
  }

  /** Copies `len` bits into a buffer of zeros: the model's `Take`, followed by bits that do not matter. */
  method Get(bs: BitSet, cur: Cursor, dest: seq<bv8>, len: nat, at: nat)
    returns (ok: bool, cur': Cursor, dest': seq<bv8>)
    requires bs.Valid() && Readable(bs, cur) && len > 0 && at + len <= 8 * |dest|
    ensures |dest'| == |dest| && (ok ==> Readable(bs, cur') && cur'.Pos() > cur.Pos())
    ensures !ok ==> Take(Rest(bs, cur), len).Cut?
    ensures ok && !Take(Rest(bs, cur), len).Cut? ==>
              Take(Rest(bs, cur), len) == Parsed(BitsOf(dest')[at..at + len], Rest(bs, cur'))
    ensures ok ==> BitsOf(dest')[..at] == BitsOf(dest)[..at]
  {
    hide BitsOf;
    ok, cur', dest' := bs.Retrieve(cur, dest, len, at);
    ghost var all, pos := BitsOf(bs.bits[..]), cur.Pos();
    if |Rest(bs, cur)| >= len {
      assert pos + len <= bs.Size();
    }
    if ok {
      CopiedParts(BitsOf(dest'), BitsOf(dest)[..at], all[pos..pos + len]);
      if |Rest(bs, cur)| >= len {
        RestSplits(bs, cur, cur', len);
      }
    }
  }

  lemma {:induction false} CopiedParts(d: seq<bool>, before: seq<bool>, copied: seq<bool>)
    requires |before| + |copied| <= |d| && d[..|before| + |copied|] == before + copied
    ensures d[..|before|] == before && d[|before|..|before| + |copied|] == copied
  {
    assert d[..|before|] == d[..|before| + |copied|][..|before|];
    assert d[|before|..|before| + |copied|] == d[..|before| + |copied|][|before|..];
  }

  /** Reads one bit; the stream ends exactly when there is none. */
  method GetBit(bs: BitSet, cur: Cursor) returns (ok: bool, cur': Cursor, bit: bool)
    requires bs.Valid() && Readable(bs, cur)
    ensures ok <==> Rest(bs, cur) != []
    ensures ok ==> Readable(bs, cur') && cur'.Pos() > cur.Pos()
    ensures ok ==> Rest(bs, cur) == [bit] + Rest(bs, cur')
  {
    var byte;
    ok, cur', byte := bs.Retrieve(cur, [0], 1, 0);
    bit := byte[0] & 0x80 != 0;
    if ok {
      assert bit == BitsOf(byte)[..1][0];
      RestSplits(bs, cur, cur', 1);
    }
  }

  lemma {:induction false} TakeTwice(s: seq<bool>, a: nat, b: nat)
    requires a + b <= |s|
    ensures Take(s, a).Parsed? && Take(Take(s, a).rest, b).Parsed?
    ensures Take(s, a + b) == Parsed(s[..a + b], Take(Take(s, a).rest, b).rest)
    ensures s[..a + b][..a] == Take(s, a).value && s[..a + b][a..] == Take(Take(s, a).rest, b).value
  {
  }

  // ---------------------------------------------------------------- the header

  /** The 32-bit offset and the first value, stored in memory order. */
  method GetHeader(bs: BitSet) returns (ok: bool, cur: Cursor, offset: nat, v: Word)
    requires bs.Valid()
    ensures ok ==> Readable(bs, cur) && offset < TWO32
    ensures |bs.Contents()| >= 96 ==>
              && ok && Header(offset, v) == HeaderFields(bs.Contents()[..96])
              && Rest(bs, cur) == bs.Contents()[96..]
  {
    hide BitsOf, Rest, Reverse, Unsigned, HeaderFields;
    var b, c;
    offset, v := 0, Repeat(false, 64);
    RestAtStart(bs);
    ghost var s := bs.Contents();
    ok, cur, b := Get(bs, Cursor(0, 0), Blank(4), 32, 0);
    if ok {
      ok, cur, c := Get(bs, cur, Blank(8), 64, 0);
      if ok {
        FourBytes(b);
        offset, v := Unsigned(BitsOf(Reverse(b))), BitsOf(Reverse(c));
      }
    }
    if |s| >= 96 {
      TakeTwice(s, 32, 64);
      assert s[..96][..32] == BitsOf(b)[0..32] == BitsOf(b);
      assert s[..96][32..] == BitsOf(c)[0..64] == BitsOf(c);
      HeaderBytes(s[..96], b, c);
    }
  }

  lemma {:induction false} RestAtStart(bs: BitSet)
    requires bs.Valid()
    ensures Rest(bs, Cursor(0, 0)) == bs.Contents()
  {
    hide BitsOf;
    assert bs.Contents()[0..] == bs.Contents();
  }

  /** The header's fields from the bytes it was copied to. */
  lemma {:induction false} HeaderBytes(s: seq<bool>, b: seq<bv8>, c: seq<bv8>)
    requires |s| == 96 && |b| == 4 && |c| == 8 && s[..32] == BitsOf(b) && s[32..] == BitsOf(c)
    ensures HeaderFields(s) == Header(Unsigned(BitsOf(Reverse(b))), BitsOf(Reverse(c)))
  {
    hide BitsOf, Reverse, BytesFrom, Unsigned, LittleEndian;
    InMemoryOrder(b);
    InMemoryOrder(c);
  }

  lemma {:induction false} FourBytes(b: seq<bv8>)
    requires |b| == 4
    ensures Unsigned(BitsOf(Reverse(b))) < TWO32
  {
    hide BitsOf, Reverse;
    InMemoryOrder(b);
    OffsetBound(BitsOf(b));
  }

  lemma {:induction false} InMemoryOrder(b: seq<bv8>)
    ensures LittleEndian(BitsOf(b)) == BitsOf(Reverse(b))
  {
    BytesFromBitsOf(b);
  }
}
