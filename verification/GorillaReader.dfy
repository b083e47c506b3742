/**
 The reads of `Compressor_v2::uncompress`: bits copied into the middle of a byte buffer and repaired
 there with sign and mask constants.
 */
module GorillaReader {
  import opened ByteBits
  import opened BitCode
  import opened BitSet
  import opened BitReader
  import opened StreamCode
  import opened Series
  import opened GorillaCode
  import opened GorillaStream

  // ---------------------------------------------------------------- sign repair

  /** The repair of a 14-bit number in two bytes. */
  function Repair14(b: seq<bv8>): (r: seq<bv8>)
    requires |b| == 2
    ensures |r| == 2
  {
    [if b[0] & 0x20 != 0 then b[0] | 0xC0 else b[0] & 0x1F, b[1]]
  }

  /** The repair of a 33-bit number in eight bytes. */
  function Repair33(b: seq<bv8>): (r: seq<bv8>)
    requires |b| == 8
    ensures |r| == 8
  {
    if b[3] & 0x01 != 0 then [b[0] | 0xFF, b[1] | 0xFF, b[2] | 0xFF, b[3] | 0xFE] + b[4..]
    else [0, 0, 0, 0] + b[4..]
  }

  lemma {:induction false} Repaired14(b: seq<bv8>)
    requires |b| == 2
    ensures SignCopied(Repair14(b), b, 2)
  {
    forall j | 0 <= j < 16 ensures BitAt(Repair14(b), j) == BitAt(b, if j < 2 then 2 else j) {
      RepairByte(b[0], j % 8);
    }
  }

  lemma {:induction false} Repaired33(b: seq<bv8>)
    requires |b| == 8
    ensures SignCopied(Repair33(b), b, 31)
  {
    forall j | 0 <= j < 64 ensures BitAt(Repair33(b), j) == BitAt(b, if j < 31 then 31 else j) {
      RepairByte(b[0], j % 8);
      RepairByte(b[1], j % 8);
      RepairByte(b[2], j % 8);
      RepairByte(b[3], j % 8);
    }
  }

  // ---------------------------------------------------------------- reading numbers

  /** The delta of deltas of `n` bits in a buffer, after the prefix. */
  method GetSigned(bs: BitSet, cur: Cursor, k: nat) returns (ok: bool, cur': Cursor, dod: int)
    requires bs.Valid() && Readable(bs, cur) && k in {14, 17, 33}
    ensures ok ==> Readable(bs, cur') && cur'.Pos() > cur.Pos() && -TWO32 <= dod < TWO32
    ensures var p := ReadSigned(Rest(bs, cur), k);
            p.Parsed? ==> ok && dod == p.value && Rest(bs, cur') == p.rest
  {
    hide BitsOf, Signed;
    var w := if k == 14 then 16 else if k == 17 then 32 else 64;
    var b;
    ok, cur', b := Get(bs, cur, Blank(w / 8), k, w - k);
    var r := b;
    if k == 14 {
      Repaired14(b);
      r := Repair14(b);
    } else if k == 17 {
      Repaired17(b);
      r := Repair17(b);
    } else {
      Repaired33(b);
      r := Repair33(b);
    }
    dod := Signed(BitsOf(r));
    ghost var s := BitsOf(b)[w - k..];
    RepairedValue(r, b, w - k, s);
    Signed33(s);
    assert s == BitsOf(b)[w - k..w];
  }

  /** The rest of a delta of deltas whose first bit was set. */
  method GetDod(bs: BitSet, cur: Cursor) returns (ok: bool, cur': Cursor, dod: int)
    requires bs.Valid() && Readable(bs, cur)
    ensures ok ==> Readable(bs, cur') && cur'.Pos() > cur.Pos() && -TWO32 <= dod < TWO32
    ensures var p := ReadDod([true] + Rest(bs, cur));
            p.Parsed? ==> ok && dod == p.value && Rest(bs, cur') == p.rest
  {
    hide ReadSigned, Rest;
    dod := 0;
    ghost var s := [true] + Rest(bs, cur);
    var bit;
    ok, cur', bit := GetBit(bs, cur);
    if ok {
      assert s[1] == bit;
      if !bit {
        assert s[2..] == Rest(bs, cur');
        ok, cur', dod := GetSigned(bs, cur', 14);
      } else {
        ghost var mid := cur';
        ok, cur', bit := GetBit(bs, cur');
        if ok {
          assert s[2] == bit && s[3..] == Rest(bs, cur');
          ok, cur', dod := GetSigned(bs, cur', if bit then 33 else 17);
        }
      }
    }
  }

  // ---------------------------------------------------------------- reading values

  /** A byte as a number. */
  function ByteValue(b: bv8): nat { Unsigned(ListBits(b)) }

  lemma LowFive(b: bv8)
    ensures ListBits(b & 0x1F) == [false, false, false] + BitsOf([b])[3..8]
  {
  }

  lemma LowSix(b: bv8)
    ensures ListBits(b & 0x3F) == [false, false] + BitsOf([b])[2..8]
  {
  }

  lemma {:induction false} ByteValueLow(b: bv8)
    ensures ByteValue(b & 0x1F) == Unsigned(BitsOf([b])[3..8])
    ensures ByteValue(b & 0x3F) == Unsigned(BitsOf([b])[2..8])
  {
    hide BitsOf, ListBits;
    LowFive(b);
    LowSix(b);
    ZerosInFront(3, BitsOf([b])[3..8]);
    ZerosInFront(2, BitsOf([b])[2..8]);
    assert Repeat(false, 3) == [false, false, false] && Repeat(false, 2) == [false, false];
  }

  /** The table of masks, in memory order: the last `tz` bits are cleared. */
  function TrailingMask(tz: nat): (r: seq<bv8>)
    requires tz < 64
    ensures |r| == 8
  {
    seq(8, i requires 0 <= i < 8 =>
      if 8 * i + 8 <= 64 - tz then 0xFF else if 64 - tz <= 8 * i then 0 else Mask1100(64 - tz - 8 * i))
  }

  function AndBytes(a: seq<bv8>, b: seq<bv8>): (r: seq<bv8>)
    requires |a| == |b|
    ensures |r| == |a|
  {
    seq(|a|, i requires 0 <= i < |a| => a[i] & b[i])
  }

  lemma MaskBit(b: bv8, m: nat, j: nat)
    requires m < 8 && j < 8
    ensures Bit(b & Mask1100(m), j) == (j < m && Bit(b, j))
    ensures Bit(b & 0xFF, j) == Bit(b, j) && !Bit(b & 0, j)
  {
  }

  lemma {:induction false} TrailingCleared(b: seq<bv8>, tz: nat, j: nat)
    requires |b| == 8 && tz < 64 && j < 64
    ensures BitAt(AndBytes(b, TrailingMask(tz)), j) == (j < 64 - tz && BitAt(b, j))
  {
    hide Mask1100;
    ByteCleared(b[j / 8], tz, j / 8, j % 8);
  }

  lemma {:induction false} ByteCleared(b: bv8, tz: nat, i: nat, c: nat)
    requires tz < 64 && i < 8 && c < 8
    ensures Bit(b & TrailingMask(tz)[i], c) == (8 * i + c < 64 - tz && Bit(b, c))
  {
    hide Bit, Mask1100;
    var m: nat := if 0 <= 64 - tz - 8 * i < 8 then 64 - tz - 8 * i else 0;
    MaskBit(b, m, c);
  }

  /** Bits copied to the middle of a cleared word, with the rest masked away. */
  lemma {:induction false} WordRebuilt(b: seq<bv8>, lz: nat, nz: nat)
    requires |b| == 8 && 0 < nz && lz + nz <= 64
    requires BitsOf(b)[..lz] == Repeat(false, lz)
    ensures BitsOf(AndBytes(b, TrailingMask(64 - (nz + lz)))) == Padded(BitsOf(b)[lz..lz + nz], lz)
  {
    var r := AndBytes(b, TrailingMask(64 - (nz + lz)));
    var p := Padded(BitsOf(b)[lz..lz + nz], lz);
    forall j | 0 <= j < 64 ensures BitsOf(r)[j] == p[j] {
      TrailingCleared(b, 64 - (nz + lz), j);
      if j < lz { assert !BitsOf(b)[..lz][j]; }
    }
  }

  lemma {:induction false} BlankBits(n: nat, k: nat)
    requires k <= 8 * n
    ensures BitsOf(Blank(n))[..k] == Repeat(false, k)
  {
    forall j | 0 <= j < k ensures !BitsOf(Blank(n))[j] { RepairByte(0, j % 8); }
  }

  /** The meaningful bits of an XOR, put back in place. */
  method GetWindowed(bs: BitSet, cur: Cursor, lz: nat, nz: nat) returns (ok: bool, cur': Cursor, x: Word)
    requires bs.Valid() && Readable(bs, cur)
    ensures ok ==> Readable(bs, cur') && cur'.Pos() > cur.Pos()
    ensures var p := ReadWindowed(Rest(bs, cur), Seen(lz, nz));
            p.Parsed? ==> ok && p == Parsed(Xor(x, Seen(lz, nz)), Rest(bs, cur'))
  {
    hide BitsOf, Rest, Padded, TrailingMask, AndBytes;
    if nz == 0 || lz + nz > 64 {
      return false, cur, Repeat(false, 64);
    }
    var b;
    ok, cur', b := Get(bs, cur, Blank(8), nz, lz);
    x := BitsOf(AndBytes(b, TrailingMask(64 - (nz + lz))));
    if ok {
      BlankBits(8, lz);
      WordRebuilt(b, lz, nz);
    }
  }

  /** The five and six bits that describe a window; `lz` and `nz` are overwritten. */
  method GetWindow(bs: BitSet, cur: Cursor, lz: nat, nz: nat) returns (ok: bool, cur': Cursor, lz': nat, nz': nat)
    requires bs.Valid() && Readable(bs, cur)
    ensures ok ==> Readable(bs, cur') && cur'.Pos() > cur.Pos()
    ensures var p := Take(Rest(bs, cur), 11);
            p.Parsed? ==> ok && Seen(lz', nz') == ReadSeen(p.value) && Rest(bs, cur') == p.rest
  {
    hide BitsOf, Rest, ByteValue, ToBits, Unsigned;
    lz', nz' := lz, nz;
    ghost var s := Rest(bs, cur);
    var b, c;
    ok, cur', b := Get(bs, cur, [MakeByte(ToBits(lz, 8))], 5, 8 - 5);
    if ok {
      lz' := ByteValue(b[0] & 0x1F);
      ByteValueLow(b[0]);
      ok, cur', c := Get(bs, cur', [MakeByte(ToBits(nz, 8))], 6, 8 - 6);
      if ok {
        nz' := ByteValue(c[0] & 0x3F);
        ByteValueLow(c[0]);
        nz' := if nz' == 0 then 64 else nz';
        assert b == [b[0]] && c == [c[0]];
      }
    }
    if |s| >= 11 { TakeTwice(s, 5, 6); }
  }

  /** The XOR after its first bit was set, and the window it leaves. */
  method GetXor(bs: BitSet, cur: Cursor, lz: nat, nz: nat)
    returns (ok: bool, cur': Cursor, x: Word, lz': nat, nz': nat)
    requires bs.Valid() && Readable(bs, cur)
    ensures ok ==> Readable(bs, cur') && cur'.Pos() > cur.Pos()
    ensures var p := ReadValue([true] + Rest(bs, cur), Seen(lz, nz));
            p.Parsed? ==> ok && p == Parsed(Xor(x, Seen(lz', nz')), Rest(bs, cur'))
  {
    hide Rest, ReadWindowed, ReadSeen, Take;
    lz', nz', x := lz, nz, Repeat(false, 64);
    ghost var s := [true] + Rest(bs, cur);
    var bit;
    ok, cur', bit := GetBit(bs, cur);
    if ok {
      assert s[1] == bit && s[2..] == Rest(bs, cur');
      if bit {
        ok, cur', lz', nz' := GetWindow(bs, cur', lz, nz);
      }
      if ok {
        ok, cur', x := GetWindowed(bs, cur', lz', nz');
      }
    }
  }

  /** What the reader's variables stand for. */
  datatype State = State(t: U64, delta: U64, v: Word, lz: nat, nz: nat) {
    function AsDec(): Dec { Dec(t, delta, v, Seen(lz, nz)) }
  }

  /** One round of the loop after the first bit of the timestamp was read. */
  method GetPoint(bs: BitSet, cur: Cursor, first: bool, d: State) returns (ok: bool, cur': Cursor, d': State)
    requires bs.Valid() && Readable(bs, cur)
    ensures ok ==> Readable(bs, cur') && cur'.Pos() > cur.Pos()
    ensures var p := ReadPoint(d.AsDec(), [first] + Rest(bs, cur));
            p.Parsed? ==> ok && p == Parsed(d'.AsDec(), Rest(bs, cur'))
  {
    hide Rest, ReadWindowed, ReadSeen, ReadSigned, Take;
    ok, cur', d' := true, cur, d;
    ghost var s := [first] + Rest(bs, cur);
    ghost var dod := 0;
    if first {
      var n;
      ok, cur', n := GetDod(bs, cur);
      if !ok { return; }
      dod := n;
      d' := d'.(delta := Wrap(d.delta + n));
    } else {
      assert s[1..] == Rest(bs, cur);
      ReadsZeroDod(s);
    }
    d' := d'.(t := Wrap(d.t + d'.delta));
    ghost var mid := Rest(bs, cur');
    var bit;
    ok, cur', bit := GetBit(bs, cur');
    if ok && bit {
      var x, lz, nz;
      ok, cur', x, lz, nz := GetXor(bs, cur', d.lz, d.nz);
      d' := d'.(v := XorWord(d.v, x), lz := lz, nz := nz);
    } else if ok {
      ReadsZeroXor(mid, d.AsDec().seen, d.v);
    }
  }

  lemma {:induction false} ReadsZeroDod(s: seq<bool>)
    requires s != [] && !s[0]
    ensures ReadDod(s) == Parsed(0, s[1..])
  {
  }

  lemma {:induction false} ReadsZeroXor(s: seq<bool>, seen: Seen, v: Word)
    requires s != [] && !s[0]
    ensures ReadValue(s, seen) == Parsed(Xor(Repeat(false, 64), seen), s[1..])
    ensures XorWord(v, Repeat(false, 64)) == v
  {
  }

  /** `uncompress`: on every stream that can be decoded, the points and the state the model decodes. */
  method Uncompress(bs: BitSet, start: U64) returns (ok: bool, dps: seq<Point>, d: State)
    requires bs.Valid()
    ensures bs.Contents() == [] ==> ok && dps == []
    ensures var goal := Decode(start, bs.Contents());
            goal.Decoded? ==> ok && goal == Decoded(dps, d.AsDec())
  {
    hide Rest, HeaderFields, ReadPoint;
    ghost var goal, s := Decode(start, bs.Contents()), bs.Contents();
    dps := [];
    if bs.Size() == 0 {
      return true, [], State(start, 0, Repeat(false, 64), 0, 0);
    }
    var cur, offset, v;
    ok, cur, offset, v := GetHeader(bs);
    d := State(start, 0, v, 0, 0);
    if !ok { return; }
    d := State(Wrap(start + offset), offset, v, 0, 0);
    dps := [Point(d.t, d.v)];
    while true
      invariant Readable(bs, cur)
      invariant goal.Decoded? ==> Remains(goal, dps, d.AsDec(), Rest(bs, cur))
      decreases 8 * bs.bits.Length - cur.Pos()
    {
      var more, first;
      ghost var rest := Rest(bs, cur);
      more, cur, first := GetBit(bs, cur);
      if !more { return; }
      ghost var before := d.AsDec();
      ok, cur, d := GetPoint(bs, cur, first, d);
      if goal.Decoded? { RemainsStep(goal, dps, before, rest, d.AsDec(), Rest(bs, cur)); }
      if !ok { return; }
      dps := dps + [Point(d.t, d.v)];
    }
  }

  /** `goal` is what was read so far followed by what is still to be read. */
  ghost predicate Remains(goal: Decoded, dps: seq<Point>, d: Dec, rest: seq<bool>)
    requires goal.Decoded?
  {
    var r := DecodeRest(d, rest);
    r.Decoded? && goal == Decoded(dps + r.points, r.last)
  }

  lemma {:induction false} RemainsStep(goal: Decoded, dps: seq<Point>, d: Dec, rest: seq<bool>,
                                       d': Dec, rest': seq<bool>)
    requires goal.Decoded? && Remains(goal, dps, d, rest) && rest != []
    requires ReadPoint(d, rest).Parsed? ==> ReadPoint(d, rest) == Parsed(d', rest')
    ensures ReadPoint(d, rest).Parsed? && Remains(goal, dps + [Point(d'.t, d'.v)], d', rest')
  {
    hide ReadPoint;
    var ps := DecodeRest(d', rest').points;
    assert dps + ([Point(d'.t, d'.v)] + ps) == dps + [Point(d'.t, d'.v)] + ps;
  }
}
