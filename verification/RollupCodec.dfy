/**
 The rollup-entry codec `RollupCompressor_v1` of src/core/compress.cpp: a flag byte that gives the
 width of every field, then the fields, most significant byte first.
 */
module RollupCodec {
  import opened ByteBits
  import opened Bits
  import opened BitCode
  import opened StreamCode
  import opened ByteCode
  import opened FixedPointCode

  type U32 = n: nat | n < TWO32

  /** `struct rollup_entry`, with values over the reals. */
  datatype Entry = Entry(tid: U32, cnt: U32, min: real, max: real, sum: real)

  // ---------------------------------------------------------------- field widths and the flag byte

  /** Bytes of a signed field that may take `a`, `b`, `c` or 8. */
  function Width(n: int, a: nat, b: nat, c: nat): (w: nat)
    requires 0 < a && 0 < b && 0 < c
    ensures w == a || w == b || w == c || w == 8
  {
    if Fits(n, 8 * a) then a else if Fits(n, 8 * b) then b else if Fits(n, 8 * c) then c else 8
  }

  function TidWidth(tid: U32): nat { if tid <= 0xFFFFFF then 3 else 4 }

  function CntWidth(cnt: U32): nat { if cnt <= 0xFFFF then 2 else 4 }

  function MinWidth(n: int): nat { Width(n, 2, 3, 4) }

  function WideWidth(n: int): nat { Width(n, 3, 4, 5) }

  /** The whole numbers stored for the three values. */
  datatype Scaled = Scaled(min: int, max: int, sum: int)

  function ScaledOf(e: Entry, p: Precision): Scaled {
    Scaled(Rounded(Scale(e.min, p)), Rounded(Scale(e.max, p)), Rounded(Scale(e.sum, p)))
  }

  function MinFlag(w: nat): bv8 { if w == 2 then 0x00 else if w == 3 then 0x10 else if w == 4 then 0x20 else 0x30 }

  function MaxFlag(w: nat): bv8 { if w == 3 then 0x00 else if w == 4 then 0x04 else if w == 5 then 0x08 else 0x0C }

  function SumFlag(w: nat): bv8 { if w == 3 then 0x00 else if w == 4 then 0x01 else if w == 5 then 0x02 else 0x03 }

  function KeyFlag(e: Entry): bv8 {
    (if TidWidth(e.tid) == 3 then 0x00 else 0x80) | (if CntWidth(e.cnt) == 2 then 0x00 else 0x40)
  }

  function Flag(e: Entry, n: Scaled): bv8 {
    if e.cnt == 0 then KeyFlag(e)
    else KeyFlag(e) | MinFlag(MinWidth(n.min)) | MaxFlag(WideWidth(n.max)) | SumFlag(WideWidth(n.sum))
  }

  /** The widths a reader takes from the flag byte. */
  datatype Layout = Layout(tid: nat, cnt: nat, min: nat, max: nat, sum: nat)

  function MinBytes(flag: bv8): (w: nat)
    ensures w == 2 || w == 3 || w == 4 || w == 8
  {
    if flag & 0x30 == 0x00 then 2 else if flag & 0x30 == 0x10 then 3 else if flag & 0x30 == 0x20 then 4 else 8
  }

  function MaxBytes(flag: bv8): (w: nat)
    ensures w == 3 || w == 4 || w == 5 || w == 8
  {
    if flag & 0x0C == 0x00 then 3 else if flag & 0x0C == 0x04 then 4 else if flag & 0x0C == 0x08 then 5 else 8
  }

  function SumBytes(flag: bv8): (w: nat)
    ensures w == 3 || w == 4 || w == 5 || w == 8
  {
    if flag & 0x03 == 0x00 then 3 else if flag & 0x03 == 0x01 then 4 else if flag & 0x03 == 0x02 then 5 else 8
  }

  predicate LayoutOk(l: Layout) {
    && (l.tid == 3 || l.tid == 4) && (l.cnt == 2 || l.cnt == 4)
    && (l.min == 2 || l.min == 3 || l.min == 4 || l.min == 8)
    && (l.max == 3 || l.max == 4 || l.max == 5 || l.max == 8)
    && (l.sum == 3 || l.sum == 4 || l.sum == 5 || l.sum == 8)
  }

  function LayoutOf(flag: bv8): (l: Layout)
    ensures LayoutOk(l)
  {
    Layout(if flag & 0x80 != 0 then 4 else 3, if flag & 0x40 != 0 then 4 else 2,
           MinBytes(flag), MaxBytes(flag), SumBytes(flag))
  }

  lemma FlagBits(key: bv8, a: nat, b: nat, c: nat)
    requires key & 0x3F == 0 && (a == 2 || a == 3 || a == 4 || a == 8)
    requires (b == 3 || b == 4 || b == 5 || b == 8) && (c == 3 || c == 4 || c == 5 || c == 8)
    ensures var l := LayoutOf(key | MinFlag(a) | MaxFlag(b) | SumFlag(c));
            l == Layout(LayoutOf(key).tid, LayoutOf(key).cnt, a, b, c)
  {
  }

  lemma KeyBits(e: Entry)
    ensures KeyFlag(e) & 0x3F == 0
    ensures LayoutOf(KeyFlag(e)).tid == TidWidth(e.tid) && LayoutOf(KeyFlag(e)).cnt == CntWidth(e.cnt)
  {
  }

  /** The flag byte describes the layout that the writer chose. */
  lemma {:induction false} FlagReads(e: Entry, n: Scaled)
    ensures var l := LayoutOf(Flag(e, n));
            && l.tid == TidWidth(e.tid) && l.cnt == CntWidth(e.cnt)
            && (e.cnt != 0 ==> l == Layout(l.tid, l.cnt, MinWidth(n.min), WideWidth(n.max), WideWidth(n.sum)))
  {
    hide LayoutOf, KeyFlag, Fits, MinFlag, MaxFlag, SumFlag;
    KeyBits(e);
    FlagBits(KeyFlag(e), MinWidth(n.min), WideWidth(n.max), WideWidth(n.sum));
  }

  // ---------------------------------------------------------------- fields

  /** `n` in `w` bytes. */
  function Big(n: int, w: nat): (r: seq<bv8>)
    ensures |r| == w
  {
    BytesFrom(ToBits(n, 8 * w))
  }

  function ReadSigned(s: seq<bv8>, w: nat): (r: Got<int>)
    requires w > 0
    ensures r.Got? <==> |s| >= w
    ensures r.Got? ==> r.rest == s[w..]
  {
    if |s| < w then Short else Got(Signed(BitsOf(s[..w])), s[w..])
  }

  function ReadUnsigned(s: seq<bv8>, w: nat): (r: Got<U32>)
    requires 0 < w <= 4
    ensures r.Got? <==> |s| >= w
    ensures r.Got? ==> r.rest == s[w..]
  {
    if |s| < w then Short else UnsignedSmall(s[..w]); Got(Unsigned(BitsOf(s[..w])), s[w..])
  }

  lemma {:induction false} UnsignedSmall(b: seq<bv8>)
    requires |b| <= 4
    ensures Unsigned(BitsOf(b)) < TWO32
  {
    hide BitsOf, Unsigned;
    UnsignedBound(BitsOf(b));
    Pow2Mono(8 * |b|, 32);
    Pow2Values();
  }

  lemma {:induction false} FrontCut(b: seq<bv8>, rest: seq<bv8>)
    ensures (b + rest)[..|b|] == b && (b + rest)[|b|..] == rest
  {
  }

  lemma {:induction false} SignedFieldReads(n: int, w: nat, rest: seq<bv8>)
    requires w > 0 && Fits(n, 8 * w)
    ensures ReadSigned(Big(n, w) + rest, w) == Got(n, rest)
  {
    hide BytesFrom, ToBits, BitsOf, Signed, Fits;
    FrontCut(Big(n, w), rest);
    BitsOfBytesFrom(ToBits(n, 8 * w));
    SignedRoundTrip(n, 8 * w);
  }

  lemma {:induction false} UnsignedFieldReads(n: nat, w: nat, rest: seq<bv8>)
    requires 0 < w <= 4 && n < Pow2(8 * w)
    ensures ReadUnsigned(Big(n, w) + rest, w) == Got(n, rest)
  {
    hide BytesFrom, ToBits, BitsOf, Unsigned, Pow2;
    FrontCut(Big(n, w), rest);
    BitsOfBytesFrom(ToBits(n, 8 * w));
    UnsignedRoundTrip(n, 8 * w);
  }

  // ---------------------------------------------------------------- entries

  function Keys(e: Entry): seq<bv8> { Big(e.tid, TidWidth(e.tid)) + Big(e.cnt, CntWidth(e.cnt)) }

  function Values(n: Scaled): seq<bv8> {
    Big(n.min, MinWidth(n.min)) + (Big(n.max, WideWidth(n.max)) + Big(n.sum, WideWidth(n.sum)))
  }

  /** What `compress` writes. */
  function Encode(e: Entry, p: Precision): (r: seq<bv8>)
    ensures |r| >= 1
  {
    var n := ScaledOf(e, p);
    [Flag(e, n)] + (Keys(e) + if e.cnt == 0 then [] else Values(n))
  }

  /** The fields that are known after reading: those of an empty entry are only its keys. */
  function Known(e: Entry): Entry {
    if e.cnt == 0 then e.(min := 0.0, max := 0.0, sum := 0.0) else e
  }

  function ParseValues(e: Entry, l: Layout, s: seq<bv8>, p: Precision): (r: Got<Entry>)
    requires l.min > 0 && l.max > 0 && l.sum > 0
    ensures r.Got? <==> |s| >= l.min + l.max + l.sum
    ensures r.Got? ==> r.rest == s[l.min + l.max + l.sum..]
  {
    match ReadSigned(s, l.min)
    case Short => Short
    case Got(min, r1) =>
      match ReadSigned(r1, l.max)
      case Short => Short
      case Got(max, r2) =>
        match ReadSigned(r2, l.sum)
        case Short => Short
        case Got(sum, r3) =>
          Got(e.(min := Over(min as real, p), max := Over(max as real, p), sum := Over(sum as real, p)), r3)
  }

  /** What `uncompress` should read from the front of a byte string. */
  function Parse(s: seq<bv8>, p: Precision): (r: Got<Entry>)
    ensures r.Got? ==> |r.rest| < |s|
  {
    if s == [] then Short
    else
      var l := LayoutOf(s[0]);
      match ReadUnsigned(s[1..], l.tid)
      case Short => Short
      case Got(tid, r1) =>
        match ReadUnsigned(r1, l.cnt)
        case Short => Short
        case Got(cnt, r2) =>
          var e := Entry(tid, cnt, 0.0, 0.0, 0.0);
          if cnt == 0 then Got(e, r2) else ParseValues(e, l, r2, p)
  }

  /** The entry that is read back: values rounded to the precision. */
  function Quantised(e: Entry, p: Precision): Entry {
    if e.cnt == 0 then Known(e)
    else
      var n := ScaledOf(e, p);
      e.(min := Over(n.min as real, p), max := Over(n.max as real, p), sum := Over(n.sum as real, p))
  }

  /** What a caller can check: the scaled values are 64-bit numbers. */
  predicate Storable(e: Entry, p: Precision) {
    var n := ScaledOf(e, p);
    e.cnt != 0 ==> Fits(n.min, 64) && Fits(n.max, 64) && Fits(n.sum, 64)
  }

  lemma {:induction false} KeyPowers()
    ensures Pow2(16) == 0x1_0000 && Pow2(24) == 0x100_0000 && Pow2(32) == TWO32
  {
    Pow2Values();
    Pow2Add(16, 8);
    assert Pow2(8) == 256;
  }

  lemma {:induction false} ValuesRead(e: Entry, n: Scaled, l: Layout, rest: seq<bv8>, p: Precision)
    requires Fits(n.min, 64) && Fits(n.max, 64) && Fits(n.sum, 64)
    requires l.min == MinWidth(n.min) && l.max == WideWidth(n.max) && l.sum == WideWidth(n.sum)
    ensures ParseValues(e, l, Values(n) + rest, p) ==
            Got(e.(min := Over(n.min as real, p), max := Over(n.max as real, p), sum := Over(n.sum as real, p)), rest)
  {
    hide Big, Fits, ReadSigned, Over;
    var a, b, c := Big(n.min, l.min), Big(n.max, l.max), Big(n.sum, l.sum);
    assert a + (b + c) + rest == a + (b + (c + rest));
    SignedFieldReads(n.min, l.min, b + (c + rest));
    SignedFieldReads(n.max, l.max, c + rest);
    SignedFieldReads(n.sum, l.sum, rest);
  }

  /** Parsing an encoding, whatever follows it, consumes exactly that encoding. */
  lemma {:induction false} EncodeParses(e: Entry, rest: seq<bv8>, p: Precision)
    requires Storable(e, p)
    ensures Parse(Encode(e, p) + rest, p) == Got(Quantised(e, p), rest)
  {
    hide Big, Flag, LayoutOf, ParseValues, Values, ReadUnsigned, ScaledOf, Fits, Pow2;
    var n := ScaledOf(e, p);
    var tail := if e.cnt == 0 then [] else Values(n);
    var s := Encode(e, p) + rest;
    var a, b := Big(e.tid, TidWidth(e.tid)), Big(e.cnt, CntWidth(e.cnt));
    FlagReads(e, n);
    assert s[1..] == a + (b + (tail + rest));
    KeyPowers();
    UnsignedFieldReads(e.tid, TidWidth(e.tid), b + (tail + rest));
    UnsignedFieldReads(e.cnt, CntWidth(e.cnt), tail + rest);
    if e.cnt == 0 {
      assert tail + rest == rest;
    } else {
      ValuesRead(Entry(e.tid, e.cnt, 0.0, 0.0, 0.0), n, LayoutOf(s[0]), rest, p);
    }
  }

  /** Every value is stored within half a unit of precision. */
  lemma {:induction false} QuantisedNear(e: Entry, p: Precision)
    requires e.cnt != 0
    ensures var q := Quantised(e, p);
            && q.tid == e.tid && q.cnt == e.cnt
            && Near(q.min, e.min, Over(0.5, p)) && Near(q.max, e.max, Over(0.5, p)) && Near(q.sum, e.sum, Over(0.5, p))
  {
    hide Rounded, Scale, Over, Near;
    RoundedWithinHalf(e.min, p);
    RoundedWithinHalf(e.max, p);
    RoundedWithinHalf(e.sum, p);
  }

  lemma {:induction false} RoundedWithinHalf(v: real, p: Precision)
    ensures Near(Over(Rounded(Scale(v, p)) as real, p), v, Over(0.5, p))
  {
    hide Rounded, Scale, Over;
    var x := Rounded(Scale(v, p)) as real;
    RoundedNear(Scale(v, p));
    OverScale(v, p);
    OverDiff(x, Scale(v, p), p);
    OverMono(x - Scale(v, p), 0.5, p);
    OverMono(-0.5, x - Scale(v, p), p);
    OverDiff(0.0, 0.5, p);
    OverDiff(0.5, 0.5, p);
  }

  // ---------------------------------------------------------------- lengths

  /** The bytes of the least value: 2, 3 or 4 if it fits, else 8. */
  function LeastLength(n: int): nat {
    if -32768 <= n <= 32767 then 2
    else if -8388608 <= n <= 8388607 then 3
    else if -2147483648 <= n <= 2147483647 then 4
    else 8
  }

  /** The bytes of the greatest value and of the sum: 3, 4 or 5 if it fits, else 8. */
  function WideLength(n: int): nat {
    if -8388608 <= n <= 8388607 then 3
    else if -2147483648 <= n <= 2147483647 then 4
    else if -549755813888 <= n <= 549755813887 then 5
    else 8
  }

  lemma {:induction false} FieldPowers()
    ensures Pow2(15) == 32768 && Pow2(23) == 8388608 && Pow2(31) == 2147483648 && Pow2(39) == 549755813888
  {
    hide Pow2;
    assert Pow2(7) == 128 && Pow2(8) == 256 by { SmallPowers(); }
    Pow2Add(8, 7);
    Pow2Add(8, 15);
    Pow2Add(8, 23);
    Pow2Add(8, 31);
  }

  lemma {:induction false} SmallPowers()
    ensures Pow2(7) == 128 && Pow2(8) == 256
  {
  }

  lemma {:induction false} LeastIs(n: int)
    ensures MinWidth(n) == LeastLength(n)
  {
    hide Pow2;
    FieldPowers();
  }

  lemma {:induction false} WideIs(n: int)
    ensures WideWidth(n) == WideLength(n)
  {
    hide Pow2;
    FieldPowers();
  }

  /** Every field takes as few of its bytes as hold it, and an empty entry has no values. */
  lemma {:induction false} EncodeLength(e: Entry, p: Precision)
    ensures var n := ScaledOf(e, p);
            |Encode(e, p)| == 1 + (if e.tid < 16777216 then 3 else 4) + (if e.cnt < 65536 then 2 else 4)
                              + if e.cnt == 0 then 0 else LeastLength(n.min) + WideLength(n.max) + WideLength(n.sum)
  {
    hide Big, Flag, ScaledOf, Fits, MinWidth, WideWidth, LeastLength, WideLength;
    var n := ScaledOf(e, p);
    LeastIs(n.min);
    WideIs(n.max);
    WideIs(n.sum);
  }

  // ---------------------------------------------------------------- truncated input

  lemma {:induction false} ReadsStable(s: seq<bv8>, more: seq<bv8>, w: nat)
    requires 0 < w <= |s|
    ensures ReadSigned(s + more, w) == Got(ReadSigned(s, w).value, ReadSigned(s, w).rest + more)
    ensures w <= 4 ==> ReadUnsigned(s + more, w) == Got(ReadUnsigned(s, w).value, ReadUnsigned(s, w).rest + more)
  {
    hide BitsOf, Signed, Unsigned;
    assert (s + more)[..w] == s[..w] && (s + more)[w..] == s[w..] + more;
  }

  lemma {:induction false} ParseValuesStable(e: Entry, l: Layout, s: seq<bv8>, more: seq<bv8>, p: Precision)
    requires l.min > 0 && l.max > 0 && l.sum > 0 && ParseValues(e, l, s, p).Got?
    ensures ParseValues(e, l, s + more, p) == Got(ParseValues(e, l, s, p).value, ParseValues(e, l, s, p).rest + more)
  {
    hide ReadSigned, Over;
    ReadsStable(s, more, l.min);
    ReadsStable(ReadSigned(s, l.min).rest, more, l.max);
    ReadsStable(ReadSigned(ReadSigned(s, l.min).rest, l.max).rest, more, l.sum);
  }

  lemma {:induction false} ParseStable(s: seq<bv8>, more: seq<bv8>, p: Precision)
    requires Parse(s, p).Got?
    ensures Parse(s + more, p) == Got(Parse(s, p).value, Parse(s, p).rest + more)
  {
    hide LayoutOf, ReadUnsigned, ParseValues;
    var l := LayoutOf(s[0]);
    assert (s + more)[1..] == s[1..] + more && (s + more)[0] == s[0];
    ReadsStable(s[1..], more, l.tid);
    var r1 := ReadUnsigned(s[1..], l.tid).rest;
    ReadsStable(r1, more, l.cnt);
    var r2 := ReadUnsigned(r1, l.cnt);
    if r2.value != 0 {
      ParseValuesStable(Entry(ReadUnsigned(s[1..], l.tid).value, r2.value, 0.0, 0.0, 0.0), l, r2.rest, more, p);
    }
  }

  /** No proper beginning of an encoding parses. */
  lemma {:induction false} TruncatedIsShort(e: Entry, p: Precision, k: nat)
    requires Storable(e, p) && k < |Encode(e, p)|
    ensures Parse(Encode(e, p)[..k], p).Short?
  {
    hide Parse, Encode, Storable;
    var s := Encode(e, p);
    assert s[..k] + s[k..] == s && s + [] == s;
    EncodeParses(e, [], p);
    if Parse(s[..k], p).Got? {
      ParseStable(s[..k], s[k..], p);
    }
  }

  /**
   Given the first `k` bytes of an encoding followed by anything, the entry is read back exactly when the
   encoding is complete.
   */
  lemma {:induction false} SelfDelimiting(e: Entry, p: Precision, k: nat, rest: seq<bv8>)
    requires Storable(e, p) && k <= |Encode(e, p)|
    requires k < |Encode(e, p)| ==> rest == []
    ensures Parse(Encode(e, p)[..k] + rest, p)
              == if k == |Encode(e, p)| then Got(Quantised(e, p), rest) else Short
  {
    hide Parse, Encode, Storable, Quantised;
    var s := Encode(e, p);
    if k == |s| {
      assert s[..k] == s;
      EncodeParses(e, rest, p);
    } else {
      assert s[..k] + rest == s[..k];
      TruncatedIsShort(e, p, k);
    }
  }

  // ---------------------------------------------------------------- lists of entries

  function EncodeAll(es: seq<Entry>, p: Precision): seq<bv8> {
    if es == [] then [] else Encode(es[0], p) + EncodeAll(es[1..], p)
  }

  /** The entries of a file, up to a truncated one. */
  function ParseAll(s: seq<bv8>, p: Precision): seq<Entry>
    decreases |s|
  {
    match Parse(s, p)
    case Short => []
    case Got(e, rest) => [e] + ParseAll(rest, p)
  }

  function QuantisedAll(es: seq<Entry>, p: Precision): (r: seq<Entry>)
    ensures |r| == |es|
  {
    if es == [] then [] else [Quantised(es[0], p)] + QuantisedAll(es[1..], p)
  }

  lemma {:induction false} ListParses(es: seq<Entry>, p: Precision, tail: seq<bv8>)
    requires (forall i | 0 <= i < |es| :: Storable(es[i], p)) && Parse(tail, p).Short?
    ensures ParseAll(EncodeAll(es, p) + tail, p) == QuantisedAll(es, p)
    decreases |es|
  {
    hide Parse, Encode, Storable, Quantised;
    if es == [] {
      assert EncodeAll(es, p) + tail == tail;
    } else {
      var rest := EncodeAll(es[1..], p) + tail;
      assert EncodeAll(es, p) + tail == Encode(es[0], p) + rest;
      EncodeParses(es[0], rest, p);
      ListParses(es[1..], p, tail);
    }
  }

  /** A file of entries, the last of them possibly cut off, parses to the entries that are complete. */
  lemma {:induction false} FileParses(es: seq<Entry>, last: Entry, k: nat, p: Precision)
    requires forall i | 0 <= i < |es| :: Storable(es[i], p)
    requires Storable(last, p) && k < |Encode(last, p)|
    ensures ParseAll(EncodeAll(es, p) + Encode(last, p)[..k], p) == QuantisedAll(es, p)
  {
    hide Parse, Encode, Storable, Quantised, EncodeAll, ParseAll;
    TruncatedIsShort(last, p, k);
    ListParses(es, p, Encode(last, p)[..k]);
  }
}
