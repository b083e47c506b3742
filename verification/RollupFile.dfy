/**
 `RollupCompressor_v1` in its own form, writing into and reading from a byte buffer, and the cursor of
 `RollupDataFile` in src/core/mmap.cpp that reads a file through a buffer it refills.
 */
module RollupFile {
  import opened Arith
  import opened ByteBits
  import opened Bits
  import opened BitCode
  import opened ByteCode
  import opened FixedPointCode
  import opened RollupCodec

  // ---------------------------------------------------------------- writing

  /** Writes `n` in `w` bytes at `idx`. */
  method PutField(buff: array<bv8>, idx: nat, n: int, w: nat) returns (idx': nat)
    requires 1 <= idx && idx + w <= buff.Length
    modifies buff
    ensures idx' == idx + w && buff[0] == old(buff[0])
    ensures buff[1..idx'] == old(buff[1..idx]) + Big(n, w)
  {
    hide Big;
    var b := Big(n, w);
    forall i | 0 <= i < w { buff[idx + i] := b[i]; }
    assert buff[1..idx + w] == buff[1..idx] + buff[idx..idx + w];
    idx' := idx + w;
  }

  /** `compress`: the encoding, and its length. */
  method Compress(buff: array<bv8>, e: Entry, p: Precision) returns (idx: nat)
    requires buff.Length >= 33
    modifies buff
    ensures idx <= buff.Length && buff[..idx] == Encode(e, p)
  {
    hide Big, ScaledOf, Width, MinFlag, MaxFlag, SumFlag;
    idx := PutKeys(buff, e);
    ghost var n := ScaledOf(e, p);
    if e.cnt == 0 {
      assert Keys(e) + [] == Keys(e);
    } else {
      idx := PutValues(buff, idx, e, p);
    }
    assert buff[..idx] == [buff[0]] + buff[1..idx];
  }

  method PutKeys(buff: array<bv8>, e: Entry) returns (idx: nat)
    requires buff.Length >= 33
    modifies buff
    ensures 1 <= idx <= 9 && buff[0] == KeyFlag(e) && buff[1..idx] == Keys(e)
  {
    hide Big;
    if e.tid <= 0xFFFFFF {
      buff[0] := 0x00;
      idx := PutField(buff, 1, e.tid, 3);
    } else {
      buff[0] := 0x80;
      idx := PutField(buff, 1, e.tid, 4);
    }
    if e.cnt <= 0xFFFF {
      idx := PutField(buff, idx, e.cnt, 2);
    } else {
      buff[0] := buff[0] | 0x40;
      idx := PutField(buff, idx, e.cnt, 4);
    }
  }

  /** The width of a signed field, found by comparing with the bounds of each width. */
  method ChooseMin(n: int) returns (w: nat, flag: bv8)
    ensures w == MinWidth(n) && flag == MinFlag(w) && w <= 8
  {
    SignedPowers();
    if -32768 <= n <= 32767 {
      w, flag := 2, 0x00;
    } else if -8388608 <= n <= 8388607 {
      w, flag := 3, 0x10;
    } else if -2147483648 <= n <= 2147483647 {
      w, flag := 4, 0x20;
    } else {
      w, flag := 8, 0x30;
    }
  }

  method ChooseWide(n: int) returns (w: nat, maxFlag: bv8, sumFlag: bv8)
    ensures w == WideWidth(n) && maxFlag == MaxFlag(w) && sumFlag == SumFlag(w) && w <= 8
  {
    SignedPowers();
    if -8388608 <= n <= 8388607 {
      w, maxFlag, sumFlag := 3, 0x00, 0x00;
    } else if -2147483648 <= n <= 2147483647 {
      w, maxFlag, sumFlag := 4, 0x04, 0x01;
    } else if -549755813888 <= n <= 549755813887 {
      w, maxFlag, sumFlag := 5, 0x08, 0x02;
    } else {
      w, maxFlag, sumFlag := 8, 0x0C, 0x03;
    }
  }

  lemma {:induction false} SignedPowers()
    ensures Pow2(15) == 32768 && Pow2(23) == 8388608 && Pow2(31) == 2147483648 && Pow2(39) == 549755813888
  {
    Powers();
    Pow2Add(15, 8);
    Pow2Add(31, 8);
    assert Pow2(8) == 256;
  }

  method PutValues(buff: array<bv8>, start: nat, e: Entry, p: Precision) returns (idx: nat)
    requires buff.Length >= 33 && 1 <= start <= 9 && e.cnt != 0 && buff[0] == KeyFlag(e)
    modifies buff
    ensures start <= idx <= buff.Length
    ensures buff[0] == Flag(e, ScaledOf(e, p))
    ensures buff[1..idx] == old(buff[1..start]) + Values(ScaledOf(e, p))
  {
    hide Big, Width, MinFlag, MaxFlag, SumFlag, KeyFlag;
    var n := ScaledOf(e, p);
    ghost var keys := buff[1..start];
    var w, flag, other;
    w, flag := ChooseMin(n.min);
    buff[0] := buff[0] | flag;
    idx := PutField(buff, start, n.min, w);
    ghost var a := Big(n.min, w);
    w, flag, other := ChooseWide(n.max);
    buff[0] := buff[0] | flag;
    idx := PutField(buff, idx, n.max, w);
    ghost var b := Big(n.max, w);
    w, other, flag := ChooseWide(n.sum);
    buff[0] := buff[0] | flag;
    idx := PutField(buff, idx, n.sum, w);
    ghost var c := Big(n.sum, w);
    assert keys + a + b + c == keys + (a + (b + c));
  }

  // ---------------------------------------------------------------- reading

  /** `k` bytes that are all sign or all zero. */
  function Fill(k: nat, ones: bool): (r: seq<bv8>)
    ensures |r| == k && forall i | 0 <= i < k :: r[i] == if ones then 0xFF else 0
  {
    if k == 0 then [] else [if ones then 0xFF else 0] + Fill(k - 1, ones)
  }

  lemma FillBit(ones: bool, j: nat)
    requires j < 8
    ensures Bit(if ones then 0xFF else 0, j) == ones
  {
  }

  lemma {:induction false} FilledBits(k: nat, ones: bool, b: seq<bv8>)
    ensures BitsOf(Fill(k, ones) + b) == Repeat(ones, 8 * k) + BitsOf(b)
  {
    hide Fill;
    var all := Fill(k, ones) + b;
    forall j | 0 <= j < 8 * (k + |b|) ensures BitsOf(all)[j] == (Repeat(ones, 8 * k) + BitsOf(b))[j] {
      hide Bit;
      FilledBit(k, ones, b, j);
    }
  }

  lemma {:induction false} FilledBit(k: nat, ones: bool, b: seq<bv8>, j: nat)
    requires j < 8 * (k + |b|)
    ensures BitAt(Fill(k, ones) + b, j) == if j < 8 * k then ones else BitAt(b, j - 8 * k)
  {
    hide Fill, Bit;
    if j < 8 * k {
      FillBit(ones, j % 8);
    } else {
      assert (j - 8 * k) / 8 == j / 8 - k && (j - 8 * k) % 8 == j % 8;
    }
  }

  /** A number of fewer bytes, read in a wider integer whose upper bytes are filled with its sign. */
  function Widened(b: seq<bv8>, k: nat): int
    requires b != []
  {
    Signed(BitsOf(Fill(k, b[0] & 0x80 != 0) + b))
  }

  lemma {:induction false} WidenedValue(b: seq<bv8>, k: nat)
    requires b != []
    ensures Widened(b, k) == Signed(BitsOf(b))
  {
    var ones := b[0] & 0x80 != 0;
    FilledBits(k, ones, b);
    assert BitsOf(b)[0] == ones;
    hide BitsOf, Signed;
    SignExtend(BitsOf(b), 8 * k);
  }

  /** The same without a sign. */
  function WidenedUnsigned(b: seq<bv8>, k: nat): nat { Unsigned(BitsOf(Fill(k, false) + b)) }

  lemma {:induction false} WidenedUnsignedValue(b: seq<bv8>, k: nat)
    ensures WidenedUnsigned(b, k) == Unsigned(BitsOf(b))
  {
    hide BitsOf;
    FilledBits(k, false, b);
    ZerosInFront(8 * k, BitsOf(b));
  }

  /** `uncompress_int16`, `_int24`, `_int32`, `_int40` and `_int64`: 24 and 40 bits are widened to 32 and 64. */
  method GetSigned(s: seq<bv8>, at: nat, w: nat) returns (n: int)
    requires at + w <= |s| && 0 < w <= 8
    ensures ReadSigned(s[at..], w) == Got(n, s[at + w..])
  {
    hide BitsOf, Signed, Widened;
    var b := s[at..at + w];
    assert s[at..][..w] == b && s[at..][w..] == s[at + w..];
    WidenedValue(b, 1);
    WidenedValue(b, 3);
    n := if w == 3 then Widened(b, 1) else if w == 5 then Widened(b, 3) else Signed(BitsOf(b));
  }

  /** `uncompress_uint16`, `_uint24` and `_uint32`. */
  method GetUnsigned(s: seq<bv8>, at: nat, w: nat) returns (n: U32)
    requires at + w <= |s| && 0 < w <= 4
    ensures ReadUnsigned(s[at..], w) == Got(n, s[at + w..])
  {
    hide BitsOf, Unsigned, WidenedUnsigned;
    var b := s[at..at + w];
    assert s[at..][..w] == b && s[at..][w..] == s[at + w..];
    WidenedUnsignedValue(b, 4 - w);
    UnsignedSmall(b);
    n := WidenedUnsigned(b, 4 - w);
  }

  /** `uncompress` on all the bytes there are: the length of the first entry, or 0 if it is cut off. */
  method Uncompress(s: seq<bv8>, entry: Entry, p: Precision) returns (len: nat, e: Entry)
    ensures len <= |s| && (len == 0 <==> Parse(s, p).Short?)
    ensures len > 0 ==> Parse(s, p) == Got(Known(e), s[len..])
  {
    hide ParseValues, LayoutOf, ReadUnsigned;
    e := entry;
    if |s| < 6 { return 0, e; }
    var l := LayoutOf(s[0]);
    len := 1;
    var tid := GetUnsigned(s, len, l.tid);
    e := e.(tid := tid);
    len := len + l.tid;
    if |s| - len < l.cnt { return 0, e; }
    var cnt := GetUnsigned(s, len, l.cnt);
    e := e.(cnt := cnt);
    len := len + l.cnt;
    if cnt != 0 {
      len, e := UncompressValues(s, len, l, e, p);
    }
  }

  /** The three values, each checked to be there before it is read. */
  method UncompressValues(s: seq<bv8>, at: nat, l: Layout, entry: Entry, p: Precision) returns (len: nat, e: Entry)
    requires 0 < at <= |s| && entry.cnt != 0
    requires LayoutOk(l)
    ensures len <= |s| && e.tid == entry.tid && e.cnt == entry.cnt
    ensures var r := ParseValues(Entry(entry.tid, entry.cnt, 0.0, 0.0, 0.0), l, s[at..], p);
            (len == 0 <==> r.Short?) && (len > 0 ==> r == Got(e, s[len..]))
  {
    hide ReadSigned, Over;
    e := entry;
    if |s| - at < 8 { return 0, e; }
    len := at;
    var min := GetSigned(s, len, l.min);
    e := e.(min := Over(min as real, p));
    len := len + l.min;
    if |s| - len < 6 { return 0, e; }
    if l.max == 8 && |s| - len < 8 { return 0, e; }
    var max := GetSigned(s, len, l.max);
    e := e.(max := Over(max as real, p));
    len := len + l.max;
    if |s| - len < l.sum { return 0, e; }
    var sum := GetSigned(s, len, l.sum);
    e := e.(sum := Over(sum as real, p));
    len := len + l.sum;
  }

  // ---------------------------------------------------------------- a file read through a buffer

  /** No encoding is longer than this. */
  const LONGEST: nat := 33

  lemma {:induction false} LongEnough(s: seq<bv8>, p: Precision)
    requires |s| >= LONGEST
    ensures Parse(s, p).Got?
  {
    hide LayoutOf;
  }

  /** What the cursor has parsed is also what the whole rest of the file parses to. */
  lemma {:induction false} SeenInBuffer(near: seq<bv8>, far: seq<bv8>, p: Precision, e: Entry, rest: seq<bv8>)
    requires Parse(near, p) == Got(e, rest)
    ensures Parse(near + far, p) == Got(e, rest + far)
  {
    ParseStable(near, far, p);
  }

  class Reader {
    const file: seq<bv8>
    const capacity: nat
    const p: Precision
    var pos: nat          // where the next block of the file starts
    var buff: seq<bv8>    // the bytes read but not yet dropped
    var index: nat        // where in them the next entry starts
    var entry: Entry

    ghost predicate Valid()
      reads this
    {
      pos <= |file| && index <= |buff| <= capacity && LONGEST <= capacity
    }

    /** What is left of the file. */
    ghost function Unread(): seq<bv8>
      requires Valid()
      reads this
    {
      buff[index..] + file[pos..]
    }

    constructor (file: seq<bv8>, capacity: nat, p: Precision)
      requires LONGEST <= capacity
      ensures Valid() && Unread() == file && this.file == file && this.p == p
    {
      this.file, this.capacity, this.p := file, capacity, p;
      pos, buff, index, entry := 0, [], 0, Entry(0, 0, 0.0, 0.0, 0.0);
    }

    /** Drops the parsed bytes and reads as much of the file as fits after the others. */
    method Refill() returns (n: nat)
      requires Valid()
      modifies `pos, `buff, `index
      ensures Valid() && index == 0 && Unread() == old(Unread())
      ensures pos == old(pos) + n && n == Min(capacity - (|old(buff)| - old(index)), |file| - old(pos))
      ensures |buff| == |old(buff)| - old(index) + n
    {
      var kept := buff[index..];
      var room := capacity - |kept|;
      n := if room < |file| - pos then room else |file| - pos;
      assert kept + file[pos..] == kept + file[pos..pos + n] + file[pos + n..];
      buff, pos, index := kept + file[pos..pos + n], pos + n, 0;
      assert buff[0..] == buff;
    }

    /** `next_entry`: the next entry of the file, if it is complete. */
    method NextEntry() returns (found: bool)
      requires Valid()
      modifies `pos, `buff, `index, `entry
      ensures Valid() && (found <==> Parse(old(Unread()), p).Got?)
      ensures found ==> Parse(old(Unread()), p) == Got(Known(entry), Unread())
      decreases |file| - pos
    {
      hide Parse, Known;
      ghost var rem := Unread();
      var len := 0;
      if index < |buff| {
        len, entry := Uncompress(buff[index..], entry, p);
      } else {
        ShortNothing(buff[index..], p);
      }
      if len == 0 {
        if |buff[index..]| >= LONGEST { LongEnough(buff[index..], p); }
        ghost var kept := buff[index..];
        var n := Refill();
        if n == 0 {
          assert rem == kept;
          return false;
        }
        found := NextEntry();
      } else {
        SeenInBuffer(buff[index..], file[pos..], p, Known(entry), buff[index..][len..]);
        assert buff[index..][len..] == buff[index + len..];
        index := index + len;
        found := true;
      }
    }

    /** `first_entry`: from the beginning of the file. */
    method FirstEntry() returns (found: bool)
      requires Valid()
      modifies `pos, `buff, `index, `entry
      ensures Valid() && (found <==> Parse(file, p).Got?)
      ensures found ==> Parse(file, p) == Got(Known(entry), Unread())
    {
      hide Parse, Known;
      pos, buff, index := 0, [], 0;
      var n := Refill();
      assert Unread() == file;
      if n == 0 {
        ShortNothing(file, p);
        return false;
      }
      var len;
      assert buff[0..] == buff;
      len, entry := Uncompress(buff, entry, p);
      index := len;
      if len == 0 {
        if |buff| >= LONGEST { LongEnough(buff, p); }
        assert file == buff + file[pos..];
        if pos == |file| { assert file == buff; }
        return false;
      }
      SeenInBuffer(buff, file[pos..], p, Known(entry), buff[len..]);
      found := true;
    }
  }

  lemma {:induction false} ShortNothing(s: seq<bv8>, p: Precision)
    requires s == []
    ensures Parse(s, p).Short?
  {
  }

  /** The scan of a file by `first_entry` and `next_entry`: exactly the entries of the whole file. */
  method Scan(file: seq<bv8>, capacity: nat, p: Precision) returns (es: seq<Entry>)
    requires LONGEST <= capacity
    ensures es == ParseAll(file, p)
  {
    hide Parse, Known;
    var r := new Reader(file, capacity, p);
    es := [];
    var found := r.FirstEntry();
    ghost var rem := file;
    while found
      invariant r.Valid() && fresh(r) && r.file == file && r.p == p
      invariant found <==> Parse(rem, p).Got?
      invariant found ==> Parse(rem, p) == Got(Known(r.entry), r.Unread())
      invariant ParseAll(file, p) == es + ParseAll(rem, p)
      decreases |rem|
    {
      es := es + [Known(r.entry)];
      rem := r.Unread();
      found := r.NextEntry();
    }
  }
}
