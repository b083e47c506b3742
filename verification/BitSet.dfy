/**
 The bit string of include/bitset.h and src/utils/bitset.cpp: bits are packed into a byte buffer
 with shifts and masks, one source byte at a time.
 */
module BitSet {
  import opened Arith
  import opened ByteBits

  /** A reading position: a byte and a bit within it. */
  datatype Cursor = Cursor(byte: nat, start: nat) {
    function Pos(): nat { 8 * byte + start }
    predicate Valid() { start < 8 }
  }

  /** How many bits one step moves between two bytes that are `a` and `b` bits in. */
  function StepLen(a: nat, b: nat, len: nat): nat
    requires a < 8 && b < 8
  {
    Min(8 - Max(a, b), len)
  }

  /** `k` bits of a byte. */
  function ByteSlice(b: bv8, from: nat, k: nat): (r: seq<bool>)
    requires from + k <= 8
    ensures |r| == k
  {
    seq(k, i requires 0 <= i < k => Bit(b, from + i))
  }

  class BitSet {
    var bits: array<bv8>
    var cursor: nat       // the byte to store the next bit in
    var start: nat        // where in that byte
    var cpCursor: nat
    var cpStart: nat

    ghost predicate Valid()
      reads this
    {
      && start < 8
      && (cursor < bits.Length || (cursor == bits.Length && start == 0))
      && cpStart < 8 && 8 * cpCursor + cpStart <= 8 * bits.Length
    }

    function Size(): nat
      reads this
    {
      8 * cursor + start
    }

    /** What has been appended so far. */
    ghost function Contents(): (r: seq<bool>)
      requires Valid()
      reads this, bits
      ensures |r| == Size()
    {
      BitsOf(bits[..])[..Size()]
    }

    constructor (base: array<bv8>)
      ensures Valid() && bits == base && Size() == 0 && cpCursor == 0 && cpStart == 0
    {
      bits := base;
      cursor, start, cpCursor, cpStart := 0, 0, 0, 0;
    }

    /** The cursor movements of the private `append`, in its three cases. */
    method Advance(len: nat, from: nat) returns (len': nat, from': nat)
      requires Valid() && cursor < bits.Length && len > 0 && from < 8
      modifies `cursor, `start
      ensures Valid() && Size() == old(Size()) + StepLen(old(start), from, len)
      ensures len' == len - StepLen(old(start), from, len)
      ensures len' > 0 ==> from' == (from + StepLen(old(start), from, len)) % 8
    {
      len', from' := len, from;
      if from < start {
        var l := 8 - start;
        if len >= l {
          from', len' := from + l, len - l;
          start := 0;
          cursor := cursor + 1;
        } else {
          start, len' := start + len, 0;
        }
      } else if start < from {
        var l := 8 - from;
        if len >= l {
          start, len', from' := start + l, len - l, 0;
        } else {
          start, len' := start + len, 0;
        }
      } else {
        var l := 8 - start;
        if len >= l {
          len', from' := len - l, 0;
          start := 0;
          cursor := cursor + 1;
        } else {
          start, len' := start + len, 0;
        }
      }
    }

    /**
     The private `append`, called on byte `p` of the source: moves `k` bits, from bit `f` of that byte
     on, as many as fit into the current byte.
     */
    method AppendSome(src: seq<bv8>, p: nat, f: nat, len: nat, ghost q: nat)
      returns (p': nat, f': nat, len': nat, ghost k: nat)
      requires Valid() && cursor < bits.Length && len > 0 && f < 8 && 8 * p + f == q && q + len <= 8 * |src|
      modifies `cursor, `start, bits
      ensures Valid() && 0 < k <= len && len' == len - k
      ensures len' > 0 ==> f' < 8 && 8 * p' + f' == q + k
      ensures Contents() == old(Contents()) + BitsOf(src)[q..q + k]
    {
      hide BitsOf, ByteSlice;
      k := StepLen(start, f, len);
      SliceInByte(src, p, f, k);
      StoreBits(src[p], f, k);
      len', f' := Advance(len, f);
      p' := if f' == 0 then p + 1 else p;
    }

    /** The masking and or-ing of the private `append`. */
    method StoreBits(src: bv8, f: nat, ghost k: nat)
      requires Valid() && cursor < bits.Length && f < 8 && k <= 8 - Max(start, f)
      modifies bits
      ensures BitsOf(bits[..])[..Size() + k] == old(Contents()) + ByteSlice(src, f, k)
    {
      hide BitsOf, ByteSlice, Merge;
      ByteWritten(bits[..], cursor, start, src, f, k);
      ghost var after := bits[..][cursor := Merge(bits[cursor], start, src, f)];
      bits[cursor] := Merge(bits[cursor], start, src, f);
      assert bits[..] == after;
    }

    /**
     `append`: adds `len` bits of `src`, from its bit `from` on.  The source throws when the buffer
     is full; by then bits past the end of the old contents may have been written.
     */
    method Append(src: seq<bv8>, len: nat, from: nat) returns (ok: bool)
      requires Valid() && len > 0 && from + len <= 8 * |src|
      modifies `cursor, `start, bits
      ensures Valid()
      ensures ok <==> old(Size()) + len <= 8 * bits.Length
      ensures if ok then Contents() == old(Contents()) + BitsOf(src)[from..from + len]
              else BitsOf(bits[..])[..old(Size())] == old(Contents())
    {
      hide BitsOf;
      var p: nat, f: nat, left: nat := from / 8, from % 8, len;
      ghost var base, bitsOfSrc, q: nat := Contents(), BitsOf(src), from;
      assert base == base + bitsOfSrc[from..q];
      while left > 0
        invariant left <= len && Valid() && q == from + len - left
        invariant left > 0 ==> f < 8 && 8 * p + f == q
        invariant Contents() == base + bitsOfSrc[from..q]
      {
        if cursor == bits.Length {
          PrefixKept(base, bitsOfSrc[from..q]);
          return false;
        }
        ghost var before, k := Contents(), 0;
        p, f, left, k := AppendSome(src, p, f, left, q);
        Joined(Contents(), before, base, bitsOfSrc, from, q, q + k);
        q := q + k;
      }
      ok := true;
    }

    method SaveCheckPoint()
      requires Valid()
      modifies `cpCursor, `cpStart
      ensures Valid() && 8 * cpCursor + cpStart == Size()
    {
      cpCursor, cpStart := cursor, start;
    }

    /** Cuts the contents back to the size at the checkpoint. */
    method RestoreFromCheckPoint()
      requires Valid()
      modifies `cursor, `start
      ensures Valid() && Size() == 8 * cpCursor + cpStart
      ensures Contents() == BitsOf(bits[..])[..8 * cpCursor + cpStart]
    {
      cursor, start := cpCursor, cpStart;
    }

    /**
     `copy_from`: takes over `bytes` whole bytes and `start` bits of another buffer; given no buffer, or its
     own, it takes what is there already.
     */
    method CopyFrom(base: array?<bv8>, bytes: nat, start: nat)
      requires Valid() && bytes > 0 && start < 8 && 8 * bytes + start <= 8 * bits.Length
      requires base != null ==> 8 * bytes + start <= 8 * base.Length
      modifies `cursor, `start, bits
      ensures Valid()
      ensures Contents() == BitsOf(old(if base == null then bits[..] else base[..]))[..8 * bytes + start]
    {
      this.cursor, this.start := bytes, start;
      if base != null && base != bits {
        var n := if start != 0 then bytes + 1 else bytes;
        forall i | 0 <= i < n { bits[i] := base[i]; }
        forall j | 0 <= j < 8 * bytes + start ensures BitsOf(bits[..])[j] == BitsOf(old(base[..]))[j] {
          assert j / 8 < n;
        }
      }
    }

    /** The cursor movements of the private `retrieve`, in its three cases. */
    method AdvanceCursor(cur: Cursor, len: nat, at: nat) returns (cur': Cursor, len': nat, at': nat)
      requires cur.Valid() && len > 0 && at < 8
      ensures cur'.Valid() && cur'.Pos() == cur.Pos() + StepLen(cur.start, at, len)
      ensures len' == len - StepLen(cur.start, at, len)
      ensures len' > 0 ==> at' == (at + StepLen(cur.start, at, len)) % 8
    {
      cur', len', at' := cur, len, at;
      if at < cur.start {
        var l := 8 - cur.start;
        if len >= l {
          at', len', cur' := at + l, len - l, Cursor(cur.byte + 1, 0);
        } else {
          cur', len' := Cursor(cur.byte, cur.start + len), 0;
        }
      } else if cur.start < at {
        var l := 8 - at;
        if len >= l {
          cur', len', at' := Cursor(cur.byte, cur.start + l), len - l, 0;
        } else {
          cur', len' := Cursor(cur.byte, cur.start + len), 0;
        }
      } else {
        var l := 8 - at;
        if len >= l {
          len', at', cur' := len - l, 0, Cursor(cur.byte + 1, 0);
        } else {
          cur', len' := Cursor(cur.byte, cur.start + len), 0;
        }
      }
    }

    /** The private `retrieve`, into byte `p` of the destination from its bit `f` on; it moves `k` bits. */
    method RetrieveSome(cur: Cursor, dest: seq<bv8>, p: nat, f: nat, len: nat, ghost q: nat)
      returns (cur': Cursor, dest': seq<bv8>, p': nat, f': nat, len': nat, ghost k: nat)
      requires Valid() && cur.Valid() && cur.byte < bits.Length
      requires len > 0 && f < 8 && 8 * p + f == q && q + len <= 8 * |dest|
      ensures |dest'| == |dest| && 0 < k <= len && len' == len - k
      ensures cur'.Valid() && cur'.Pos() == cur.Pos() + k <= 8 * bits.Length
      ensures len' > 0 ==> f' < 8 && 8 * p' + f' == q + k
      ensures BitsOf(dest')[..q + k] == BitsOf(dest)[..q] + BitsOf(bits[..])[cur.Pos()..cur.Pos() + k]
    {
      hide BitsOf, ByteSlice, Merge;
      k := StepLen(cur.start, f, len);
      ByteWritten(dest, p, f, bits[cur.byte], cur.start, k);
      SliceInByte(bits[..], cur.byte, cur.start, k);
      dest' := dest[p := Merge(dest[p], f, bits[cur.byte], cur.start)];
      cur', len', f' := AdvanceCursor(cur, len, f);
      p' := if f' == 0 then p + 1 else p;
    }

    /** The loop of `retrieve`. */
    method CopyOut(cur: Cursor, dest: seq<bv8>, len: nat, at: nat) returns (ok: bool, cur': Cursor, dest': seq<bv8>)
      requires Valid() && cur.Valid() && cur.Pos() <= 8 * bits.Length && at + len <= 8 * |dest|
      ensures ok <==> cur.Pos() + len <= 8 * bits.Length
      ensures |dest'| == |dest|
      ensures ok ==> cur'.Valid() && cur'.Pos() == cur.Pos() + len
      ensures ok ==> BitsOf(dest')[..at + len] == BitsOf(dest)[..at] + BitsOf(bits[..])[cur.Pos()..cur.Pos() + len]
    {
      hide BitsOf;
      cur', dest' := cur, dest;
      var p: nat, f: nat, left: nat := at / 8, at % 8, len;
      ghost var pos, from, base, q: nat := cur.Pos(), BitsOf(bits[..]), BitsOf(dest)[..at], at;
      assert base == base + from[pos..cur'.Pos()];
      while left > 0
        invariant left <= len && |dest'| == |dest| && q == at + len - left
        invariant cur'.Valid() && cur'.Pos() == pos + len - left <= 8 * bits.Length
        invariant left > 0 ==> f < 8 && 8 * p + f == q
        invariant BitsOf(dest')[..q] == base + from[pos..cur'.Pos()]
      {
        if cur'.byte == bits.Length { return false, cur', dest'; }
        ghost var before, mid, k := BitsOf(dest')[..q], cur'.Pos(), 0;
        cur', dest', p, f, left, k := RetrieveSome(cur', dest', p, f, left, q);
        q := q + k;
        Joined(BitsOf(dest')[..q], before, base, from, pos, mid, cur'.Pos());
      }
      ok := true;
    }

    /**
     `retrieve`: copies `len` bits from the cursor on over the bits of `dest` from bit `at` on.  It
     throws when the cursor is at the end, or runs off the buffer.  Bits of `dest` after the copied
     ones, in the same byte, may be overwritten.
     */
    method Retrieve(cur: Cursor, dest: seq<bv8>, len: nat, at: nat) returns (ok: bool, cur': Cursor, dest': seq<bv8>)
      requires Valid() && cur.Valid() && cur.Pos() <= 8 * bits.Length && len > 0 && at + len <= 8 * |dest|
      ensures ok <==> cur.Pos() < Size() && cur.Pos() + len <= 8 * bits.Length
      ensures |dest'| == |dest|
      ensures ok ==> cur'.Valid() && cur'.Pos() == cur.Pos() + len
      ensures ok ==> BitsOf(dest')[..at + len] == BitsOf(dest)[..at] + BitsOf(bits[..])[cur.Pos()..cur.Pos() + len]
    {
      if cur.byte > cursor || (cur.byte == cursor && cur.start >= start) {
        ok, cur', dest' := false, cur, dest;
      } else {
        ok, cur', dest' := CopyOut(cur, dest, len, at);
      }
    }
  }

  /** Bits within one byte. */
  lemma {:induction false} SliceInByte(s: seq<bv8>, p: nat, f: nat, k: nat)
    requires p < |s| && f + k <= 8
    ensures BitsOf(s)[8 * p + f..8 * p + f + k] == ByteSlice(s[p], f, k)
  {
    var a := BitsOf(s)[8 * p + f..8 * p + f + k];
    forall j | 0 <= j < k ensures a[j] == ByteSlice(s[p], f, k)[j] {
      assert a[j] == BitAt(s, 8 * p + f + j);
    }
  }

  lemma {:induction false} Joined<T>(after: seq<T>, before: seq<T>, base: seq<T>, s: seq<T>,
                                     from: nat, mid: nat, to: nat)
    requires from <= mid <= to <= |s|
    requires before == base + s[from..mid] && after == before + s[mid..to]
    ensures after == base + s[from..to]
  {
  }

  lemma {:induction false} PrefixKept<T>(base: seq<T>, more: seq<T>)
    ensures (base + more)[..|base|] == base
  {
  }

  /** Merging into byte `cur` appends the source bits to the first `8 * cur + at` bits. */
  lemma {:induction false} ByteWritten(s: seq<bv8>, cur: nat, at: nat, src: bv8, from: nat, k: nat)
    requires cur < |s| && at < 8 && from < 8 && k <= 8 - Max(at, from)
    ensures var size := 8 * cur + at;
            BitsOf(s[cur := Merge(s[cur], at, src, from)])[..size + k] == BitsOf(s)[..size] + ByteSlice(src, from, k)
  {
    var size := 8 * cur + at;
    var s' := s[cur := Merge(s[cur], at, src, from)];
    forall j | 0 <= j < size + k
      ensures BitsOf(s')[j] == (BitsOf(s)[..size] + ByteSlice(src, from, k))[j]
    {
      if j / 8 == cur { MergeBit(s[cur], at, src, from, j % 8); }
    }
  }
}
