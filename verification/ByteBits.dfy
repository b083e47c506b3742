/** Single bits of bytes, numbered from the most significant, and the shifts and masks of src/utils/bitset.cpp. */
module ByteBits {

  /** Bit `i` of a byte. */
  predicate Bit(b: bv8, i: nat)
    requires i < 8
  {
    match i
    case 0 => b & 0x80 != 0
    case 1 => b & 0x40 != 0
    case 2 => b & 0x20 != 0
    case 3 => b & 0x10 != 0
    case 4 => b & 0x08 != 0
    case 5 => b & 0x04 != 0
    case 6 => b & 0x02 != 0
    case 7 => b & 0x01 != 0
  }

  /** `b >> d` */
  function Shr(b: bv8, d: nat): bv8
    requires d < 8
  {
    match d
    case 0 => b
    case 1 => b >> 1
    case 2 => b >> 2
    case 3 => b >> 3
    case 4 => b >> 4
    case 5 => b >> 5
    case 6 => b >> 6
    case 7 => b >> 7
  }

  /** `b << d` */
  function Shl(b: bv8, d: nat): bv8
    requires d < 8
  {
    match d
    case 0 => b
    case 1 => b << 1
    case 2 => b << 2
    case 3 => b << 3
    case 4 => b << 4
    case 5 => b << 5
    case 6 => b << 6
    case 7 => b << 7
  }

  /** The table `mask_0011`: keeps the bits from `i` on. */
  function Mask0011(i: nat): bv8
    requires i < 8
  {
    match i
    case 0 => 0xFF
    case 1 => 0x7F
    case 2 => 0x3F
    case 3 => 0x1F
    case 4 => 0x0F
    case 5 => 0x07
    case 6 => 0x03
    case 7 => 0x01
  }

  /** The table `mask_1100`: keeps the first `i` bits. */
  function Mask1100(i: nat): bv8
    requires i < 8
  {
    match i
    case 0 => 0x00
    case 1 => 0x80
    case 2 => 0xC0
    case 3 => 0xE0
    case 4 => 0xF0
    case 5 => 0xF8
    case 6 => 0xFC
    case 7 => 0xFE
  }

  lemma ShrBit(b: bv8, d: nat, j: nat)
    requires d < 8 && j < 8
    ensures Bit(Shr(b, d), j) == (j >= d && Bit(b, j - d))
  {}

  lemma ShlBit(b: bv8, d: nat, j: nat)
    requires d < 8 && j < 8
    ensures Bit(Shl(b, d), j) == (j + d < 8 && Bit(b, j + d))
  {}

  /** The first `m` bits of `a`, then the rest of `b`. */
  function Masked(a: bv8, b: bv8, m: nat): bv8
    requires m < 8
  {
    (a & Mask1100(m)) | (b & Mask0011(m))
  }

  lemma MaskedFirst(a: bv8, b: bv8, m: nat, j: nat)
    requires j < m < 8
    ensures Bit(Masked(a, b, m), j) == Bit(a, j)
  {}

  lemma MaskedLast(a: bv8, b: bv8, m: nat, j: nat)
    requires m <= j < 8
    ensures Bit(Masked(a, b, m), j) == Bit(b, j)
  {}

  /** `src` shifted so that its bit `from` comes to bit `at`. */
  function Moved(src: bv8, from: nat, at: nat): bv8
    requires at < 8 && from < 8
  {
    if from < at then Shr(src, at - from) else Shl(src, from - at)
  }

  lemma MovedBit(src: bv8, from: nat, at: nat, j: nat)
    requires at <= j < 8 && from < 8 && j - at + from < 8
    ensures Bit(Moved(src, from, at), j) == Bit(src, j - at + from)
  {
    if from < at { ShrBit(src, at - from, j); } else { ShlBit(src, from - at, j); }
  }

  /**
   The byte that results when bits of `src`, from its bit `from` on, are written over `dst` from its
   bit `at` on: `src` is shifted into position and merged under the masks.
   */
  function Merge(dst: bv8, at: nat, src: bv8, from: nat): bv8
    requires at < 8 && from < 8
  {
    Masked(dst, Moved(src, from, at), at)
  }

  lemma MergeBit(dst: bv8, at: nat, src: bv8, from: nat, j: nat)
    requires at < 8 && from < 8 && j < 8
    ensures j < at ==> Bit(Merge(dst, at, src, from), j) == Bit(dst, j)
    ensures at <= j && j - at + from < 8 ==> Bit(Merge(dst, at, src, from), j) == Bit(src, j - at + from)
  {
    if j < at {
      MaskedFirst(dst, Moved(src, from, at), at, j);
    } else if j - at + from < 8 {
      MovedBit(src, from, at, j);
      MaskedLast(dst, Moved(src, from, at), at, j);
    }
  }

  /** Bit `k` of a byte string. */
  function BitAt(s: seq<bv8>, k: nat): bool
    requires k < 8 * |s|
  {
    Bit(s[k / 8], k % 8)
  }

  /** A byte string as a string of bits. */
  function BitsOf(s: seq<bv8>): (r: seq<bool>)
    ensures |r| == 8 * |s|
  {
    seq(8 * |s|, k requires 0 <= k < 8 * |s| => BitAt(s, k))
  }
}
