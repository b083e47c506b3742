/** Integers as strings of bits, most significant first, and bits packed into bytes. */
module BitCode {
  import opened ByteBits
  import opened Bits

  /** The low `w` bits of `n` in two's complement. */
  function ToBits(n: int, w: nat): (r: seq<bool>)
    ensures |r| == w
    decreases w
  {
    if w == 0 then [] else ToBits(n / 2, w - 1) + [n % 2 == 1]
  }

  /** `n` is a two's complement number of `w` bits. */
  predicate Fits(n: int, w: nat)
    requires w > 0
  {
    0 <= n + Pow2(w - 1) && n < Pow2(w - 1)
  }

  /** The unsigned reading of a bit string. */
  function Unsigned(s: seq<bool>): nat {
    if s == [] then 0 else 2 * Unsigned(s[..|s| - 1]) + if s[|s| - 1] then 1 else 0
  }

  /** The two's complement reading. */
  function Signed(s: seq<bool>): int
    requires s != []
  {
    if s[0] then Unsigned(s) - Pow2(|s|) else Unsigned(s)
  }

  lemma {:induction false} UnsignedBound(s: seq<bool>)
    ensures Unsigned(s) < Pow2(|s|)
  {
    if s != [] { UnsignedBound(s[..|s| - 1]); }
  }

  lemma {:induction false} UnsignedRoundTrip(n: nat, w: nat)
    requires n < Pow2(w)
    ensures Unsigned(ToBits(n, w)) == n
  {
    if w > 0 {
      UnsignedRoundTrip(n / 2, w - 1);
      assert ToBits(n, w)[..w - 1] == ToBits(n / 2, w - 1);
    }
  }

  /** The first bit tells negative numbers from the others. */
  lemma {:induction false} SignBit(n: int, w: nat)
    requires w > 0 && Fits(n, w)
    ensures ToBits(n, w)[0] <==> n < 0
    decreases w
  {
    if w > 1 {
      SignBit(n / 2, w - 1);
      assert ToBits(n, w)[0] == ToBits(n / 2, w - 1)[0];
    }
  }

  lemma {:induction false} ToBitsShift(n: int, w: nat)
    ensures ToBits(n + Pow2(w), w) == ToBits(n, w)
    decreases w
  {
    if w > 0 {
      assert (n + Pow2(w)) / 2 == n / 2 + Pow2(w - 1);
      ToBitsShift(n / 2, w - 1);
    }
  }

  /** Every `w`-bit two's complement number is read back. */
  lemma {:induction false} SignedRoundTrip(n: int, w: nat)
    requires w > 0 && Fits(n, w)
    ensures Signed(ToBits(n, w)) == n
  {
    SignBit(n, w);
    if n < 0 {
      ToBitsShift(n, w);
      UnsignedRoundTrip(n + Pow2(w), w);
    } else {
      UnsignedRoundTrip(n, w);
    }
  }

  lemma {:induction false} SignedBound(s: seq<bool>)
    requires s != []
    ensures Fits(Signed(s), |s|)
  {
    UnsignedBound(s);
    if |s| == 1 {
      assert s[..0] == [];
    } else {
      SignedBound(s[..|s| - 1]);
    }
  }

  /** Dropping the high bits of an encoding leaves a shorter encoding. */
  lemma {:induction false} LowBits(n: int, w: nat, j: nat)
    requires j <= w
    ensures ToBits(n, w)[w - j..] == ToBits(n, j)
    decreases w
  {
    if j > 0 {
      LowBits(n / 2, w - 1, j - 1);
    }
  }

  function Repeat(b: bool, k: nat): (r: seq<bool>)
    ensures |r| == k && forall i | 0 <= i < k :: r[i] == b
  {
    if k == 0 then [] else [b] + Repeat(b, k - 1)
  }

  lemma {:induction false} UnsignedPrefixed(b: bool, s: seq<bool>)
    ensures Unsigned([b] + s) == (if b then Pow2(|s|) else 0) + Unsigned(s)
  {
    if s == [] {
      assert ([b] + s)[..0] == [];
    } else {
      var k := |s| - 1;
      UnsignedPrefixed(b, s[..k]);
      assert ([b] + s)[..k + 1] == [b] + s[..k];
    }
  }

  lemma {:induction false} ZerosInFront(k: nat, s: seq<bool>)
    ensures Unsigned(Repeat(false, k) + s) == Unsigned(s)
  {
    if k == 0 {
      assert Repeat(false, 0) + s == s;
    } else {
      ZerosInFront(k - 1, s);
      assert Repeat(false, k) + s == [false] + (Repeat(false, k - 1) + s);
      UnsignedPrefixed(false, Repeat(false, k - 1) + s);
    }
  }

  /** Copying the sign bit to the left does not change the value. */
  lemma {:induction false} SignExtend(s: seq<bool>, k: nat)
    requires s != []
    ensures Signed(Repeat(s[0], k) + s) == Signed(s)
  {
    if k == 0 {
      assert Repeat(s[0], 0) + s == s;
    } else {
      SignExtend(s, k - 1);
      var t := Repeat(s[0], k - 1) + s;
      assert Repeat(s[0], k) + s == [s[0]] + t;
      UnsignedPrefixed(s[0], t);
    }
  }

  // ---------------------------------------------------------------- bytes

  function MakeByte(s: seq<bool>): bv8
    requires |s| == 8
  {
    (if s[0] then 0x80 else 0) | (if s[1] then 0x40 else 0) | (if s[2] then 0x20 else 0) | (if s[3] then 0x10 else 0)
    | (if s[4] then 0x08 else 0) | (if s[5] then 0x04 else 0) | (if s[6] then 0x02 else 0) | (if s[7] then 0x01 else 0)
  }

  /** A buffer of zeros. */
  function Blank(n: nat): (r: seq<bv8>)
    ensures |r| == n && forall i | 0 <= i < n :: r[i] == 0
  {
    if n == 0 then [] else [0] + Blank(n - 1)
  }

  function BytesFrom(s: seq<bool>): (r: seq<bv8>)
    requires |s| % 8 == 0
    ensures 8 * |r| == |s|
  {
    if s == [] then [] else [MakeByte(s[..8])] + BytesFrom(s[8..])
  }

  lemma MakeByteBit(s: seq<bool>, i: nat)
    requires |s| == 8 && i < 8
    ensures Bit(MakeByte(s), i) == s[i]
  {
  }

  function ListBits(b: bv8): (r: seq<bool>)
    ensures |r| == 8
  {
    [Bit(b, 0), Bit(b, 1), Bit(b, 2), Bit(b, 3), Bit(b, 4), Bit(b, 5), Bit(b, 6), Bit(b, 7)]
  }

  lemma MakeByteOf(b: bv8)
    ensures MakeByte(ListBits(b)) == b
  {
  }

  /** Packing and unpacking are inverse. */
  lemma {:induction false} BitsOfBytesFrom(s: seq<bool>)
    requires |s| % 8 == 0
    ensures BitsOf(BytesFrom(s)) == s
  {
    forall k | 0 <= k < |s| ensures BitsOf(BytesFrom(s))[k] == s[k] {
      PackedBit(s, k);
    }
  }

  lemma {:induction false} PackedBit(s: seq<bool>, k: nat)
    requires |s| % 8 == 0 && k < |s|
    ensures BitAt(BytesFrom(s), k) == s[k]
  {
    if k < 8 {
      MakeByteBit(s[..8], k);
    } else {
      PackedBit(s[8..], k - 8);
    }
  }

  lemma {:induction false} BitsOfCons(b: seq<bv8>)
    requires b != []
    ensures BitsOf(b)[..8] == ListBits(b[0]) && BitsOf(b)[8..] == BitsOf(b[1..])
  {
    BitsTail(b);
    hide BitAt;
    forall j | 0 <= j < 8 ensures BitAt(b, j) == Bit(b[0], j) { BitAtHead(b, j); }
  }

  lemma {:induction false} BitAtHead(b: seq<bv8>, j: nat)
    requires b != [] && j < 8
    ensures BitAt(b, j) == Bit(b[0], j)
  {
    hide Bit;
  }

  lemma {:induction false} BitsTail(b: seq<bv8>)
    requires b != []
    ensures BitsOf(b)[8..] == BitsOf(b[1..])
  {
    hide BitAt;
    forall j: nat | j < 8 * |b| - 8 ensures BitAt(b, 8 + j) == BitAt(b[1..], j) { BitAtTail(b, j); }
    var xs, ys := BitsOf(b)[8..], BitsOf(b[1..]);
    assert forall j: nat | j < |xs| :: xs[j] == BitAt(b, 8 + j);
  }

  lemma {:induction false} BitAtTail(b: seq<bv8>, j: nat)
    requires b != [] && 8 + j < 8 * |b|
    ensures BitAt(b, 8 + j) == BitAt(b[1..], j)
  {
    hide Bit;
    assert (8 + j) / 8 == j / 8 + 1 && (8 + j) % 8 == j % 8;
  }

  lemma {:induction false} BytesFromBitsOf(b: seq<bv8>)
    ensures BytesFrom(BitsOf(b)) == b
  {
    if b != [] {
      BitsOfCons(b);
      MakeByteOf(b[0]);
      BytesFromBitsOf(b[1..]);
    }
  }

  /** Memory order of a big-endian word read as little-endian, and back. */
  function Reverse<T>(s: seq<T>): (r: seq<T>)
    ensures |r| == |s| && forall i | 0 <= i < |s| :: r[i] == s[|s| - 1 - i]
  {
    if s == [] then [] else [s[|s| - 1]] + Reverse(s[..|s| - 1])
  }

  lemma {:induction false} ReverseTwice<T>(s: seq<T>)
    ensures Reverse(Reverse(s)) == s
  {
  }
}
