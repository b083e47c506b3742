/**
 `power_of_two_growth_policy` of include/tsl/robin_growth_policy.h: bucket counts are powers of
 two, so that a hash is mapped to a bucket by masking.
 */
module GrowthPolicy {
  import opened Arith
  import opened Bits

  const WORD_BITS: nat := 64

  /** Largest bucket count: the largest power of two that fits a word. */
  function MaxBucketCount(): nat { Pow2(WORD_BITS - 1) }

  /** After the shifts 1, 2, .., w/2 the `w` leading bits of an `l`-bit number are ones. */
  ghost predicate LeadingOnes(v: nat, l: nat, w: nat) {
    && v < Pow2(l)
    && (if w < l then v >= Pow2(l) - Pow2(l - w) else v == Pow2(l) - 1)
  }

  lemma {:induction false} DivAtLeast(v: nat, p: nat, m: nat)
    requires p > 0 && v >= p * m
    ensures v / p >= m && v - v % p >= p * m
  {
    assert v == p * (v / p) + v % p;
    if v / p < m {
      MulMinus(p, m, v / p);
      MulAtLeast(p, m - v / p);
    } else if v / p > m {
      MulMinus(p, v / p, m);
      MulAtLeast(p, v / p - m);
    }
  }

  lemma {:induction false} DivBelow(v: nat, p: nat, m: nat)
    requires p > 0 && v < p * m
    ensures v / p < m
  {
    var q := v / p;
    assert v == p * q + v % p;
    if q >= m {
      MulMinus(p, q, m);
      if q > m { MulAtLeast(p, q - m); }
    }
  }

  /** What the shift by `w` brings below the leading ones. */
  lemma {:induction false} ShiftedPart(v: nat, l: nat, w: nat)
    requires LeadingOnes(v, l, w) && 0 < w < l
    ensures Shr(v, w) < Pow2(l - w)
    ensures Shr(v, w) >= Pow2(l - w) - if 2 * w < l then Pow2(l - 2 * w) else 1
  {
    ShrIsDiv(v, w);
    Pow2Add(w, l - w);
    DivBelow(v, Pow2(w), Pow2(l - w));
    if 2 * w < l {
      Pow2Add(w, l - 2 * w);
      MulMinus(Pow2(w), Pow2(l - w), Pow2(l - 2 * w));
      DivAtLeast(v, Pow2(w), Pow2(l - w) - Pow2(l - 2 * w));
    } else {
      Pow2Mono(l - w, w);
      MulMinus(Pow2(w), Pow2(l - w), 1);
      DivAtLeast(v, Pow2(w), Pow2(l - w) - 1);
    }
  }

  lemma {:induction false} KeptPart(v: nat, l: nat, w: nat)
    requires LeadingOnes(v, l, w) && 0 < w < l
    ensures v - v % Pow2(l - w) >= Pow2(l) - Pow2(l - w)
  {
    Pow2Add(l - w, w);
    MulMinus(Pow2(l - w), Pow2(w), 1);
    DivAtLeast(v, Pow2(l - w), Pow2(w) - 1);
  }

  lemma {:induction false} SmearStep(v: nat, l: nat, w: nat)
    requires LeadingOnes(v, l, w) && w > 0
    ensures LeadingOnes(Or(v, Shr(v, w)), l, 2 * w)
  {
    var y := Shr(v, w);
    if w < l {
      ShiftedPart(v, l, w);
      KeptPart(v, l, w);
      Pow2Mono(l - w, l);
      OrBound(v, y, l);
      OrLower(v, y, l - w);
    } else {
      ShrIsDiv(v, w);
      MulAtLeast(v + 1, Pow2(w));
      DivBelow(v, Pow2(w), v + 1);
      OrBound(v, y, l);
      OrAtLeast(v, y);
    }
  }

  lemma {:induction false} OrAtLeast(a: nat, b: nat)
    ensures Or(a, b) >= a
  {
    if a > 0 && b > 0 { OrAtLeast(a / 2, b / 2); }
  }

  lemma {:induction false} BitLength(v: nat) returns (l: nat)
    requires v > 0
    ensures l > 0 && Pow2(l - 1) <= v < Pow2(l)
  {
    if v == 1 {
      l := 1;
      assert Pow2(0) == 1;
    } else {
      var m := BitLength(v / 2);
      l := m + 1;
      assert Pow2(m) == 2 * Pow2(m - 1);
    }
  }

  /** Being between consecutive powers of two, and below `2^63`. */
  lemma {:induction false} BitLengthFits(v: nat, l: nat)
    requires l > 0 && Pow2(l - 1) <= v < MaxBucketCount()
    ensures l <= WORD_BITS - 1
  {
    if l >= WORD_BITS { Pow2Mono(WORD_BITS - 1, l - 1); }
  }

  /** Everything from `value` up to the next power of two excluded is no power of two. */
  lemma {:induction false} NoPowerBetween(l: nat, value: nat, q: nat)
    requires l > 0 && Pow2(l - 1) < value && IsPow2(q) && q >= value
    ensures q >= Pow2(l)
  {
    var k: nat :| q == Pow2(k);
    if k < l { Pow2Mono(k, l - 1); } else { Pow2Mono(l, k); }
  }

  /** The rounding loop yields the least power of two not below the request. */
  method RoundUpToPowerOfTwo(value: nat) returns (r: nat)
    requires value <= MaxBucketCount()
    ensures IsPow2(r) && value <= r
    ensures forall q: nat | IsPow2(q) && value <= q :: r <= q
  {
    if value != 0 && And(value, value - 1) == 0 {
      PowerOfTwoTest(value);
      return value;
    }
    if value == 0 {
      assert 1 == Pow2(0);
      return 1;
    }
    PowerOfTwoTest(value);
    assert value != 1 by { assert 1 == Pow2(0); }
    var v: nat := value - 1;
    ghost var l := BitLength(v);
    BitLengthFits(v, l);
    assert LeadingOnes(v, l, 1);
    var i := 1;
    while i < WORD_BITS
      invariant 0 < i <= 2 * WORD_BITS
      invariant LeadingOnes(v, l, i)
    {
      SmearStep(v, l, i);
      v := Or(v, Shr(v, i));
      i := i * 2;
    }
    r := v + 1;
    assert r == Pow2(l);
    forall q: nat | IsPow2(q) && value <= q ensures r <= q { NoPowerBetween(l, value, q); }
  }

  /** `next_bucket_count` with growth factor 2; the source raises a length error where there is none. */
  predicate CanGrow(mask: nat) { mask + 1 <= MaxBucketCount() / 2 }

  /** A table can grow while twice its buckets are at most 2^63. */
  lemma {:induction false} CanGrowIff(mask: nat)
    ensures CanGrow(mask) <==> 2 * (mask + 1) <= 0x8000_0000_0000_0000
  {
    hide Pow2;
    Pow2Of63();
  }

  lemma {:induction false} Pow2Of63()
    ensures Pow2(63) == 0x8000_0000_0000_0000
  {
    hide Pow2;
    assert Pow2(7) == 128 && Pow2(8) == 256 by { SmallPowers(); }
    Pow2Add(8, 8);
    Pow2Add(16, 16);
    Pow2Add(8, 7);
    Pow2Add(16, 15);
    Pow2Add(32, 31);
  }

  lemma {:induction false} SmallPowers()
    ensures Pow2(7) == 128 && Pow2(8) == 256
  {
  }

  function NextBucketCount(mask: nat): nat { (mask + 1) * 2 }

  /** `bucket_for_hash`: the bucket of a hash, given the mask. */
  function BucketForHash(hash: nat, mask: nat): nat { And(hash, mask) }

  function Truncate32(hash: nat): nat { hash % 0x1_0000_0000 }

  /** The test `USE_STORED_HASH_ON_REHASH`. */
  predicate StoredHashSuffices(bucketCount: nat)
    requires bucketCount > 0
  {
    bucketCount - 1 <= 0xFFFF_FFFF
  }

  lemma {:induction false} ModOfMod(a: nat, p: nat, q: nat)
    requires p > 0 && q > 0
    ensures a % (p * q) % p == a % p
  {
    var n := p * q;
    assert a == n * (a / n) + a % n;
    var b := a % n;
    assert b == p * (b / p) + b % p;
    var t := q * (a / n) + b / p;
    assert n * (a / n) == p * (q * (a / n));
    assert a == p * t + b % p;
    RemainderIs(a, p, t, b % p);
  }

  lemma {:induction false} Pow2Of32()
    ensures Pow2(32) == 0x1_0000_0000
  {
    Pow2Add(16, 16);
    Pow2Add(8, 8);
    assert Pow2(8) == 256;
  }

  /**
   When the test passes, masking the 32 stored bits of a hash picks the same bucket as masking the
   whole hash, and that bucket is the hash modulo the bucket count.
   */
  lemma {:induction false} TruncatedHashSameBucket(hash: nat, bucketCount: nat)
    requires IsPow2(bucketCount)
    ensures BucketForHash(hash, bucketCount - 1) == hash % bucketCount
    ensures StoredHashSuffices(bucketCount) ==>
              BucketForHash(Truncate32(hash), bucketCount - 1) == BucketForHash(hash, bucketCount - 1)
  {
    var k: nat :| bucketCount == Pow2(k);
    MaskIsMod(hash, k);
    if StoredHashSuffices(bucketCount) {
      Pow2Of32();
      if k > 32 { Pow2Mono(33, k); }
      Pow2Add(k, 32 - k);
      MaskIsMod(Truncate32(hash), k);
      ModOfMod(hash, bucketCount, Pow2(32 - k));
    }
  }

  /** The test is exact: with more than 2^32 buckets some hash is misplaced by its stored bits. */
  lemma {:induction false} TruncatedHashMisplaces(bucketCount: nat)
    requires IsPow2(bucketCount) && !StoredHashSuffices(bucketCount)
    ensures exists hash: nat ::
              BucketForHash(Truncate32(hash), bucketCount - 1) != BucketForHash(hash, bucketCount - 1)
  {
    var h := 0x1_0000_0000;
    TruncatedHashSameBucket(h, bucketCount);
    TruncatedHashSameBucket(0, bucketCount);
    assert Truncate32(h) == 0;
    RemainderIs(h, bucketCount, 0, h);
  }
}
