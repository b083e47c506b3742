/**
 The codes of `Compressor_v3` in src/core/compress.cpp: 64-bit integers in 1, 12, 17 or 64 bits, and
 differences of values as whole numbers or as multiples of the configured precision.
 */
module FixedPointCode {
  import opened Bits
  import opened BitCode
  import opened StreamCode

  // ---------------------------------------------------------------- integers

  function IntCode(n: int): (r: seq<bool>)
    ensures |r| >= 1
  {
    if n == 0 then [false]
    else if -2048 <= n <= 2047 then [true, false] + ToBits(n, 12)
    else if -65536 <= n <= 65535 then [true, true, false] + ToBits(n, 17)
    else [true, true, true] + ToBits(n, 64)
  }

  lemma {:induction false} Signed64(b: seq<bool>)
    requires 0 < |b| <= 64
    ensures -TWO63 <= Signed(b) < TWO63
  {
    SignedBound(b);
    Pow2Mono(|b| - 1, 63);
    Pow2Of63();
  }

  lemma {:induction false} Pow2Of63()
    ensures Pow2(63) == TWO63 && Pow2(11) == 2048
  {
    Pow2Values();
    Pow2Add(16, 15);
    assert Pow2(15) == 32768 by { Pow2Add(13, 2); assert Pow2(2) == 4; }
    Pow2Add(32, 31);
    assert Pow2(11) == 2048 by { Pow2Add(11, 2); assert Pow2(2) == 4; }
  }

  function ReadNumber(s: seq<bool>, k: nat): (r: Parsed<int>)
    requires 0 < k <= 64
    ensures r.Parsed? ==> -TWO63 <= r.value < TWO63 && |r.rest| < |s|
  {
    match Take(s, k)
    case Cut => Cut
    case Parsed(b, rest) => Signed64(b); Parsed(Signed(b), rest)
  }

  /** `uncompress_i`. */
  function ReadInt(s: seq<bool>): (r: Parsed<int>)
    ensures r.Parsed? ==> |r.rest| < |s| && -TWO63 <= r.value < TWO63
  {
    if |s| < 1 then Cut
    else if !s[0] then Parsed(0, s[1..])
    else if |s| < 2 then Cut
    else if !s[1] then ReadNumber(s[2..], 12)
    else if |s| < 3 then Cut
    else if !s[2] then ReadNumber(s[3..], 17)
    else ReadNumber(s[3..], 64)
  }

  /** The number that the code of `n` stands for. */
  function Stored(n: int): (r: int)
    ensures -TWO63 <= r < TWO63
  {
    if -65536 <= n <= 65535 then n else Signed64(ToBits(n, 64)); Signed(ToBits(n, 64))
  }

  /** Every 64-bit number is stored as it is, and no other number is. */
  lemma {:induction false} StoredExactly(n: int)
    ensures Stored(n) == n <==> -TWO63 <= n < TWO63
  {
    Pow2Of63();
    if !(-65536 <= n <= 65535) && -TWO63 <= n < TWO63 {
      SignedRoundTrip(n, 64);
    }
  }

  lemma {:induction false} NumberReads(p: seq<bool>, n: int, k: nat, rest: seq<bool>)
    requires 0 < k <= 64
    ensures ReadNumber((p + ToBits(n, k) + rest)[|p|..], k).Parsed?
    ensures ReadNumber((p + ToBits(n, k) + rest)[|p|..], k) == Parsed(Signed(ToBits(n, k)), rest)
  {
    hide Signed, ToBits;
    DropPrefix(p, ToBits(n, k), rest);
    TakeFront(ToBits(n, k), rest);
  }

  /** Reading an integer code consumes exactly that code, whatever bits follow. */
  lemma {:induction false} IntCodeReads(n: int, rest: seq<bool>)
    ensures ReadInt(IntCode(n) + rest) == Parsed(Stored(n), rest)
  {
    hide Signed, ToBits, ReadNumber, Take;
    var s := IntCode(n) + rest;
    if n == 0 {
      assert s[1..] == rest;
    } else if -2048 <= n <= 2047 {
      SmallRoundTrip(n, 12);
      NumberReads([true, false], n, 12, rest);
    } else if -65536 <= n <= 65535 {
      SmallRoundTrip(n, 17);
      NumberReads([true, true, false], n, 17, rest);
    } else {
      NumberReads([true, true, true], n, 64, rest);
    }
  }

  lemma {:induction false} SmallRoundTrip(n: int, k: nat)
    requires (k == 12 && -2048 <= n <= 2047) || (k == 17 && -65536 <= n <= 65535)
    ensures Signed(ToBits(n, k)) == n
  {
    Pow2Values();
    Pow2Of63();
    SignedRoundTrip(n, k);
  }

  /** No code of a 64-bit number begins the code of another. */
  lemma {:induction false} PrefixFree(a: int, b: int, tail: seq<bool>)
    requires -TWO63 <= a < TWO63 && -TWO63 <= b < TWO63 && IntCode(b) == IntCode(a) + tail
    ensures a == b && tail == []
  {
    hide IntCode, ReadInt, Stored;
    IntCodeReads(a, tail);
    assert IntCode(b) + [] == IntCode(b);
    IntCodeReads(b, []);
    StoredExactly(a);
    StoredExactly(b);
  }

  // ---------------------------------------------------------------- values

  /** Rounding toward zero. */
  function Truncated(v: real): int { if v >= 0.0 then v.Floor else -(-v).Floor }

  /** Rounding to the nearest whole number, halves away from zero. */
  function Rounded(v: real): int { if v >= 0.0 then (v + 0.5).Floor else -(-v + 0.5).Floor }

  /** `m_precision`: a power of ten; only that it is a positive whole number is used. */
  type Precision = p: nat | p > 0 witness 1

  function Scale(v: real, p: Precision): real { v * p as real }

  function Over(x: real, p: Precision): real { x / p as real }

  /** One unit of precision. */
  function Unit(p: Precision): real { Over(1.0, p) }

  datatype Quantum = Quantum(scaled: bool, n: int)

  /** What is stored of the difference `v` of two values. */
  function Quantise(v: real, p: Precision): Quantum {
    var f := v - Truncated(v) as real;
    if -Unit(p) < f < Unit(p) then Quantum(false, Truncated(v)) else Quantum(true, Rounded(Scale(v, p)))
  }

  function Approx(q: Quantum, p: Precision): real {
    if q.scaled then Over(q.n as real, p) else q.n as real
  }

  predicate Near(a: real, b: real, bound: real) { -bound <= a - b <= bound }

  lemma {:induction false} RoundedNear(x: real)
    ensures Near(Rounded(x) as real, x, 0.5)
  {
  }

  lemma {:induction false} OverScale(v: real, p: Precision)
    ensures Over(Scale(v, p), p) == v && Scale(Over(v, p), p) == v
  {
  }

  lemma {:induction false} ScaleMono(a: real, b: real, p: Precision)
    requires a < b
    ensures Scale(a, p) < Scale(b, p)
  {
  }

  lemma {:induction false} OverMono(a: real, b: real, p: Precision)
    requires a <= b
    ensures Over(a, p) <= Over(b, p)
  {
  }

  lemma {:induction false} OverDiff(x: real, y: real, p: Precision)
    ensures Over(x - y, p) == Over(x, p) - Over(y, p)
  {
  }

  lemma {:induction false} ScaleDiff(x: real, y: real, p: Precision)
    ensures Scale(x - y, p) == Scale(x, p) - Scale(y, p)
  {
  }

  lemma {:induction false} ScaleWhole(t: int, p: Precision)
    ensures Scale(t as real, p) == (t * p) as real
  {
  }

  lemma {:induction false} ScaledNear(n: int, v: real, p: Precision)
    requires Near(n as real, Scale(v, p), 0.5)
    ensures Near(Over(n as real, p), v, Unit(p))
  {
    hide Scale, Over;
    var d := n as real - Scale(v, p);
    OverScale(v, p);
    OverDiff(n as real, Scale(v, p), p);
    OverMono(d, 1.0, p);
    OverMono(-1.0, d, p);
    OverDiff(0.0, 1.0, p);
    OverDiff(1.0, 1.0, p);
  }

  /** A stored difference is off by at most one unit of precision. */
  lemma {:induction false} QuantiseNear(v: real, p: Precision)
    ensures Near(Approx(Quantise(v, p), p), v, Unit(p))
  {
    hide Rounded, Truncated, Scale, Over;
    var f := v - Truncated(v) as real;
    if !(-Unit(p) < f < Unit(p)) {
      RoundedNear(Scale(v, p));
      ScaledNear(Rounded(Scale(v, p)), v, p);
    }
  }

  predicate Whole(x: real) { x.Floor as real == x }

  /** `v` is a whole number of units: with precision 10^k, a number with at most k decimals. */
  predicate OnGrid(v: real, p: Precision) { Whole(Scale(v, p)) }

  /** A fraction smaller than a unit that is on the grid is no fraction at all. */
  lemma {:induction false} NoSmallFraction(f: real, p: Precision)
    requires -Unit(p) < f < Unit(p) && OnGrid(f, p)
    ensures f == 0.0
  {
    hide Scale, Over;
    OverScale(1.0, p);
    OverScale(f, p);
    OverScale(0.0, p);
    ScaleMono(f, Unit(p), p);
    ScaleMono(-Unit(p), f, p);
    ScaleDiff(0.0, Unit(p), p);
    ScaleDiff(0.0, 0.0, p);
  }

  lemma {:induction false} GridFraction(v: real, t: int, p: Precision)
    requires OnGrid(v, p)
    ensures OnGrid(v - t as real, p)
  {
    hide Scale;
    ScaleDiff(v, t as real, p);
    ScaleWhole(t, p);
    assert Scale(v - t as real, p) == (Scale(v, p).Floor - t * p) as real;
  }

  lemma {:induction false} GridRounds(x: real)
    requires Whole(x)
    ensures Rounded(x) as real == x
  {
    var m := x.Floor;
    if x >= 0.0 { FloorIs(x + 0.5, m); } else { FloorIs(-x + 0.5, -m); }
  }

  lemma {:induction false} FloorIs(y: real, m: int)
    requires m as real <= y < m as real + 1.0
    ensures y.Floor == m
  {
  }

  /** Differences on the grid are stored exactly. */
  lemma {:induction false} QuantiseExact(v: real, p: Precision)
    requires OnGrid(v, p)
    ensures Approx(Quantise(v, p), p) == v
  {
    hide Truncated, Rounded, Scale, Over, Whole;
    var f := v - Truncated(v) as real;
    if -Unit(p) < f < Unit(p) {
      GridFraction(v, Truncated(v), p);
      NoSmallFraction(f, p);
    } else {
      GridRounds(Scale(v, p));
      OverScale(v, p);
    }
  }

  function FloatCode(v: real, p: Precision): (r: seq<bool>)
    ensures |r| >= 2
  {
    [Quantise(v, p).scaled] + IntCode(Quantise(v, p).n)
  }

  /** `uncompress_f`. */
  function ReadFloat(s: seq<bool>, p: Precision): (r: Parsed<real>)
    ensures r.Parsed? ==> |r.rest| < |s|
  {
    if |s| < 1 then Cut
    else match ReadInt(s[1..])
      case Cut => Cut
      case Parsed(n, rest) => Parsed(Approx(Quantum(s[0], n), p), rest)
  }

  /** The difference, scaled or not, is a 64-bit number. */
  predicate Scales(v: real, p: Precision) { -TWO63 <= Quantise(v, p).n < TWO63 }

  /** The difference that is read back. */
  function StoredFloat(v: real, p: Precision): real {
    Approx(Quantum(Quantise(v, p).scaled, Stored(Quantise(v, p).n)), p)
  }

  lemma {:induction false} FloatCodeReads(v: real, p: Precision, rest: seq<bool>)
    ensures ReadFloat(FloatCode(v, p) + rest, p) == Parsed(StoredFloat(v, p), rest)
  {
    hide IntCode, ReadInt, Stored, Approx, Quantise;
    var q := Quantise(v, p);
    assert (FloatCode(v, p) + rest)[1..] == IntCode(q.n) + rest;
    IntCodeReads(q.n, rest);
  }

  lemma {:induction false} StoredFloatNear(v: real, p: Precision)
    requires Scales(v, p)
    ensures Near(StoredFloat(v, p), v, Unit(p))
    ensures OnGrid(v, p) ==> StoredFloat(v, p) == v
  {
    hide Approx, Quantise, Stored, OnGrid;
    StoredExactly(Quantise(v, p).n);
    QuantiseNear(v, p);
    if OnGrid(v, p) { QuantiseExact(v, p); }
  }
}
