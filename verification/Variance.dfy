/**
 One-pass deviation over the reals: `AggregatorDev::stddev` of src/agg/aggregate.cpp and the streaming
 `DownsamplerDev` of src/agg/down.cpp.  The square root itself is a parameter.
 */
module Variance {
  import opened Stats

  function Mean(vs: seq<real>): real
    requires vs != []
  {
    Sum(vs) / |vs| as real
  }

  /** The sum of squared distances from `m`. */
  function Squares(vs: seq<real>, m: real): real {
    if vs == [] then 0.0 else Squares(vs[..|vs| - 1], m) + Square(vs[|vs| - 1] - m)
  }

  function Square(x: real): real { x * x }

  /** The textbook population variance. */
  function PopulationVariance(vs: seq<real>): real
    requires vs != []
  {
    Squares(vs, Mean(vs)) / |vs| as real
  }

  // ---------------------------------------------------------------- algebra

  lemma {:induction false} MulMinusReal(n: real, a: real, b: real)
    ensures n * (a + b) == n * a + n * b && n * (a - b) == n * a - n * b
  {
  }

  lemma {:induction false} DivideMultiply(x: real, n: real)
    requires n > 0.0
    ensures (x / n) * n == x && n * (x / n) == x
  {
  }

  lemma {:induction false} DivideUnique(x: real, n: real, q: real)
    requires n > 0.0 && n * q == x
    ensures x / n == q
  {
  }

  lemma {:induction false} SquareShift(x: real, k: real)
    ensures Square(x - k) == Square(x) - (2.0 * k) * x + Square(k)
  {
  }

  /** Squared distances from a shifted centre. */
  lemma {:induction false} SquaresShift(vs: seq<real>, m: real, k: real)
    ensures Squares(vs, m + k) == Squares(vs, m) - (2.0 * k) * (Sum(vs) - |vs| as real * m) + |vs| as real * Square(k)
  {
    hide Square;
    if vs == [] {
      assert (2.0 * k) * 0.0 == 0.0 && 0.0 * m == 0.0 && 0.0 * Square(k) == 0.0;
    } else {
      var j := |vs| - 1;
      var us, x := vs[..j], vs[j];
      SquaresShift(us, m, k);
      SumSnoc(us, x);
      assert us + [x] == vs;
      SquareShift(x - m, k);
      assert x - (m + k) == x - m - k;
      assert Squares(vs, m + k) == Squares(us, m + k) + Square(x - m - k);
      assert Squares(vs, m) == Squares(us, m) + Square(x - m);
      ShiftStep(|us| as real, |vs| as real, Sum(us), Sum(vs), m, k, x, Square(k));
    }
  }

  lemma {:induction false} ShiftStep(n: real, n': real, s: real, s': real, m: real, k: real, x: real, kk: real)
    requires n' == n + 1.0 && s' == s + x
    ensures (2.0 * k) * (s - n * m) + (2.0 * k) * (x - m) == (2.0 * k) * (s' - n' * m)
    ensures n' * kk == n * kk + kk
  {
    MulMinusReal(m, n, 1.0);
    MulMinusReal(2.0 * k, s - n * m, x - m);
    assert s - n * m + (x - m) == s' - n' * m;
  }

  /** Moving the mean by `e`, where `e` is the (n+1)-th part of `d`, costs `d * (d - e)`. */
  lemma {:induction false} WelfordAlgebra(n: real, d: real, e: real)
    requires (n + 1.0) * e == d
    ensures n * Square(e) + Square(d - e) == d * (d - e)
  {
    MulMinusReal(d - e, d, e);
    assert Square(d - e) == (d - e) * d - (d - e) * e;
    MulMinusReal(e, d, e);
    assert e * d == e * ((n + 1.0) * e) == (n + 1.0) * Square(e);
    MulMinusReal(Square(e), n, 1.0);
  }

  // ---------------------------------------------------------------- one more value

  lemma {:induction false} MeanTimes(vs: seq<real>)
    requires vs != []
    ensures |vs| as real * Mean(vs) == Sum(vs)
  {
    hide Sum;
    DivideMultiply(Sum(vs), |vs| as real);
  }

  /** The mean is updated by the (n+1)-th part of the distance of the new value. */
  lemma {:induction false} MeanSnoc(vs: seq<real>, x: real)
    requires vs != []
    ensures Mean(vs + [x]) == Mean(vs) + (x - Mean(vs)) / (|vs| + 1) as real
  {
    hide Sum;
    var n, m := |vs| as real, Mean(vs);
    var e := (x - m) / (n + 1.0);
    MeanTimes(vs);
    SumSnoc(vs, x);
    DivideMultiply(x - m, n + 1.0);
    MulMinusReal(n + 1.0, m, e);
    MulMinusReal(m, n, 1.0);
    DivideUnique(Sum(vs) + x, n + 1.0, m + e);
  }

  /** The recurrence for the sum of squared deviations. */
  lemma {:induction false} SquaresSnoc(vs: seq<real>, x: real)
    requires vs != []
    ensures var m, m' := Mean(vs), Mean(vs + [x]);
            Squares(vs + [x], m') == Squares(vs, m) + (x - m) * (x - m')
  {
    hide Sum, Square;
    var n, m := |vs| as real, Mean(vs);
    var d := x - m;
    var e := d / (n + 1.0);
    MeanSnoc(vs, x);
    DivideMultiply(d, n + 1.0);
    SquaresShift(vs, m, e);
    MeanTimes(vs);
    assert (2.0 * e) * 0.0 == 0.0;
    WelfordAlgebra(n, d, e);
    assert (vs + [x])[..|vs|] == vs && (vs + [x])[|vs|] == x;
    assert x - (m + e) == d - e;
  }

  lemma {:induction false} OneValue(x: real)
    ensures Mean([x]) == x && Squares([x], x) == 0.0 && PopulationVariance([x]) == 0.0
  {
    assert [x][..0] == [] && [x][1..] == [];
    assert Sum([x]) == x && Square(0.0) == 0.0;
  }

  // ---------------------------------------------------------------- the batch form

  datatype Deviation = NotANumber | Number(v: real)

  /** `stddev`: one pass over the values, with a running mean; `sqrt` is the square root of the C library. */
  method StdDev(values: seq<real>, sqrt: real -> real) returns (r: Deviation)
    requires sqrt(0.0) == 0.0
    ensures r == if values == [] then NotANumber else Number(sqrt(PopulationVariance(values)))
  {
    hide Sum, Squares, Mean;
    if values == [] {
      return NotANumber;
    } else if |values| == 1 {
      OneValue(values[0]);
      assert values == [values[0]];
      return Number(0.0);
    }
    var oldMean, newMean, m2, n := values[0], 0.0, 0.0, 1;
    OneValue(values[0]);
    assert values[..1] == [values[0]];
    while n < |values|
      invariant 1 <= n <= |values|
      invariant oldMean == Mean(values[..n]) && m2 == Squares(values[..n], oldMean)
    {
      var x := values[n];
      MeanSnoc(values[..n], x);
      SquaresSnoc(values[..n], x);
      assert values[..n + 1] == values[..n] + [x];
      newMean := oldMean + (x - oldMean) / (n + 1) as real;
      m2 := m2 + (x - oldMean) * (x - newMean);
      oldMean := newMean;
      n := n + 1;
    }
    assert values[..n] == values;
    r := Number(sqrt(m2 / n as real));
  }

  // ---------------------------------------------------------------- the streaming form

  /** The accumulator of `DownsamplerDev` over the values of one interval. */
  class DevAccumulator {
    var count: nat
    var mean: real
    var m2: real
    ghost var seen: seq<real>

    ghost predicate Valid()
      reads this
    {
      seen != [] && count == |seen| && mean == Mean(seen) && m2 == Squares(seen, mean)
    }

    /** The first value of an interval. */
    constructor (v: real)
      ensures Valid() && seen == [v]
    {
      m2, count, mean, seen := 0.0, 1, v, [v];
      OneValue(v);
    }

    /** A further value of the same interval. */
    method Add(v: real)
      requires Valid()
      modifies this
      ensures Valid() && seen == old(seen) + [v]
    {
      hide Sum, Squares, Mean;
      MeanSnoc(seen, v);
      SquaresSnoc(seen, v);
      count := count + 1;
      var newMean := mean + (v - mean) / count as real;
      m2 := m2 + (v - mean) * (v - newMean);
      mean := newMean;
      seen := seen + [v];
    }

    /** `calc_dev`. */
    method CalcDev(sqrt: real -> real) returns (r: real)
      requires Valid()
      ensures r == sqrt(PopulationVariance(seen))
    {
      r := sqrt(m2 / count as real);
    }
  }

  /** Both forms give the same deviation for every list of values. */
  method Streamed(values: seq<real>, sqrt: real -> real) returns (r: Deviation)
    ensures r == if values == [] then NotANumber else Number(sqrt(PopulationVariance(values)))
  {
    hide PopulationVariance, Sum, Squares, Mean;
    if values == [] { return NotANumber; }
    var acc := new DevAccumulator(values[0]);
    var i := 1;
    assert values[..1] == [values[0]];
    while i < |values|
      invariant 1 <= i <= |values| && fresh(acc) && acc.Valid() && acc.seen == values[..i]
    {
      acc.Add(values[i]);
      assert values[..i + 1] == values[..i] + [values[i]];
      i := i + 1;
    }
    assert values[..i] == values;
    var d := acc.CalcDev(sqrt);
    r := Number(d);
  }
}
