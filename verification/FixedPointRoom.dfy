/**
 Which points a version 3 page accepts: the widths of the codes in numbers, and that a point is refused exactly when
 its width does not fit.
 */
module FixedPointRoom {
  import opened BitCode
  import opened StreamCode
  import opened Series
  import opened FixedPointCode
  import opened FixedPointStream
  import opened FixedPointTheorems

  /** The bits for an integer. */
  function IntWidth(n: int): nat {
    if n == 0 then 1
    else if -2048 <= n <= 2047 then 14
    else if -65536 <= n <= 65535 then 20
    else 67
  }

  /** `n` is the whole part of `v`, and what it leaves is less than a unit. */
  predicate NearWhole(v: real, n: int, p: Precision) {
    && -1.0 / p as real < v - n as real < 1.0 / p as real
    && (if v >= 0.0 then 0.0 <= v - n as real < 1.0 else -1.0 < v - n as real <= 0.0)
  }

  /** `n` is the nearest whole number of units, of two the one further from zero. */
  predicate Nearest(v: real, n: int, p: Precision) {
    var x := v * p as real;
    if v >= 0.0 then n as real - 0.5 <= x < n as real + 0.5 else n as real - 0.5 < x <= n as real + 0.5
  }

  /** `n` is the number that is stored of the difference `v`: its whole part if that is near enough, else in units. */
  ghost predicate Stands(v: real, n: int, p: Precision) {
    NearWhole(v, n, p) || (Nearest(v, n, p) && forall m: int :: !NearWhole(v, m, p))
  }

  lemma {:induction false} WholeIsTruncated(v: real, n: int, p: Precision)
    ensures NearWhole(v, n, p) <==> n == Truncated(v) && -Unit(p) < v - n as real < Unit(p)
  {
    if v >= 0.0 {
      assert 0.0 <= v - n as real < 1.0 <==> n == v.Floor;
    } else {
      assert -1.0 < v - n as real <= 0.0 <==> -n == (-v).Floor;
    }
  }

  lemma {:induction false} NearestIsRounded(v: real, n: int, p: Precision)
    ensures Nearest(v, n, p) <==> n == Rounded(Scale(v, p))
  {
    var x := Scale(v, p);
    assert v >= 0.0 <==> x >= 0.0;
    if v >= 0.0 {
      assert n as real - 0.5 <= x < n as real + 0.5 <==> n == (x + 0.5).Floor;
    } else {
      assert n as real - 0.5 < x <= n as real + 0.5 <==> -n == (-x + 0.5).Floor;
    }
  }

  /** Exactly one number stands for a difference, and it is the one that is stored, marked if it is in units. */
  lemma {:induction false} QuantumStands(v: real, n: int, p: Precision)
    ensures Stands(v, n, p) <==> n == Quantise(v, p).n
    ensures Quantise(v, p).scaled <==> !NearWhole(v, Quantise(v, p).n, p)
  {
    hide NearWhole, Nearest, Truncated, Rounded, Unit, Scale;
    var q := Quantise(v, p);
    WholeIsTruncated(v, n, p);
    WholeIsTruncated(v, q.n, p);
    WholeIsTruncated(v, Truncated(v), p);
    NearestIsRounded(v, n, p);
    if q.scaled {
      forall m: int ensures !NearWhole(v, m, p) { WholeIsTruncated(v, m, p); }
    }
  }

  // ---------------------------------------------------------------- points

  /** The bits for a difference of values. */
  function FloatWidth(v: real, p: Precision): nat { 1 + IntWidth(Quantise(v, p).n) }

  function PointWidth(f: Format, e: Enc, t: U64, v: real): nat
    requires e.prevT <= t
  {
    IntWidth(Dod(t - e.prevT, e.prevDelta)) + FloatWidth(v - e.prevV, f.p)
  }

  /** The page has room for the point, or the point needs none because it is dropped. */
  predicate Takes(f: Format, e: Enc, t: U64, v: real) {
    if e.count == 0 then |e.bits| + 96 <= e.room
    else if t < e.prevT then true
    else |e.bits| + PointWidth(f, e, t, v) <= e.room
  }

  lemma {:induction false} IntTakes(n: int)
    ensures |IntCode(n)| == IntWidth(n)
  {
    hide ToBits;
  }

  /** A call is refused exactly when the width of its point does not fit, and an accepted one takes that width. */
  lemma {:induction false} AcceptedIff(f: Format, e: Enc, t: U64, v: real)
    requires e.start <= t
    ensures Compress(f, e, t, v).accepted <==> Takes(f, e, t, v)
    ensures e.count != 0 && e.prevT <= t && Takes(f, e, t, v) ==>
              |Compress(f, e, t, v).enc.bits| == |e.bits| + PointWidth(f, e, t, v)
  {
    hide HeaderCode, IntCode, IntWidth, Quantise;
    if e.count != 0 && e.prevT <= t {
      IntTakes(Dod(t - e.prevT, e.prevDelta));
      IntTakes(Quantise(v - e.prevV, f.p).n);
    }
  }

  /** For every run: it is refused at the first call whose point does not fit the page as it then is. */
  lemma {:induction false} RefusedIff(f: Format, start: U64, room: nat, calls: seq<Point>)
    requires Callable(start, calls) && calls != []
    ensures var k := |calls| - 1;
            var tr := Play(f, start, room, calls[..k]);
            Play(f, start, room, calls).refused <==> tr.refused || !Takes(f, tr.enc, calls[k].t, calls[k].v)
  {
    hide Compress, Takes;
    var k := |calls| - 1;
    AcceptedIff(f, Play(f, start, room, calls[..k]).enc, calls[k].t, calls[k].v);
  }

  /** 135 free bits suffice for any later point, and 96 for the first. */
  lemma {:induction false} AlwaysFits(f: Format, e: Enc, t: U64, v: real)
    requires |e.bits| + (if e.count == 0 then 96 else 135) <= e.room
    ensures Takes(f, e, t, v)
  {
    hide Quantise;
  }
}
