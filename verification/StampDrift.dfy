/**
 How far the reader of a page drifts from the timestamps that were written, when the 32 bits of the header or the
 codes of deltas of deltas do not hold them: the sums of what was lost, in the 64-bit arithmetic of the source.
 */
module StampDrift {
  import opened StreamCode
  import opened Series

  /** What a delta of deltas is stored as, and whether the writer itself goes on from a first delta cut to 32 bits. */
  datatype Stamping = Stamping(stored: int -> int, cut: bool)

  function Offset<V>(start: U64, ps: seq<DataPoint<V>>): int
    requires ps != []
  {
    ps[0].t - start
  }

  /** The delta that the writer goes on from. */
  function WriterDelta<V>(c: Stamping, start: U64, ps: seq<DataPoint<V>>): int
    requires ps != []
  {
    if |ps| == 1 && c.cut then Offset(start, ps) % TWO32 else LastDelta(start, ps)
  }

  /** The last delta of deltas that was written. */
  function LastDod<V>(c: Stamping, start: U64, ps: seq<DataPoint<V>>): int
    requires |ps| > 1
  {
    AsInt64((LastDelta(start, ps) - WriterDelta(c, start, ps[..|ps| - 1])) % TWO64)
  }

  /** What the reader's delta is off by: the sum of what was lost of the deltas of deltas. */
  function DeltaDrift<V>(c: Stamping, start: U64, ps: seq<DataPoint<V>>): int
    requires ps != []
  {
    if |ps| == 1 then Offset(start, ps) % TWO32 - WriterDelta(c, start, ps)
    else
      DeltaDrift(c, start, ps[..|ps| - 1]) + c.stored(LastDod(c, start, ps)) - LastDod(c, start, ps)
  }

  /** What the reader's time is off by: the sum of what its deltas were off by. */
  function TimeDrift<V>(c: Stamping, start: U64, ps: seq<DataPoint<V>>): int
    requires ps != []
  {
    if |ps| == 1 then Offset(start, ps) % TWO32 - Offset(start, ps)
    else TimeDrift(c, start, ps[..|ps| - 1]) + DeltaDrift(c, start, ps)
  }

  /** Neither time nor delta is off in the end, as 64-bit numbers. */
  predicate InStep<V>(c: Stamping, start: U64, ps: seq<DataPoint<V>>)
    requires ps != []
  {
    DeltaDrift(c, start, ps) % TWO64 == 0 && TimeDrift(c, start, ps) % TWO64 == 0
  }

  /** The reader is at time `t` and delta `d`. */
  predicate ReaderAt<V>(c: Stamping, start: U64, ps: seq<DataPoint<V>>, t: U64, d: U64)
    requires ps != []
  {
    && d == (WriterDelta(c, start, ps) + DeltaDrift(c, start, ps)) % TWO64
    && t == (ps[|ps| - 1].t + TimeDrift(c, start, ps)) % TWO64
  }

  // ---------------------------------------------------------------- arithmetic modulo 2^64

  lemma {:induction false} ModAdd(a: int, b: int)
    ensures (a % TWO64 + b) % TWO64 == (a + b) % TWO64
  {
    var q := a / TWO64;
    assert a == q * TWO64 + a % TWO64;
    ModShift(a % TWO64 + b, q);
  }

  lemma {:induction false} ModShift(a: int, q: int)
    ensures (a + q * TWO64) % TWO64 == a % TWO64
  {
    var k := a / TWO64;
    assert a + q * TWO64 == (k + q) * TWO64 + a % TWO64;
  }

  lemma {:induction false} WrapIsMod(n: int)
    requires -TWO64 <= n < 2 * TWO64
    ensures Wrap(n) == n % TWO64
  {
    if n < 0 { ModShift(n, 1); } else if n >= TWO64 { ModShift(n, -1); }
  }

  lemma {:induction false} SameIffZero(n: U64, drift: int)
    ensures (n + drift) % TWO64 == n <==> drift % TWO64 == 0
  {
    ModAdd(drift, n);
    var d := drift % TWO64;
    WrapIsMod(d + n);
  }

  // ---------------------------------------------------------------- one more point

  lemma {:induction false} ReaderFirst<V>(c: Stamping, start: U64, p: DataPoint<V>, t: U64, d: U64)
    requires start <= p.t && d == (p.t - start) % TWO32 && t == Wrap(start + d)
    ensures ReaderAt(c, start, [p], t, d)
  {
    WrapIsMod(start + d);
    assert d % TWO64 == d;
  }

  lemma {:induction false} DriftSnoc<V>(c: Stamping, start: U64, ps: seq<DataPoint<V>>, p: DataPoint<V>)
    requires ps != []
    ensures var qs := ps + [p];
            var dod := AsInt64((p.t - ps[|ps| - 1].t - WriterDelta(c, start, ps)) % TWO64);
            && WriterDelta(c, start, qs) == p.t - ps[|ps| - 1].t
            && DeltaDrift(c, start, qs) == DeltaDrift(c, start, ps) + c.stored(dod) - dod
            && TimeDrift(c, start, qs) == TimeDrift(c, start, ps) + DeltaDrift(c, start, qs)
  {
    assert (ps + [p])[..|ps|] == ps;
  }

  /** The next point moves the reader by what was stored of its delta of deltas. */
  lemma {:induction false} ReaderNext<V>(c: Stamping, start: U64, ps: seq<DataPoint<V>>, p: DataPoint<V>,
                                         prevDelta: U64, t: U64, d: U64, t': U64, d': U64)
    requires ps != [] && ReaderAt(c, start, ps, t, d) && ps[|ps| - 1].t <= p.t && prevDelta == WriterDelta(c, start, ps)
    requires var stored := c.stored(Dod(p.t - ps[|ps| - 1].t, prevDelta));
             -TWO63 <= stored < TWO63 && d' == Wrap(d + stored) && t' == Wrap(t + d')
    ensures ReaderAt(c, start, ps + [p], t', d')
  {
    hide DeltaDrift, TimeDrift, WriterDelta, Wrap, Dod;
    var last := ps[|ps| - 1].t;
    DriftSnoc(c, start, ps, p);
    DodIs(p.t - last, prevDelta);
    var stored := c.stored(Dod(p.t - last, prevDelta));
    Moves(prevDelta, p.t - last, last, DeltaDrift(c, start, ps), TimeDrift(c, start, ps), stored, t, d, t', d');
  }

  lemma {:induction false} Moves(prevDelta: U64, delta: U64, last: U64, dd: int, td: int, stored: int,
                                 t: U64, d: U64, t': U64, d': U64)
    requires d == (prevDelta + dd) % TWO64 && t == (last + td) % TWO64
    requires -TWO63 <= stored < TWO63 && d' == Wrap(d + stored) && t' == Wrap(t + d')
    ensures var drift := dd + stored - Dod(delta, prevDelta);
            d' == (delta + drift) % TWO64 && t' == (last + delta + (td + drift)) % TWO64
  {
    hide Wrap, Dod;
    var drift := dd + stored - Dod(delta, prevDelta);
    WrapIsMod(d + stored);
    ModAdd(prevDelta + dd, stored);
    DodAdds(delta, prevDelta, drift);
    WrapIsMod(t + d');
    ModAdd(delta + drift, t);
    ModAdd(last + td, delta + drift);
  }

  lemma {:induction false} DodIs(delta: U64, prevDelta: U64)
    ensures Dod(delta, prevDelta) == AsInt64((delta - prevDelta) % TWO64)
  {
    WrapIsMod(delta - prevDelta);
  }

  lemma {:induction false} DodAdds(delta: U64, prevDelta: U64, rest: int)
    ensures (prevDelta + Dod(delta, prevDelta) + rest) % TWO64 == (delta + rest) % TWO64
  {
    DodIs(delta, prevDelta);
    var n := delta - prevDelta;
    if n < 0 { ModShift(n, 1); }
    var q := (prevDelta + Dod(delta, prevDelta) - delta) / TWO64;
    assert prevDelta + Dod(delta, prevDelta) == delta + q * TWO64;
    ModShift(delta + rest, q);
  }

  /** The reader ends where the writer is exactly when it is in step. */
  lemma {:induction false} EndsWhereWriterIs<V>(c: Stamping, start: U64, ps: seq<DataPoint<V>>, t: U64, d: U64,
                                                delta: U64)
    requires ps != [] && ReaderAt(c, start, ps, t, d) && delta == WriterDelta(c, start, ps)
    ensures t == ps[|ps| - 1].t && d == delta <==> InStep(c, start, ps)
  {
    hide DeltaDrift, TimeDrift, WriterDelta;
    SameIffZero(delta, DeltaDrift(c, start, ps));
    SameIffZero(ps[|ps| - 1].t, TimeDrift(c, start, ps));
  }
}
