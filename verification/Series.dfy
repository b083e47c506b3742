/**
 A series of points handed to a page compressor of src/core/compress.cpp, and what a caller can check
 about its timestamps.
 */
module Series {
  import opened BitCode
  import opened StreamCode

  datatype DataPoint<V> = Point(t: U64, v: V)

  /** No point is before the start of the page. */
  predicate Callable<V>(start: U64, calls: seq<DataPoint<V>>) {
    forall i | 0 <= i < |calls| :: start <= calls[i].t
  }

  /** A point older than the last one kept is dropped. */
  function Keep<V>(kept: seq<DataPoint<V>>, p: DataPoint<V>): seq<DataPoint<V>> {
    if kept != [] && kept[|kept| - 1].t > p.t then kept else kept + [p]
  }

  /** The points of a series that a page keeps. */
  function Kept<V>(ps: seq<DataPoint<V>>): seq<DataPoint<V>>
    decreases |ps|
  {
    if ps == [] then [] else Keep(Kept(ps[..|ps| - 1]), ps[|ps| - 1])
  }

  lemma {:induction false} KeptSnoc<V>(ps: seq<DataPoint<V>>)
    requires ps != []
    ensures Kept(ps) == Keep(Kept(ps[..|ps| - 1]), ps[|ps| - 1])
  {
  }

  /** The last delta of a series that starts at `start`. */
  function LastDelta<V>(start: U64, ps: seq<DataPoint<V>>): int
    requires ps != []
  {
    if |ps| == 1 then ps[0].t - start else ps[|ps| - 1].t - ps[|ps| - 2].t
  }

  /** The delta to `p` differs from the one before it by a number of `w` bits. */
  predicate NextInRange<V>(start: U64, ps: seq<DataPoint<V>>, p: DataPoint<V>, w: nat)
    requires ps != [] && w > 0
  {
    ps[|ps| - 1].t <= p.t && 0 <= LastDelta(start, ps) && Fits(Dod(p.t - ps[|ps| - 1].t, LastDelta(start, ps)), w)
  }

  /** The first point is within 32 bits of the start, and deltas differ by numbers of `w` bits. */
  predicate InRange<V>(start: U64, ps: seq<DataPoint<V>>, w: nat)
    requires w > 0
    decreases |ps|
  {
    if ps == [] then true
    else if |ps| == 1 then 0 <= ps[0].t - start < TWO32
    else InRange(start, ps[..|ps| - 1], w) && NextInRange(start, ps[..|ps| - 1], ps[|ps| - 1], w)
  }

  lemma {:induction false} InRangeSnoc<V>(start: U64, ps: seq<DataPoint<V>>, p: DataPoint<V>, w: nat)
    requires ps != [] && w > 0
    ensures InRange(start, ps + [p], w) <==> InRange(start, ps, w) && NextInRange(start, ps, p, w)
  {
    hide NextInRange;
    assert (ps + [p])[..|ps|] == ps;
  }

  lemma {:induction false} InRangeFirst<V>(start: U64, ps: seq<DataPoint<V>>, w: nat)
    requires ps != [] && w > 0 && InRange(start, ps, w)
    ensures 0 <= ps[0].t - start < TWO32
    decreases |ps|
  {
    hide NextInRange;
    if |ps| > 1 { InRangeFirst(start, ps[..|ps| - 1], w); }
  }
}
