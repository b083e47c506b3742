/** Counts, extremes and sums: what rollup entries hold and downsamplers gather. */
module Stats {
  /**
   The largest finite double, 2^1024 - 2^971; every value of a point lies between it and its negative.
   It is written as (2^54 - 2) times five times over 2^194.
   */
  const LIMIT: real :=
    18014398509481982.0
    * 25108406941546723055343157692830665664409421777856138051584.0
    * 25108406941546723055343157692830665664409421777856138051584.0
    * 25108406941546723055343157692830665664409421777856138051584.0
    * 25108406941546723055343157692830665664409421777856138051584.0
    * 25108406941546723055343157692830665664409421777856138051584.0

  datatype Stats = Stats(cnt: nat, min: real, max: real, sum: real)

  const Empty := Stats(0, LIMIT, -LIMIT, 0.0)

  function Min(a: real, b: real): real { if b < a then b else a }

  function Max(a: real, b: real): real { if a < b then b else a }

  function Added(s: Stats, v: real): Stats {
    Stats(s.cnt + 1, Min(s.min, v), Max(s.max, v), s.sum + v)
  }

  function StatsOf(vs: seq<real>): Stats {
    if vs == [] then Empty else Added(StatsOf(vs[..|vs| - 1]), vs[|vs| - 1])
  }

  predicate Finite(vs: seq<real>) { forall i | 0 <= i < |vs| :: -LIMIT <= vs[i] <= LIMIT }

  function Sum(vs: seq<real>): real { if vs == [] then 0.0 else vs[0] + Sum(vs[1..]) }

  lemma {:induction false} SumSnoc(vs: seq<real>, v: real)
    ensures Sum(vs + [v]) == Sum(vs) + v
  {
    if vs == [] {
      assert [v][1..] == [] && vs + [v] == [v];
    } else {
      SumSnoc(vs[1..], v);
      assert (vs + [v])[1..] == vs[1..] + [v];
    }
  }

  lemma {:induction false} StatsSnoc(vs: seq<real>, v: real)
    ensures StatsOf(vs + [v]) == Added(StatsOf(vs), v)
  {
    assert (vs + [v])[..|vs|] == vs;
  }

  /** An entry holds the number of the values, the least, the greatest and the sum. */
  lemma {:induction false} StatsMeaning(vs: seq<real>)
    requires Finite(vs)
    ensures StatsOf(vs).cnt == |vs| && StatsOf(vs).sum == Sum(vs)
    ensures forall i | 0 <= i < |vs| :: StatsOf(vs).min <= vs[i] <= StatsOf(vs).max
    ensures vs != [] ==> StatsOf(vs).min in vs && StatsOf(vs).max in vs
  {
    if vs != [] {
      var k := |vs| - 1;
      StatsMeaning(vs[..k]);
      SumSnoc(vs[..k], vs[k]);
      assert vs[..k] + [vs[k]] == vs;
      assert forall v | v in vs[..k] :: v in vs;
      if k == 0 { assert StatsOf(vs[..k]) == Empty; }
    }
  }

  /** A raw point counts as one value; an hourly rollup entry counts as many. */
  datatype Item = Item(t: nat, s: Stats)

  function Single(v: real): Stats { Stats(1, v, v, v) }

  function Combine(a: Stats, b: Stats): Stats {
    Stats(a.cnt + b.cnt, Min(a.min, b.min), Max(a.max, b.max), a.sum + b.sum)
  }

  lemma {:induction false} CombineAssoc(a: Stats, b: Stats, c: Stats)
    ensures Combine(Combine(a, b), c) == Combine(a, Combine(b, c))
  {
  }

  /** Adds `x` to the last group if it is of the same interval. */
  function Merge(gs: seq<Item>, x: Item): (r: seq<Item>)
    ensures r != [] && r[|r| - 1].t == x.t
  {
    var k := |gs| - 1;
    if gs != [] && gs[k].t == x.t then gs[..k] + [Item(x.t, Combine(gs[k].s, x.s))] else gs + [x]
  }

  /** Two items of one interval, one after the other, count like one. */
  lemma {:induction false} MergeTwice(gs: seq<Item>, t: nat, a: Stats, b: Stats)
    ensures Merge(Merge(gs, Item(t, a)), Item(t, b)) == Merge(gs, Item(t, Combine(a, b)))
  {
    hide Combine;
    var k := |gs| - 1;
    var once := Merge(gs, Item(t, a));
    if gs != [] && gs[k].t == t {
      CombineAssoc(gs[k].s, a, b);
      assert once[..k] == gs[..k];
    } else {
      assert once[..|gs|] == gs;
    }
  }
}
