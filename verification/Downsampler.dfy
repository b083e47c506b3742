/**
 The downsamplers of src/agg/down.cpp in their own form: an accumulator or the back of the output vector
 is updated point by point, and loops append fillers.  `avg` holds back the value of the current interval;
 `count`, `min`, `max` and `sum` keep it at the back of the output.
 */
module Downsampler {
  import opened Stats
  import opened RollupManager
  import opened Downsample
  import opened DownsampleMeaning

  /** The back of the output after one item more of the same interval. */
  function Updated(kind: Kind, v: real, s: Stats): real
    requires kind != Average
  {
    match kind
    case Counting => v + s.cnt as real
    case Minimum => Min(v, s.min)
    case Maximum => Max(v, s.max)
    case Summing => v + s.sum
  }

  lemma {:induction false} UpdatedIsResult(kind: Kind, a: Stats, b: Stats)
    requires kind != Average
    ensures Updated(kind, Result(kind, a), b) == Result(kind, Combine(a, b))
  {
  }

  class Downsampler {
    const kind: Kind
    var q: Query
    var unset: bool       // `m_last_tstamp` is TT_INVALID_TIMESTAMP
    var last: nat
    var count: nat
    var sum: real
    var dps: seq<Point>
    ghost var gs: seq<Item>

    ghost predicate Valid()
      reads this
    {
      && QueryOk(q)
      && (unset <==> gs == [])
      && (gs != [] ==> last == gs[|gs| - 1].t && gs[|gs| - 1].s.cnt > 0)
      && (kind == Average ==> Held())
      && (kind != Average ==> dps == Render(q, kind, gs))
    }

    /** `avg`: the current interval is in the accumulator, and the output leads up to it. */
    ghost predicate Held()
      requires QueryOk(q)
      reads this
    {
      if gs == [] then dps == [] && count == 0
      else
        var g := gs[|gs| - 1];
        dps == Lead(q, kind, gs) && count == g.s.cnt && sum == g.s.sum
    }

    /** `initialize`. */
    constructor (all: bool, interval: nat, start: nat, to: nat, fill: bool, kind: Kind)
      requires start <= to
      ensures Valid() && gs == [] && this.kind == kind && q == Asked(all, interval, start, to, fill)
    {
      var j := if interval == 0 then 1 else interval;
      var from := if all then start else Floor(start, j);
      this.kind := kind;
      q := Query(all, if all then to - from + 1 else j, from, start, to, fill);
      unset, last, count, sum, dps, gs := true, 0, 0, 0.0, [], [];
    }

    /** `set_interval`, before any point is added: the origin of filling stays as it was. */
    method SetInterval(interval: nat)
      requires Valid() && gs == [] && interval > 0
      modifies `q
      ensures Valid() && q == old(q).(interval := interval)
    {
      q := q.(interval := interval);
    }

    /** `use_rollup`: whether rollup entries are of use, and the interval to use them with. */
    method UseRollup() returns (rollup: bool)
      requires Valid() && gs == []
      modifies `q
      ensures Valid() && q == Rolled(old(q)) && rollup == (HOUR <= old(q).interval)
    {
      var j, u := q.interval, HOUR;
      if 24 * HOUR <= j { u := 24 * HOUR; }
      rollup := u <= j;
      if rollup {
        RolledIsNearest(j);
        var i := j / u * u;
        if i + u - j < j - i { i := i + u; }
        SetInterval(i);
      }
    }

    /** The loops that append fillers. */
    method AppendFillers(from: nat, to: nat)
      requires QueryOk(q)
      modifies `dps
      ensures dps == old(dps) + Fillers(q, from, to)
    {
      if !q.fill { return; }
      var t := from;
      while t < to
        invariant old(dps) + Fillers(q, from, to) == dps + Fillers(q, t, to)
      {
        dps := dps + [Point(t, Filler)];
        t := t + q.interval;
      }
    }

    /** `fill_to`. */
    method FillTo(to: nat)
      requires QueryOk(q)
      modifies `dps
      ensures dps == old(dps) + Fillers(q, if unset then FirstTick(q) else last + q.interval, to)
    {
      var from := last + q.interval;
      if unset {
        from := q.origin;
        if from < q.start { from := from + q.interval; }
      }
      AppendFillers(from, to);
    }

    /** `add_data_point`, of a raw point as `Single` or of a rollup entry. */
    method Add(x: Item)
      requires Valid() && x.s.cnt > 0
      modifies `unset, `last, `count, `sum, `dps, `gs
      ensures Valid() && gs == Feed(q, old(gs), x)
    {
      hide Step, Fillers, Combine;
      var curr := Step(q, x.t);
      if curr < q.start { return; }
      if !unset && curr == last {
        Accumulate(x.s);
      } else {
        Open(curr, x.s);
      }
    }

    /** One item more in the current interval. */
    method Accumulate(s: Stats)
      requires Valid() && !unset && s.cnt > 0
      modifies `count, `sum, `dps, `gs
      ensures Valid() && gs == Merge(old(gs), Item(last, s))
    {
      hide Fillers, Combine, Step, FirstTick;
      ghost var k := |gs| - 1;
      ghost var g := gs[k];
      SameLead(q, kind, gs, Combine(g.s, s));
      CombineParts(g.s, s);
      if kind == Average {
        count, sum := count + s.cnt, sum + s.sum;
      } else {
        UpdatedIsResult(kind, g.s, s);
        var b := |dps| - 1;
        assert dps[..b] == Lead(q, kind, gs);
        dps := dps[..b] + [Point(dps[b].t, Value(Updated(kind, dps[b].cell.v, s)))];
      }
      gs := Merge(gs, Item(last, s));
    }

    /** The first item of an interval. */
    method Open(curr: nat, s: Stats)
      requires Valid() && s.cnt > 0 && (unset || curr != last)
      modifies `unset, `last, `count, `sum, `dps, `gs
      ensures Valid() && gs == Merge(old(gs), Item(curr, s))
    {
      hide Fillers, Combine, Step, FirstTick;
      ghost var gs' := gs + [Item(curr, s)];
      OpenLead(q, kind, gs, Item(curr, s));
      if kind == Average && !unset {
        dps := dps + [Point(last, Value(sum / count as real))];
      }
      assert dps == Render(q, kind, gs);
      FillTo(curr);
      assert dps == Lead(q, kind, gs');
      if kind == Average {
        count, sum := s.cnt, s.sum;
      } else {
        dps := dps + [Point(curr, Value(Result(kind, s)))];
      }
      last, unset := curr, false;
      gs := gs';
    }

    /** `fill_if_needed`, which first adds the value held back: the whole output. */
    method Close()
      requires Valid()
      modifies `count, `sum, `dps
      ensures dps == Finish(q, kind, gs)
    {
      hide Fillers, Step, FirstTick;
      if kind == Average {
        if count != 0 {
          dps := dps + [Point(last, Value(sum / count as real))];
        }
        sum, count := 0.0, 0;
      }
      assert dps == Render(q, kind, gs);
      var from := q.origin;
      if dps != [] { from := dps[|dps| - 1].t; }
      AppendFillers(from + q.interval, q.to + 1);
    }
  }

  lemma {:induction false} CombineParts(a: Stats, b: Stats)
    ensures Combine(a, b).cnt == a.cnt + b.cnt && Combine(a, b).sum == a.sum + b.sum
  {
  }

  /** A new group comes after all earlier output and fillers up to it. */
  lemma {:induction false} OpenLead(q: Query, kind: Kind, gs: seq<Item>, g: Item)
    requires QueryOk(q)
    ensures Lead(q, kind, gs + [g])
              == Render(q, kind, gs) + Fillers(q, if gs == [] then FirstTick(q) else gs[|gs| - 1].t + q.interval, g.t)
  {
    hide Fillers, FirstTick;
    assert (gs + [g])[..|gs|] == gs;
    if gs == [] { assert [] + Fillers(q, FirstTick(q), g.t) == Fillers(q, FirstTick(q), g.t); }
  }

  /** What leads up to the last group does not depend on its value. */
  lemma {:induction false} SameLead(q: Query, kind: Kind, gs: seq<Item>, s: Stats)
    requires QueryOk(q) && gs != []
    ensures var k := |gs| - 1; Lead(q, kind, gs[..k] + [Item(gs[k].t, s)]) == Lead(q, kind, gs)
  {
    hide Fillers, FirstTick;
    var k := |gs| - 1;
    var hs := gs[..k] + [Item(gs[k].t, s)];
    assert hs[..k] == gs[..k];
  }

  /** The state in which a query is performed, with rollup entries if they are wanted and of use, or without. */
  function Used(q: Query, rollup: bool): (r: Query)
    requires QueryOk(q)
    ensures QueryOk(r)
  {
    if rollup then Rolled(q) else q
  }

  /** A whole query: the output is the specified one, and so says about a sorted series what it should. */
  method Run(all: bool, interval: nat, start: nat, to: nat, fill: bool, rollup: bool, kind: Kind, xs: seq<Item>)
    returns (out: seq<Point>)
    requires start <= to && forall i | 0 <= i < |xs| :: xs[i].s.cnt > 0
    ensures var q := Used(Asked(all, interval, start, to, fill), rollup);
            out == Down(q, kind, xs) && (Series(q, xs) ==> Answers(q, kind, xs, out))
  {
    hide Feed, Finish, Answers, Series, Asked, Rolled;
    var d := new Downsampler(all, interval, start, to, fill, kind);
    if rollup { var _ := d.UseRollup(); }
    ghost var q := d.q;
    var i := 0;
    assert xs[..0] == [];
    while i < |xs|
      invariant 0 <= i <= |xs| && d.Valid() && fresh(d) && d.q == q && d.kind == kind && d.gs == Groups(q, xs[..i])
    {
      d.Add(xs[i]);
      GroupsSnoc(q, xs[..i], xs[i]);
      assert xs[..i + 1] == xs[..i] + [xs[i]];
      i := i + 1;
    }
    assert xs[..i] == xs;
    d.Close();
    out := d.dps;
    if Series(q, xs) { DownMeaning(q, kind, xs); }
  }
}
