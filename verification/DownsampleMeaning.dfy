/**
 What the output of a downsampler means: one value for every interval with points, made of exactly the
 points of that interval, at ever later times.
 */
module DownsampleMeaning {
  import opened Stats
  import opened RollupManager
  import opened Downsample

  // ---------------------------------------------------------------- groups

  /** What the items of the interval at `t` count for; those before the start of the query do not count. */
  function Members(q: Query, xs: seq<Item>, t: nat): seq<Stats>
    requires QueryOk(q)
  {
    if xs == [] then []
    else
      var x := xs[|xs| - 1];
      Members(q, xs[..|xs| - 1], t) + if q.start <= t == Step(q, x.t) then [x.s] else []
  }

  function CombineAll(ss: seq<Stats>): Stats
    requires ss != []
  {
    var k := |ss| - 1;
    if k == 0 then ss[0] else Combine(CombineAll(ss[..k]), ss[k])
  }

  lemma {:induction false} CombineAllSnoc(ss: seq<Stats>, s: Stats)
    requires ss != []
    ensures CombineAll(ss + [s]) == Combine(CombineAll(ss), s)
  {
    assert (ss + [s])[..|ss|] == ss;
  }

  /** Every group combines exactly the items of its interval. */
  ghost predicate Combined(q: Query, xs: seq<Item>, gs: seq<Item>)
    requires QueryOk(q)
  {
    forall j | 0 <= j < |gs| :: Members(q, xs, gs[j].t) != [] && gs[j].s == CombineAll(Members(q, xs, gs[j].t))
  }

  /** Every interval with items has a group. */
  ghost predicate Covered(q: Query, xs: seq<Item>, gs: seq<Item>)
    requires QueryOk(q)
  {
    forall t | Members(q, xs, t) != [] :: exists j | 0 <= j < |gs| :: gs[j].t == t
  }

  lemma {:induction false} MergeCombined(q: Query, front: seq<Item>, x: Item, gs: seq<Item>)
    requires QueryOk(q) && q.start <= Step(q, x.t) && Combined(q, front, gs) && Covered(q, front, gs)
    requires Ascending(q, gs) && (gs != [] ==> gs[|gs| - 1].t <= Step(q, x.t))
    ensures Combined(q, front + [x], Merge(gs, Item(Step(q, x.t), x.s)))
  {
    hide Step, Combine, CombineAll, Members, Ascending, Covered;
    var u, k := Step(q, x.t), |gs| - 1;
    var r := Merge(gs, Item(u, x.s));
    forall j | 0 <= j < |r|
      ensures Members(q, front + [x], r[j].t) != [] && r[j].s == CombineAll(Members(q, front + [x], r[j].t))
    {
      MembersSnoc(q, front, x, r[j].t);
      if r[j].t == u {
        LastIsIt(q, gs, u, x.s, j);
        if gs != [] && gs[k].t == u {
          assert gs[k].s == CombineAll(Members(q, front, gs[k].t));
          CombineAllSnoc(Members(q, front, u), x.s);
        } else {
          NotYet(q, front, gs, u);
          CombineAllOne(x.s);
        }
      } else {
        assert r[j] == gs[j];
        assert Members(q, front, r[j].t) + [] == Members(q, front, r[j].t);
      }
    }
  }

  lemma {:induction false} CombineAllOne(s: Stats)
    ensures CombineAll([s]) == s && [] + [s] == [s]
  {
  }

  /** The last group is the only one of its interval. */
  lemma {:induction false} LastIsIt(q: Query, gs: seq<Item>, u: nat, s: Stats, j: nat)
    requires q.interval > 0 && Ascending(q, gs) && (gs != [] ==> gs[|gs| - 1].t <= u)
    requires j < |Merge(gs, Item(u, s))| && Merge(gs, Item(u, s))[j].t == u
    ensures j == |Merge(gs, Item(u, s))| - 1
  {
    hide IsTick, Combine;
    var k := |gs| - 1;
    if j < |Merge(gs, Item(u, s))| - 1 {
      assert Merge(gs, Item(u, s))[j] == gs[j];
      Later(q, gs, j, k);
    }
  }

  lemma {:induction false} Later(q: Query, gs: seq<Item>, i: nat, j: nat)
    requires q.interval > 0 && Ascending(q, gs) && i <= j < |gs|
    ensures i < j ==> gs[i].t < gs[j].t
    decreases j
  {
    hide IsTick;
    if i < j { Later(q, gs, i, j - 1); }
  }

  lemma {:induction false} NotYet(q: Query, front: seq<Item>, gs: seq<Item>, u: nat)
    requires QueryOk(q) && Covered(q, front, gs) && Ascending(q, gs) && (gs != [] ==> gs[|gs| - 1].t < u)
    ensures Members(q, front, u) == []
  {
    hide Members, IsTick;
    if Members(q, front, u) != [] {
      var j :| 0 <= j < |gs| && gs[j].t == u;
      Later(q, gs, j, |gs| - 1);
    }
  }

  lemma {:induction false} MembersSnoc(q: Query, xs: seq<Item>, x: Item, t: nat)
    requires QueryOk(q)
    ensures Members(q, xs + [x], t) == Members(q, xs, t) + if q.start <= t == Step(q, x.t) then [x.s] else []
  {
    hide Step;
    assert (xs + [x])[..|xs|] == xs;
  }

  lemma {:induction false} MergeCovered(q: Query, front: seq<Item>, x: Item, gs: seq<Item>)
    requires QueryOk(q) && q.start <= Step(q, x.t) && Covered(q, front, gs)
    ensures Covered(q, front + [x], Merge(gs, Item(Step(q, x.t), x.s)))
  {
    hide Step, Combine, Members;
    var u, r := Step(q, x.t), Merge(gs, Item(Step(q, x.t), x.s));
    forall t | Members(q, front + [x], t) != [] ensures exists j | 0 <= j < |r| :: r[j].t == t {
      MembersSnoc(q, front, x, t);
      if t == u {
        assert r[|r| - 1].t == t;
      } else {
        var j :| 0 <= j < |gs| && gs[j].t == t;
        assert r[j].t == t;
      }
    }
  }

  /** For a sorted series: a group for every interval with items, and of nothing else. */
  lemma {:induction false} GroupsMeaning(q: Query, xs: seq<Item>)
    requires QueryOk(q) && Series(q, xs)
    ensures Combined(q, xs, Groups(q, xs)) && Covered(q, xs, Groups(q, xs))
    decreases |xs|
  {
    hide Step, Merge, Combined, Covered, Ascending, Members;
    if xs == [] {
      NothingCombined(q);
    } else {
      var k := |xs| - 1;
      var front, x := xs[..k], xs[k];
      assert forall j | 0 <= j < k :: front[j] == xs[j];
      assert front + [x] == xs;
      GroupsMeaning(q, front);
      GroupsAscend(q, front);
      if k > 0 { StepMono(q, xs[k - 1].t, x.t); }
      if q.start <= Step(q, x.t) {
        MergeCombined(q, front, x, Groups(q, front));
        MergeCovered(q, front, x, Groups(q, front));
      } else {
        DroppedItem(q, front, x, Groups(q, front));
      }
    }
  }

  lemma {:induction false} NothingCombined(q: Query)
    requires QueryOk(q)
    ensures Combined(q, [], Groups(q, [])) && Covered(q, [], Groups(q, []))
  {
  }

  lemma {:induction false} DroppedItem(q: Query, front: seq<Item>, x: Item, gs: seq<Item>)
    requires QueryOk(q) && Step(q, x.t) < q.start && Combined(q, front, gs) && Covered(q, front, gs)
    ensures Combined(q, front + [x], gs) && Covered(q, front + [x], gs)
  {
    hide Step, Members;
    forall t ensures Members(q, front + [x], t) == Members(q, front, t) {
      MembersSnoc(q, front, x, t);
      assert Members(q, front, t) + [] == Members(q, front, t);
    }
  }

  // ---------------------------------------------------------------- output

  /** The points come at ever later times, from `a` on and before `b`. */
  ghost predicate Timed(ps: seq<Point>, a: nat, b: nat) {
    && (forall i | 0 <= i < |ps| :: a <= ps[i].t < b)
    && (forall i, j | 0 <= i < j < |ps| :: ps[i].t < ps[j].t)
  }

  lemma {:induction false} TimedJoin(ps: seq<Point>, a: nat, b: nat, qs: seq<Point>, c: nat)
    requires a <= b && Timed(ps, a, b) && Timed(qs, b, c) && (b <= c || qs == [])
    ensures Timed(ps + qs, a, if b <= c then c else b)
  {
  }

  lemma {:induction false} FillersTimed(q: Query, a: nat, b: nat)
    requires QueryOk(q)
    ensures Timed(Fillers(q, a, b), a, b)
    ensures forall i | 0 <= i < |Fillers(q, a, b)| :: Fillers(q, a, b)[i].cell == Filler
    ensures a >= b ==> Fillers(q, a, b) == []
    decreases b - a
  {
    if q.fill && a < b { FillersTimed(q, a + q.interval, b); }
  }

  /** The values of the output are those of the groups, and every group has one. */
  ghost predicate Shows(kind: Kind, gs: seq<Item>, ps: seq<Point>) {
    && (forall i | 0 <= i < |ps| && ps[i].cell.Value? ::
          exists j | 0 <= j < |gs| :: ps[i] == Point(gs[j].t, Value(Result(kind, gs[j].s))))
    && (forall j | 0 <= j < |gs| :: Point(gs[j].t, Value(Result(kind, gs[j].s))) in ps)
  }

  lemma {:induction false} ShowsMore(kind: Kind, gs: seq<Item>, g: Item, ps: seq<Point>, fs: seq<Point>)
    requires Shows(kind, gs, ps) && forall i | 0 <= i < |fs| :: fs[i].cell == Filler
    ensures Shows(kind, gs + [g], ps + fs + [Point(g.t, Value(Result(kind, g.s)))])
  {
    hide Result;
    var all, last := gs + [g], Point(g.t, Value(Result(kind, g.s)));
    var out := ps + fs + [last];
    forall i | 0 <= i < |out| && out[i].cell.Value?
      ensures exists j | 0 <= j < |all| :: out[i] == Point(all[j].t, Value(Result(kind, all[j].s)))
    {
      if i < |ps| {
        var j :| 0 <= j < |gs| && ps[i] == Point(gs[j].t, Value(Result(kind, gs[j].s)));
        assert all[j] == gs[j];
      } else {
        assert i == |out| - 1 && all[|gs|] == g;
      }
    }
    forall j | 0 <= j < |all| ensures Point(all[j].t, Value(Result(kind, all[j].s))) in out {
      if j < |gs| { assert Point(gs[j].t, Value(Result(kind, gs[j].s))) in ps; } else { assert out[|out| - 1] == last; }
    }
  }

  lemma {:induction false} ShowsFilled(kind: Kind, gs: seq<Item>, ps: seq<Point>, fs: seq<Point>)
    requires Shows(kind, gs, ps) && forall i | 0 <= i < |fs| :: fs[i].cell == Filler
    ensures Shows(kind, gs, ps + fs)
  {
    hide Result;
    forall i | 0 <= i < |ps + fs| && (ps + fs)[i].cell.Value?
      ensures exists j | 0 <= j < |gs| :: (ps + fs)[i] == Point(gs[j].t, Value(Result(kind, gs[j].s)))
    {
      assert i < |ps| && (ps + fs)[i] == ps[i];
    }
  }

  /** Groups are at least an interval apart, so that fillers fit between them. */
  lemma {:induction false} GroupsApart(q: Query, gs: seq<Item>, j: nat)
    requires QueryOk(q) && Ascending(q, gs) && 0 < j < |gs|
    ensures gs[j - 1].t + q.interval <= gs[j].t
  {
    assert IsTick(q, gs[j - 1].t) && IsTick(q, gs[j].t);
    if !q.all { NoMultipleBetween(gs[j - 1].t, gs[j].t, q.interval); }
  }

  lemma {:induction false} RenderSnoc(q: Query, kind: Kind, gs: seq<Item>)
    requires QueryOk(q) && gs != []
    ensures var k := |gs| - 1;
            var a := if k == 0 then FirstTick(q) else gs[k - 1].t + q.interval;
            Render(q, kind, gs) ==
            Render(q, kind, gs[..k]) + Fillers(q, a, gs[k].t) + [Point(gs[k].t, Value(Result(kind, gs[k].s)))]
  {
    hide Result, FirstTick, Fillers;
    if |gs| == 1 { assert [] + Fillers(q, FirstTick(q), gs[0].t) == Fillers(q, FirstTick(q), gs[0].t); }
  }

  lemma {:induction false} RenderMeaning(q: Query, kind: Kind, gs: seq<Item>)
    requires QueryOk(q) && Ascending(q, gs)
    ensures Shows(kind, gs, Render(q, kind, gs))
    ensures gs != [] ==> Timed(Render(q, kind, gs), 0, gs[|gs| - 1].t + q.interval)
    decreases |gs|
  {
    hide Result, FirstTick, Fillers, IsTick, Shows, Timed, Render;
    if gs == [] {
      RenderNone(q, kind);
      ShowsNone(kind);
    } else {
      var k := |gs| - 1;
      var front, g := gs[..k], gs[k];
      var a := if k == 0 then FirstTick(q) else gs[k - 1].t + q.interval;
      var before, fill, last := Render(q, kind, front), Fillers(q, a, g.t), Point(g.t, Value(Result(kind, g.s)));
      assert forall j | 0 <= j < k :: front[j] == gs[j];
      RenderMeaning(q, kind, front);
      RenderSnoc(q, kind, gs);
      FillersTimed(q, a, g.t);
      assert front + [g] == gs;
      ShowsMore(kind, front, g, before, fill);
      if k == 0 {
        RenderNone(q, kind);
        assert before + fill == fill;
        TimedLonger(fill, a, g.t);
      } else {
        GroupsApart(q, gs, k);
        TimedJoin(before, 0, a, fill, g.t);
      }
      OneTimed(last, q.interval);
      TimedJoin(before + fill, 0, g.t, [last], g.t + q.interval);
    }
  }

  lemma {:induction false} ShowsNone(kind: Kind)
    ensures Shows(kind, [], [])
  {
  }

  lemma {:induction false} OneTimed(p: Point, i: nat)
    requires i > 0
    ensures Timed([p], p.t, p.t + i)
  {
  }

  lemma {:induction false} TimedLonger(ps: seq<Point>, a: nat, b: nat)
    requires Timed(ps, a, b)
    ensures Timed(ps, 0, b)
  {
  }

  /** No two points of the output are of the same time. */
  predicate Once(ps: seq<Point>) { forall i, j | 0 <= i < j < |ps| :: ps[i].t < ps[j].t }

  /** There are no fillers. */
  predicate Plain(ps: seq<Point>) { forall i | 0 <= i < |ps| :: ps[i].cell.Value? }

  lemma {:induction false} PlainRender(q: Query, kind: Kind, gs: seq<Item>)
    requires QueryOk(q)
    ensures !q.fill ==> Plain(Render(q, kind, gs)) && Plain(Finish(q, kind, gs))
    decreases |gs|
  {
    hide Result, FirstTick, Render;
    if gs == [] {
      RenderNone(q, kind);
    } else {
      PlainRender(q, kind, gs[..|gs| - 1]);
      RenderSnoc(q, kind, gs);
    }
  }

  lemma {:induction false} FinishMeaning(q: Query, kind: Kind, gs: seq<Item>)
    requires QueryOk(q) && Ascending(q, gs)
    ensures Shows(kind, gs, Finish(q, kind, gs)) && Once(Finish(q, kind, gs))
  {
    hide Result, FirstTick, Fillers, IsTick, Shows, Timed, Render, Step;
    var last := if gs == [] then q.origin else gs[|gs| - 1].t;
    var a, b := last + q.interval, q.to + 1;
    RenderMeaning(q, kind, gs);
    FillersTimed(q, a, b);
    ShowsFilled(kind, gs, Render(q, kind, gs), Fillers(q, a, b));
    if gs == [] {
      assert Render(q, kind, gs) == [] by { RenderNone(q, kind); }
      assert Finish(q, kind, gs) == Fillers(q, a, b);
      TimedOnce(Fillers(q, a, b), a, b);
    } else {
      TimedJoin(Render(q, kind, gs), 0, a, Fillers(q, a, b), b);
      TimedOnce(Render(q, kind, gs) + Fillers(q, a, b), 0, if a <= b then b else a);
    }
  }

  lemma {:induction false} RenderNone(q: Query, kind: Kind)
    requires QueryOk(q)
    ensures Render(q, kind, []) == []
  {
  }

  lemma {:induction false} TimedOnce(ps: seq<Point>, a: nat, b: nat)
    requires Timed(ps, a, b)
    ensures Once(ps)
  {
  }

  /**
   No time comes twice, every value is the result for exactly the items of its interval, and every interval
   with items has its value.  Without a fill policy there is nothing else.
   */
  ghost predicate Answers(q: Query, kind: Kind, xs: seq<Item>, out: seq<Point>)
    requires QueryOk(q)
  {
    && Once(out) && (!q.fill ==> Plain(out))
    && (forall i | 0 <= i < |out| && out[i].cell.Value? ::
          var own := Members(q, xs, out[i].t);
          own != [] && out[i].cell.v == Result(kind, CombineAll(own)))
    && (forall t | Members(q, xs, t) != [] :: exists i | 0 <= i < |out| :: out[i].t == t && out[i].cell.Value?)
  }

  /** The output for every sorted series, query and kind. */
  lemma {:induction false} DownMeaning(q: Query, kind: Kind, xs: seq<Item>)
    requires QueryOk(q) && Series(q, xs)
    ensures Answers(q, kind, xs, Down(q, kind, xs))
  {
    hide Result, CombineAll, Members, Groups, Finish, Ascending, Series, Plain;
    var gs, out := Groups(q, xs), Down(q, kind, xs);
    GroupsMeaning(q, xs);
    GroupsAscend(q, xs);
    FinishMeaning(q, kind, gs);
    PlainRender(q, kind, gs);
    forall t | Members(q, xs, t) != [] ensures exists i | 0 <= i < |out| :: out[i].t == t && out[i].cell.Value? {
      var j :| 0 <= j < |gs| && gs[j].t == t;
      var p := Point(gs[j].t, Value(Result(kind, gs[j].s)));
      assert p in out;
      var i :| 0 <= i < |out| && out[i] == p;
      assert out[i].t == t && out[i].cell.Value?;
    }
  }

  // ---------------------------------------------------------------- raw points

  function Singles(vs: seq<real>): (ss: seq<Stats>)
    ensures |ss| == |vs|
  {
    if vs == [] then [] else Singles(vs[..|vs| - 1]) + [Single(vs[|vs| - 1])]
  }

  lemma {:induction false} CombineSingles(vs: seq<real>)
    requires vs != [] && Finite(vs)
    ensures CombineAll(Singles(vs)) == StatsOf(vs)
    decreases |vs|
  {
    var k := |vs| - 1;
    var front := vs[..k];
    if k == 0 {
      assert front == [];
    } else {
      CombineSingles(front);
      assert Singles(vs)[..k] == Singles(front);
    }
  }

  /** The result for values: their average, number, least, greatest or sum. */
  ghost predicate IsResult(kind: Kind, vs: seq<real>, r: real)
    requires vs != []
  {
    match kind
    case Average => r == Sum(vs) / |vs| as real
    case Counting => r == |vs| as real
    case Minimum => r in vs && forall i | 0 <= i < |vs| :: r <= vs[i]
    case Maximum => r in vs && forall i | 0 <= i < |vs| :: vs[i] <= r
    case Summing => r == Sum(vs)
  }

  lemma {:induction false} ResultOfValues(kind: Kind, vs: seq<real>)
    requires vs != [] && Finite(vs)
    ensures IsResult(kind, vs, Result(kind, CombineAll(Singles(vs))))
  {
    hide CombineAll, Singles, Finite, StatsOf;
    CombineSingles(vs);
    StatsMeaning(vs);
  }

  /** The points of a series as a downsampler is fed with them. */
  function Raw(ps: seq<Sample>): (xs: seq<Item>)
    ensures |xs| == |ps| && forall i | 0 <= i < |xs| :: xs[i].t == ps[i].ts && xs[i].s.cnt > 0
  {
    if ps == [] then [] else Raw(ps[..|ps| - 1]) + [Item(ps[|ps| - 1].ts, Single(ps[|ps| - 1].v))]
  }

  /** The values of the points of the interval at `t`. */
  function ValuesIn(q: Query, ps: seq<Sample>, t: nat): seq<real>
    requires QueryOk(q)
  {
    if ps == [] then []
    else
      var p := ps[|ps| - 1];
      ValuesIn(q, ps[..|ps| - 1], t) + if q.start <= t == Step(q, p.ts) then [p.v] else []
  }

  lemma {:induction false} RawMembers(q: Query, ps: seq<Sample>, t: nat)
    requires QueryOk(q)
    ensures Members(q, Raw(ps), t) == Singles(ValuesIn(q, ps, t))
  {
    hide Step;
    if ps != [] {
      var k := |ps| - 1;
      var vs, v := ValuesIn(q, ps[..k], t), ps[k].v;
      RawMembers(q, ps[..k], t);
      assert Raw(ps)[..k] == Raw(ps[..k]);
      assert (vs + [v])[..|vs|] == vs;
      assert vs + [] == vs && Singles(vs) + [] == Singles(vs);
    }
  }

  predicate FiniteSamples(ps: seq<Sample>) { forall i | 0 <= i < |ps| :: -LIMIT <= ps[i].v <= LIMIT }

  lemma {:induction false} ValuesFinite(q: Query, ps: seq<Sample>, t: nat)
    requires QueryOk(q) && FiniteSamples(ps)
    ensures Finite(ValuesIn(q, ps, t))
  {
    hide Step;
    if ps != [] { ValuesFinite(q, ps[..|ps| - 1], t); }
  }

  /**
   For a sorted series of points: every interval with points has its value, once, and that value is the
   average, number, least, greatest or sum of the values of the points of the interval.
   */
  lemma {:induction false} RawMeaning(q: Query, kind: Kind, ps: seq<Sample>)
    requires QueryOk(q) && Series(q, Raw(ps)) && FiniteSamples(ps)
    ensures var out := Down(q, kind, Raw(ps));
            && Once(out) && (!q.fill ==> Plain(out))
            && (forall i | 0 <= i < |out| && out[i].cell.Value? ::
                  ValuesIn(q, ps, out[i].t) != [] && IsResult(kind, ValuesIn(q, ps, out[i].t), out[i].cell.v))
            && (forall t | ValuesIn(q, ps, t) != [] ::
                  exists i | 0 <= i < |out| :: out[i].t == t && out[i].cell.Value?)
  {
    hide Down, Series, Members, ValuesIn, Plain, Result, CombineAll, IsResult, Finite, FiniteSamples, Raw, Singles;
    var out := Down(q, kind, Raw(ps));
    DownMeaning(q, kind, Raw(ps));
    forall i | 0 <= i < |out| && out[i].cell.Value?
      ensures ValuesIn(q, ps, out[i].t) != [] && IsResult(kind, ValuesIn(q, ps, out[i].t), out[i].cell.v)
    {
      RawMembers(q, ps, out[i].t);
      ValuesFinite(q, ps, out[i].t);
      ResultOfValues(kind, ValuesIn(q, ps, out[i].t));
    }
    forall t | ValuesIn(q, ps, t) != []
      ensures exists i | 0 <= i < |out| :: out[i].t == t && out[i].cell.Value?
    {
      RawMembers(q, ps, t);
      assert Members(q, Raw(ps), t) != [];
    }
  }
}
