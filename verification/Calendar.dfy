/**
 The month cache of src/utils/cal.cpp and the month boundaries of src/utils/utils.cpp it stands for.
 Times are seconds since the start of 1970, in UTC.
 */
module Calendar {

  // ---------------------------------------------------------------- the months

  const DAY: nat := 24 * 3600

  predicate IsLeap(year: nat) { (year % 4 == 0 && year % 100 != 0) || year % 400 == 0 }

  /** The days of the `m`-th month after January 1970. */
  function DaysIn(m: nat): (d: nat)
    ensures 28 <= d <= 31
  {
    match m % 12
    case 1 => if IsLeap(1970 + m / 12) then 29 else 28
    case 3 => 30
    case 5 => 30
    case 8 => 30
    case 10 => 30
    case _ => 31
  }

  /** When the `m`-th month begins. */
  function Start(m: nat): nat {
    if m == 0 then 0 else Start(m - 1) + DAY * DaysIn(m - 1)
  }

  function MonthFrom(ts: nat, m: nat): (r: nat)
    requires Start(m) <= ts
    ensures Start(r) <= ts < Start(r + 1)
    decreases ts - Start(m)
  {
    if ts < Start(m + 1) then m else MonthFrom(ts, m + 1)
  }

  function MonthOf(ts: nat): (r: nat)
    ensures Start(r) <= ts < Start(r + 1)
  {
    MonthFrom(ts, 0)
  }

  /** `begin_month` and `end_month`. */
  function BeginMonth(ts: nat): nat { Start(MonthOf(ts)) }

  function EndMonth(ts: nat): nat { Start(MonthOf(ts) + 1) }

  lemma {:induction false} StartGrows(a: nat, b: nat)
    requires a <= b
    ensures Start(a) + (b - a) <= Start(b)
    decreases b
  {
    hide DaysIn;
    if a < b { StartGrows(a, b - 1); }
  }

  /** Later months start later, and only they do. */
  lemma {:induction false} StartOrder(a: nat, b: nat)
    ensures a < b <==> Start(a) < Start(b)
    ensures a == b <==> Start(a) == Start(b)
  {
    if a < b { StartGrows(a, b); } else { StartGrows(b, a); }
  }

  /** The month of a time is the only one that contains it. */
  lemma {:induction false} MonthUnique(ts: nat, m: nat)
    requires Start(m) <= ts < Start(m + 1)
    ensures MonthOf(ts) == m && BeginMonth(ts) == Start(m) && EndMonth(ts) == Start(m + 1)
  {
    hide MonthOf, Start;
    var k := MonthOf(ts);
    if k < m { StartGrowsEq(k + 1, m); } else if m < k { StartGrowsEq(m + 1, k); }
  }

  lemma {:induction false} StartGrowsEq(a: nat, b: nat)
    requires a <= b
    ensures Start(a) <= Start(b)
  {
    StartGrows(a, b);
  }

  lemma {:induction false} StartsItself(m: nat)
    ensures MonthOf(Start(m)) == m && BeginMonth(Start(m)) == Start(m) && EndMonth(Start(m)) == Start(m + 1)
  {
    hide MonthOf;
    MonthUnique(Start(m), m);
  }

  /** Two months in a row have at least 59 days. */
  lemma {:induction false} TwoMonths(m: nat)
    ensures DaysIn(m) + DaysIn(m + 1) >= 59
  {
    assert (m + 1) % 12 == if m % 12 == 11 then 0 else m % 12 + 1;
  }

  /** 45 days after a month began, the next month has begun but not the one after it. */
  lemma {:induction false} FortyFiveDays(m: nat)
    ensures BeginMonth(Start(m) + 45 * DAY) == Start(m + 1)
  {
    hide MonthOf, DaysIn;
    TwoMonths(m);
    assert Start(m + 1) == Start(m) + DAY * DaysIn(m);
    assert Start(m + 2) == Start(m + 1) + DAY * DaysIn(m + 1);
    MonthUnique(Start(m) + 45 * DAY, m + 1);
  }

  // ---------------------------------------------------------------- the cache

  /** Consecutive month starts from month `lo` on. */
  predicate Contiguous(months: seq<nat>, lo: nat) {
    forall i | 0 <= i < |months| :: months[i] == Start(lo + i)
  }

  class Calendar {
    var months: seq<nat>
    ghost var lo: nat

    /** The cache is empty or a contiguous run of at least one whole month. */
    ghost predicate Valid()
      reads this
    {
      |months| != 1 && Contiguous(months, lo)
    }

    /** The months whose boundaries are both cached. */
    ghost predicate Covers(m: nat)
      reads this
    {
      lo <= m && m + 1 < lo + |months|
    }

    constructor ()
      ensures Valid() && months == []
    {
      months, lo := [], 0;
    }

    /** The downward scan: where in the cache the month of `ts` is, if it is there and complete. */
    method Find(ts: nat) returns (found: bool, i: nat)
      requires Valid()
      ensures found <==> Covers(MonthOf(ts))
      ensures found ==> i + 1 < |months| && lo + i == MonthOf(ts)
    {
      hide MonthOf, Start;
      var n := |months|;
      found, i := false, 0;
      ghost var m := MonthOf(ts);
      if n > 1 {
        var j := n;
        while j > 0
          invariant 0 <= j <= n && !found
          invariant forall k | j <= k < n :: ts < months[k]
        {
          j := j - 1;
          if months[j] <= ts {
            StartBelow(lo + j, m);
            if j < n - 1 {
              assert ts < months[j + 1];
              MonthUnique(ts, lo + j);
              return true, j;
            }
            return false, 0;
          }
        }
        assert ts < months[0];
        StartAbove(lo, m);
      }
    }

    /** `begin_month_of`: the uncached boundary, whatever was asked before. */
    method BeginMonthOf(ts: nat) returns (r: nat)
      requires Valid()
      modifies this
      ensures Valid() && r == BeginMonth(ts)
      ensures Covers(MonthOf(ts)) && forall m | old(Covers(m)) :: Covers(m)
    {
      hide MonthOf, Start;
      var found, i := Find(ts);
      if !found { i := AddMonth(ts); }
      r := months[i];
    }

    /** `end_month_of`. */
    method EndMonthOf(ts: nat) returns (r: nat)
      requires Valid()
      modifies this
      ensures Valid() && r == EndMonth(ts)
      ensures Covers(MonthOf(ts)) && forall m | old(Covers(m)) :: Covers(m)
    {
      hide MonthOf, Start;
      var found, i := Find(ts);
      if !found { i := AddMonth(ts); }
      r := months[i + 1];
    }

    /** `add_month`: extends the cache at either end, filling the gap, and returns where the month is. */
    method AddMonth(ts: nat) returns (i: nat)
      requires Valid() && !Covers(MonthOf(ts))
      modifies this
      ensures Valid() && i + 1 < |months| && lo + i == MonthOf(ts)
      ensures forall m | old(Covers(m)) :: Covers(m)
    {
      hide MonthOf, Start;
      var begin, end := BeginMonth(ts), EndMonth(ts);
      var n := |months|;
      ghost var m := MonthOf(ts);
      if n == 0 {
        months, lo := [begin, end], m;
        return 0;
      }
      StartOrder(lo + n - 1, m);
      StartOrder(lo, m + 1);
      if months[n - 1] == begin {
        months := months + [end];
        i := n - 1;
      } else if months[n - 1] < begin {
        FillForward(begin, m);
        months := months + [end];
        i := |months| - 2;
      } else if months[0] == end {
        months, lo := [begin] + months, m;
        i := 0;
      } else {
        FillBackward(begin, end, m);
        i := 0;
      }
    }

    /** Appends month starts up to `begin`. */
    method FillForward(begin: nat, ghost m: nat)
      requires Contiguous(months, lo) && |months| > 0 && begin == Start(m) && lo + |months| - 1 < m
      modifies `months
      ensures Contiguous(months, lo) && lo + |months| - 1 == m && old(months) <= months
    {
      hide MonthOf, Start;
      var back := months[|months| - 1];
      while back < begin
        invariant Contiguous(months, lo) && |months| > 0 && lo + |months| - 1 <= m
        invariant back == months[|months| - 1] && old(months) <= months
        decreases m - (lo + |months|)
      {
        StartOrder(lo + |months| - 1, m);
        StartsItself(lo + |months| - 1);
        back := EndMonth(back);
        months := months + [back];
      }
      StartOrder(lo + |months| - 1, m);
    }

    /** Puts the months from `begin` on before the cached ones, stepping 45 days at a time. */
    method FillBackward(begin: nat, end: nat, ghost m: nat)
      requires Contiguous(months, lo) && |months| > 0 && begin == Start(m) && end == Start(m + 1) && m + 1 < lo
      modifies this
      ensures Contiguous(months, lo) && lo == m && |months| == |old(months)| + (old(lo) - m)
    {
      hide MonthOf, Start;
      var front, tmp := months[0], months;
      ghost var top := lo;
      months := [begin];
      lo := m;
      var next := end;
      while next < front
        invariant Contiguous(months, m) && |months| > 0 && m + |months| <= top && next == Start(m + |months|)
        invariant lo == m
        decreases top - (m + |months|)
      {
        StartOrder(m + |months|, top);
        FortyFiveDays(m + |months|);
        months := months + [next];
        next := BeginMonth(next + 45 * DAY);
      }
      StartOrder(m + |months|, top);
      months := months + tmp;
    }
  }

  lemma {:induction false} StartBelow(a: nat, m: nat)
    ensures Start(a) < Start(m + 1) ==> a <= m
  {
    StartOrder(a, m + 1);
  }

  lemma {:induction false} StartAbove(a: nat, m: nat)
    ensures Start(m) < Start(a) ==> m < a
  {
    StartOrder(m, a);
  }
}
