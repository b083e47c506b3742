/**
 Which points a version 2 page accepts: the widths of the codes in numbers, and that a point is refused exactly when
 its width does not fit.
 */
module GorillaRoom {
  import opened BitCode
  import opened StreamCode
  import opened Series
  import opened GorillaCode
  import opened GorillaStream
  import opened GorillaTheorems

  /** The bits for a delta of deltas. */
  function TimeWidth(dod: int): nat {
    if dod == 0 then 1
    else if -8192 <= dod <= 8191 then 16
    else if -65536 <= dod <= 65535 then 20
    else 36
  }

  /** The last window was described with at least one leading zero, and no bit of `x` outside it is set. */
  predicate Covers(w: Window, x: Word) {
    && 0 < w.lz <= 31 && w.tz <= 32
    && (forall i | 0 <= i < w.lz :: !x[i])
    && (forall i | 64 - w.tz <= i < 64 :: !x[i])
  }

  /** The bits for a value that differs from the last one by the XOR `x`. */
  function ValueWidth(x: Word, w: Window): int {
    if forall i | 0 <= i < 64 :: !x[i] then 1
    else if Covers(w, x) then 2 + (64 - w.lz - w.tz)
    else 13 + (64 - Lead(x, 31) - Trail(x, 32))
  }

  /** The page has room for the point, or the point needs none because it is dropped. */
  predicate Takes(e: Enc, t: U64, v: Word) {
    if e.count == 0 then |e.bits| + 96 <= e.room
    else if t < e.prevT then true
    else |e.bits| + PointWidth(e, t, v) <= e.room
  }

  function PointWidth(e: Enc, t: U64, v: Word): int
    requires e.prevT <= t
  {
    TimeWidth(Dod(t - e.prevT, e.prevDelta)) + ValueWidth(XorWord(v, e.prevV), e.win)
  }

  /** A window is reused exactly when it covers all bits that are set. */
  lemma {:induction false} ReusesIff(x: Word, w: Window)
    requires WindowOk(w)
    ensures Reuses(x, w) <==> Covers(w, x)
  {
    hide Trail, Lead;
    var l, t := Lead(x, 31), Trail(x, 32);
    assert l < 31 ==> x[l];
    assert t < 32 ==> x[63 - t];
  }

  lemma {:induction false} TimeTakes(dod: int)
    ensures |DodCode(dod)| == TimeWidth(dod)
  {
    hide ToBits;
  }

  lemma {:induction false} ValueTakes(x: Word, w: Window)
    requires WindowOk(w)
    ensures |ValueCode(x, w)| == ValueWidth(x, w) <= 77
  {
    hide ToBits, Reuses, Lead, Trail;
    ReusesIff(x, w);
    if !Zero(x) { WindowOfOk(x); }
  }

  /** A call is refused exactly when the width of its point does not fit, and an accepted one takes that width. */
  lemma {:induction false} AcceptedIff(e: Enc, t: U64, v: Word)
    requires e.start <= t && WindowOk(e.win)
    ensures Compress(e, t, v).accepted <==> Takes(e, t, v)
    ensures e.count != 0 && e.prevT <= t && Takes(e, t, v) ==>
              |Compress(e, t, v).enc.bits| == |e.bits| + PointWidth(e, t, v)
  {
    hide HeaderCode, DodCode, ValueCode, NextWindow, ValueWidth, TimeWidth, WindowOk;
    if e.count != 0 && e.prevT <= t {
      TimeTakes(Dod(t - e.prevT, e.prevDelta));
      ValueTakes(XorWord(v, e.prevV), e.win);
    }
  }

  /** For every run: it is refused at the first call whose point does not fit the page as it then is. */
  lemma {:induction false} RefusedIff(start: U64, room: nat, calls: seq<Point>)
    requires Callable(start, calls) && calls != []
    ensures var k := |calls| - 1;
            var tr := Play(start, room, calls[..k]);
            Play(start, room, calls).refused <==> tr.refused || !Takes(tr.enc, calls[k].t, calls[k].v)
  {
    hide Compress, Takes;
    var k := |calls| - 1;
    AcceptedIff(Play(start, room, calls[..k]).enc, calls[k].t, calls[k].v);
  }

  /** 113 free bits suffice for any later point, and 96 for the first. */
  lemma {:induction false} AlwaysFits(e: Enc, t: U64, v: Word)
    requires WindowOk(e.win) && |e.bits| + (if e.count == 0 then 96 else 113) <= e.room
    ensures Takes(e, t, v)
  {
    hide ValueWidth;
    ValueTakes(XorWord(v, e.prevV), e.win);
  }
}
