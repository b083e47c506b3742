/**
 Which points a version 1 page accepts: the lengths of the codes in numbers, and that a point is refused exactly when
 its length does not fit.
 */
module ByteRoom {
  import opened StreamCode
  import opened Series
  import opened ByteCode
  import opened ByteStream

  /** The bytes for a delta of deltas: short, or an escape and four bytes. */
  function TimeBytes(dod: int, ms: bool): nat {
    if ms then (if -32767 <= dod <= 32767 then 2 else 6)
    else (if -127 <= dod <= 127 then 1 else 5)
  }

  /** In how many of the first `n` bytes two values differ. */
  function Differing(a: Value, b: Value, n: nat): nat
    requires n <= 8
  {
    if n == 0 then 0 else Differing(a, b, n - 1) + if a[n - 1] != b[n - 1] then 1 else 0
  }

  function PointBytes(e: Enc, t: U64, v: Value): nat
    requires e.prevT <= t
  {
    TimeBytes(Dod(t - e.prevT, e.prevDelta), e.ms) + 1 + Differing(v, e.prevV, 8)
  }

  /** The page has room for the point, or the point is the first or is dropped. */
  predicate Takes(e: Enc, t: U64, v: Value) {
    e.bytes == [] || t < e.prevT || |e.bytes| + PointBytes(e, t, v) <= e.size
  }

  lemma {:induction false} TimeTakes(dod: int, ms: bool)
    ensures |TimeCode(dod, ms)| == TimeBytes(dod, ms)
  {
    hide Little;
  }

  lemma {:induction false} PackedNone()
    ensures Packed([]) == []
  {
  }

  lemma {:induction false} PackedStep(x: seq<bv8>)
    requires x != []
    ensures Packed(x) == (if x[0] != 0 then [x[0]] else []) + Packed(x[1..])
  {
  }

  lemma {:induction false} PackedSnoc(x: seq<bv8>, b: bv8)
    ensures Packed(x + [b]) == Packed(x) + if b != 0 then [b] else []
  {
    hide Packed;
    PackedNone();
    PackedStep(x + [b]);
    if x == [] {
      assert (x + [b])[1..] == [];
    } else {
      PackedSnoc(x[1..], b);
      PackedStep(x);
      assert (x + [b])[1..] == x[1..] + [b];
    }
  }

  lemma XorIsZero(a: bv8, b: bv8)
    ensures a ^ b == 0 <==> a == b
  {
  }

  lemma {:induction false} PackedCounts(a: Value, b: Value, n: nat)
    requires n <= 8
    ensures |Packed(XorBytes(a, b)[..n])| == Differing(a, b, n)
  {
    hide Packed;
    var x := XorBytes(a, b);
    if n > 0 {
      PackedCounts(a, b, n - 1);
      PackedSnoc(x[..n - 1], x[n - 1]);
      assert x[..n] == x[..n - 1] + [x[n - 1]];
      XorIsZero(a[n - 1], b[n - 1]);
    } else {
      PackedNone();
      assert x[..0] == [];
    }
  }

  lemma {:induction false} ValueTakes(a: Value, b: Value)
    ensures |XorCode(XorBytes(a, b))| == 1 + Differing(a, b, 8)
  {
    hide Packed, Differing, XorBytes;
    PackedCounts(a, b, 8);
    assert XorBytes(a, b)[..8] == XorBytes(a, b);
  }

  /** A call is refused exactly when the length of its point does not fit, and an accepted one takes that length. */
  lemma {:induction false} AcceptedIff(e: Enc, t: U64, v: Value)
    requires e.start <= t
    ensures Compress(e, t, v).accepted <==> Takes(e, t, v)
    ensures e.bytes != [] && e.prevT <= t && Takes(e, t, v) ==>
              |Compress(e, t, v).enc.bytes| == |e.bytes| + PointBytes(e, t, v)
  {
    hide ByteStream.HeaderCode, TimeCode, XorCode, XorBytes, TimeBytes, Differing;
    if e.bytes != [] && e.prevT <= t {
      TimeTakes(Dod(t - e.prevT, e.prevDelta), e.ms);
      ValueTakes(v, e.prevV);
    }
  }

  /** For every run: it is refused at the first call whose point does not fit the page as it then is. */
  lemma {:induction false} RefusedIff(start: U64, ms: bool, size: nat, calls: seq<Point>)
    requires Callable(start, calls) && calls != []
    ensures var k := |calls| - 1;
            var tr := Play(start, ms, size, calls[..k]);
            Play(start, ms, size, calls).refused <==> tr.refused || !Takes(tr.enc, calls[k].t, calls[k].v)
  {
    hide Compress, Takes;
    var k := |calls| - 1;
    AcceptedIff(Play(start, ms, size, calls[..k]).enc, calls[k].t, calls[k].v);
  }

  lemma {:induction false} DifferingBound(a: Value, b: Value, n: nat)
    requires n <= 8
    ensures Differing(a, b, n) <= n
  {
    if n > 0 { DifferingBound(a, b, n - 1); }
  }

  /** 15 free bytes suffice for any later point. */
  lemma {:induction false} AlwaysFits(e: Enc, t: U64, v: Value)
    requires |e.bytes| + 15 <= e.size
    ensures Takes(e, t, v)
  {
    hide Differing;
    DifferingBound(v, e.prevV, 8);
  }
}
