/**
 The bit codes of `Compressor_v2` in src/core/compress.cpp: delta-of-delta timestamps in 1, 14, 17
 or 33 bits, and values by XOR with a window of meaningful bits.  Every code is read back from the
 front of a stream, whatever bits follow it.
 */
module GorillaCode {
  import opened Bits
  import opened BitCode
  import opened StreamCode

  // ---------------------------------------------------------------- timestamps

  function DodCode(d: int): (r: seq<bool>)
    ensures |r| >= 1
  {
    if d == 0 then [false]
    else if -8192 <= d <= 8191 then [true, false] + ToBits(d, 14)
    else if -65536 <= d <= 65535 then [true, true, false] + ToBits(d, 17)
    else [true, true, true] + ToBits(d, 33)
  }

  lemma {:induction false} Signed33(b: seq<bool>)
    requires 0 < |b| <= 33
    ensures -TWO32 <= Signed(b) < TWO32
  {
    SignedBound(b);
    Pow2Mono(|b| - 1, 32);
    Pow2Values();
  }

  function ReadSigned(s: seq<bool>, k: nat): (r: Parsed<int>)
    requires 0 < k <= 33
    ensures r.Parsed? ==> -TWO32 <= r.value < TWO32
  {
    match Take(s, k)
    case Cut => Cut
    case Parsed(b, rest) => Signed33(b); Parsed(Signed(b), rest)
  }

  function ReadDod(s: seq<bool>): (r: Parsed<int>)
    ensures r.Parsed? ==> |r.rest| < |s| && -TWO32 <= r.value < TWO32
  {
    if |s| < 1 then Cut
    else if !s[0] then Parsed(0, s[1..])
    else if |s| < 2 then Cut
    else if !s[1] then ReadSigned(s[2..], 14)
    else if |s| < 3 then Cut
    else if !s[2] then ReadSigned(s[3..], 17)
    else ReadSigned(s[3..], 33)
  }

  /** The number that the code of `d` stands for: `d` itself if it fits 33 bits, otherwise its low 33 bits. */
  function StoredDod(d: int): (r: int)
    ensures -TWO32 <= r < TWO32
  {
    if -65536 <= d <= 65535 then d else Signed33(ToBits(d, 33)); Signed(ToBits(d, 33))
  }

  /** Reading a timestamp code consumes exactly that code, whatever follows. */
  lemma {:induction false} DodCodeReads(d: int, rest: seq<bool>)
    ensures ReadDod(DodCode(d) + rest) == Parsed(StoredDod(d), rest)
  {
    hide ToBits, Signed, Take;
    Pow2Values();
    var s := DodCode(d) + rest;
    if d == 0 {
      assert s[1..] == rest;
    } else if -8192 <= d <= 8191 {
      SignedRoundTrip(d, 14);
      DropPrefix([true, false], ToBits(d, 14), rest);
      TakeFront(ToBits(d, 14), rest);
    } else if -65536 <= d <= 65535 {
      SignedRoundTrip(d, 17);
      DropPrefix([true, true, false], ToBits(d, 17), rest);
      TakeFront(ToBits(d, 17), rest);
    } else {
      DropPrefix([true, true, true], ToBits(d, 33), rest);
      TakeFront(ToBits(d, 33), rest);
    }
  }

  /** A delta of deltas survives storing exactly when it fits 33 bits. */
  lemma {:induction false} DodSurvives(d: int)
    ensures StoredDod(d) == d <==> Fits(d, 33)
  {
    Pow2Values();
    if !(-65536 <= d <= 65535) {
      SignedBound(ToBits(d, 33));
      if Fits(d, 33) { SignedRoundTrip(d, 33); }
    }
  }

  // ---------------------------------------------------------------- values

  /** The number of leading false bits among the first `cap`. */
  function Lead(x: seq<bool>, cap: nat): (n: nat)
    requires cap <= |x|
    ensures n <= cap && (forall i | 0 <= i < n :: !x[i]) && (n < cap ==> x[n])
  {
    if cap == 0 || x[0] then 0 else 1 + Lead(x[1..], cap - 1)
  }

  function Trail(x: seq<bool>, cap: nat): (n: nat)
    requires cap <= |x|
    ensures n <= cap && (forall i | |x| - n <= i < |x| :: !x[i]) && (n < cap ==> x[|x| - 1 - n])
  {
    if cap == 0 || x[|x| - 1] then 0 else 1 + Trail(x[..|x| - 1], cap - 1)
  }

  /** `m_prev_leading_zeros`, `m_prev_trailing_zeros` and `m_prev_none_zeros`. */
  datatype Window = Window(lz: nat, tz: nat, nz: nat)

  const NoWindow := Window(65, 65, 64)

  predicate Zero(x: seq<bool>) { forall i | 0 <= i < |x| :: !x[i] }

  /** The window of meaningful bits of `x`: at most 31 leading and 32 trailing zeros are counted. */
  function WindowOf(x: Word): Window {
    var l, t := Lead(x, 31), Trail(x, 32);
    Window(l, t, 64 - l - t)
  }

  predicate Reuses(x: Word, w: Window) {
    w.lz > 0 && w.lz <= WindowOf(x).lz && w.tz <= WindowOf(x).tz
  }

  function NextWindow(x: Word, w: Window): Window {
    if Zero(x) || Reuses(x, w) then w else WindowOf(x)
  }

  /** A window that can be reused is one that was made by `WindowOf`. */
  predicate WindowOk(w: Window) {
    w.lz <= 31 && w.lz > 0 ==> w.tz <= 32 && w.nz > 0 && w.lz + w.tz + w.nz == 64
  }

  function ValueCode(x: Word, w: Window): (r: seq<bool>)
    requires WindowOk(w)
    ensures |r| >= 1
  {
    if Zero(x) then [false]
    else if Reuses(x, w) then [true, false] + x[w.lz..w.lz + w.nz]
    else
      var n := WindowOf(x);
      [true, true] + ToBits(n.lz, 5) + ToBits(n.nz, 6) + x[n.lz..n.lz + n.nz]
  }

  /** What the reader remembers of the last window: its `leading_zeros` and `none_zeros`. */
  datatype Seen = Seen(lz: nat, nz: nat)

  datatype Xor = Xor(x: Word, seen: Seen)

  const NothingSeen := Seen(0, 0)

  /** `x` rebuilt from its meaningful bits. */
  function Padded(win: seq<bool>, lz: nat): Word
    requires lz + |win| <= 64
  {
    Repeat(false, lz) + win + Repeat(false, 64 - lz - |win|)
  }

  /** A window that was never described, or does not fit a word, cannot be read. */
  function ReadWindowed(s: seq<bool>, w: Seen): (r: Parsed<Xor>)
    ensures r.Parsed? ==> |r.rest| <= |s|
  {
    if w.nz == 0 || w.lz + w.nz > 64 then Cut
    else match Take(s, w.nz)
      case Cut => Cut
      case Parsed(b, rest) => Parsed(Xor(Padded(b, w.lz), w), rest)
  }

  /** The five and six bits that describe a new window; 64 meaningful bits are stored as 0. */
  function ReadSeen(b: seq<bool>): Seen
    requires |b| == 11
  {
    var n := Unsigned(b[5..]);
    Seen(Unsigned(b[..5]), if n == 0 then 64 else n)
  }

  /** Reads the XOR of a value with its predecessor. */
  function ReadValue(s: seq<bool>, w: Seen): (r: Parsed<Xor>)
    ensures r.Parsed? ==> |r.rest| < |s|
  {
    if |s| < 1 then Cut
    else if !s[0] then Parsed(Xor(Repeat(false, 64), w), s[1..])
    else if |s| < 2 then Cut
    else if !s[1] then ReadWindowed(s[2..], w)
    else match Take(s[2..], 11)
      case Cut => Cut
      case Parsed(b, rest) => ReadWindowed(rest, ReadSeen(b))
  }

  function SeenOf(w: Window): Seen {
    if w.lz == 65 then NothingSeen else Seen(w.lz, w.nz)
  }

  /** The counted zeros leave at least one meaningful bit, and nothing else meaningful outside. */
  lemma {:induction false} WindowOfOk(x: Word)
    requires !Zero(x)
    ensures var n := WindowOf(x); n.lz <= 31 && n.tz <= 32 && n.nz > 0 && n.lz + n.tz + n.nz == 64
  {
    assert WindowOf(x).lz == 31 ==> WindowOf(x).tz <= 32;
  }

  lemma {:induction false} PaddedBack(x: Word, lz: nat, nz: nat)
    requires lz + nz <= 64
    requires forall i | 0 <= i < lz :: !x[i]
    requires forall i | lz + nz <= i < 64 :: !x[i]
    ensures Padded(x[lz..lz + nz], lz) == x
  {
  }

  lemma {:induction false} ReadWindowedFront(x: Word, w: Seen, rest: seq<bool>)
    requires w.nz > 0 && w.lz + w.nz <= 64
    requires forall i | 0 <= i < w.lz :: !x[i]
    requires forall i | w.lz + w.nz <= i < 64 :: !x[i]
    ensures ReadWindowed(x[w.lz..w.lz + w.nz] + rest, w) == Parsed(Xor(x, w), rest)
  {
    TakeFront(x[w.lz..w.lz + w.nz], rest);
    PaddedBack(x, w.lz, w.nz);
  }

  lemma {:induction false} ReadSeenBack(lz: nat, nz: nat)
    requires lz <= 31 && 0 < nz <= 64
    ensures ReadSeen(ToBits(lz, 5) + ToBits(nz, 6)) == Seen(lz, nz)
  {
    var b := ToBits(lz, 5) + ToBits(nz, 6);
    assert b[..5] == ToBits(lz, 5) && b[5..] == ToBits(nz, 6);
    assert Pow2(5) == 32 && Pow2(6) == 64;
    UnsignedRoundTrip(lz, 5);
    if nz < 64 {
      UnsignedRoundTrip(nz, 6);
    } else {
      ToBitsShift(0, 6);
      UnsignedRoundTrip(0, 6);
    }
  }

  lemma {:induction false} ZeroWord(x: Word)
    requires Zero(x)
    ensures x == Repeat(false, 64)
  {
  }

  /** Reading a value code consumes exactly that code and recovers the XOR and the window. */
  lemma {:induction false} ValueCodeReads(x: Word, w: Window, rest: seq<bool>)
    requires WindowOk(w)
    ensures ReadValue(ValueCode(x, w) + rest, SeenOf(w)) == Parsed(Xor(x, SeenOf(NextWindow(x, w))), rest)
  {
    hide Zero, Reuses, WindowOf, ReadWindowed, ReadSeen, Take, ToBits, Repeat;
    var s := ValueCode(x, w) + rest;
    if Zero(x) {
      ZeroWord(x);
      assert s[1..] == rest;
    } else if Reuses(x, w) {
      ReusedReads(x, w, rest);
      assert s[2..] == x[w.lz..w.lz + w.nz] + rest;
    } else {
      NewWindowReads(x, w, rest);
    }
  }

  lemma {:induction false} ReusedReads(x: Word, w: Window, rest: seq<bool>)
    requires WindowOk(w) && !Zero(x) && Reuses(x, w)
    ensures w.lz + w.nz <= 64
    ensures ReadWindowed(x[w.lz..w.lz + w.nz] + rest, SeenOf(w)) == Parsed(Xor(x, SeenOf(w)), rest)
  {
    hide ReadWindowed, ToBits;
    ReadWindowedFront(x, SeenOf(w), rest);
  }

  lemma {:induction false} NewWindowReads(x: Word, w: Window, rest: seq<bool>)
    requires WindowOk(w) && !Zero(x) && !Reuses(x, w)
    ensures ReadValue(ValueCode(x, w) + rest, SeenOf(w)) == Parsed(Xor(x, SeenOf(WindowOf(x))), rest)
  {
    hide Lead, Trail, Unsigned, ReadWindowed, ReadSeen, Take, ToBits, Zero, Reuses;
    var n := WindowOf(x);
    WindowOfOk(x);
    var desc, win := ToBits(n.lz, 5) + ToBits(n.nz, 6), x[n.lz..n.lz + n.nz];
    Regroup([true, true], ToBits(n.lz, 5), ToBits(n.nz, 6), win, rest);
    DropPrefix([true, true], desc, win + rest);
    TakeFront(desc, win + rest);
    ReadSeenBack(n.lz, n.nz);
    ReadWindowedFront(x, Seen(n.lz, n.nz), rest);
  }

  lemma {:induction false} Regroup<T>(a: seq<T>, b: seq<T>, c: seq<T>, d: seq<T>, e: seq<T>)
    ensures a + b + c + d + e == a + (b + c) + (d + e)
  {
  }
}
