/**
 `Compressor_v2` of src/core/compress.cpp in its own form: fields updated point by point and a bit set
 that throws when it is full.  Writing refines the machine of GorillaStream, and so does reading.
 */
module CompressorV2 {
  import opened ByteBits
  import opened BitCode
  import opened BitSet
  import opened BitWriter
  import opened StreamCode
  import opened Series
  import opened GorillaCode
  import opened GorillaStream
  import opened GorillaReader
  import opened GorillaTheorems
  import opened GorillaRestore
  import GorillaRoom

  class CompressorV2 {
    const bitset: BitSet
    var start: U64
    var count: nat
    var prevT: U64
    var prevDelta: U64
    var prevV: Word
    var win: Window
    var full: bool

    ghost predicate Valid()
      reads this, bitset
    {
      bitset.Valid() && WindowOk(win)
    }

    ghost function Bits(): (r: seq<bool>)
      requires bitset.Valid()
      reads this, bitset, bitset.bits
    {
      bitset.Contents()
    }

    ghost function Room(): nat
      reads bitset
    {
      8 * bitset.bits.Length
    }

    /** The compressor as a state of the machine. */
    ghost function View(): Enc
      requires bitset.Valid()
      reads this, bitset, bitset.bits
    {
      Enc(start, Room(), Bits(), count, prevT, prevDelta, prevV, win, full)
    }

    constructor (start: U64, base: array<bv8>)
      ensures Valid() && View() == Init(start, 8 * base.Length) && bitset.bits == base && fresh(bitset)
    {
      bitset := new BitSet(base);
      this.start, count, prevT, prevDelta := start, 0, start, 0;
      prevV, win, full := Repeat(false, 64), NoWindow, false;
      new;
      assert Bits() == [];
    }

    /** Appends the delta of deltas. */
    method PutTime(dod: int, ghost base: seq<bool>) returns (ok: bool)
      requires bitset.Valid() && base <= Bits()
      modifies bitset`cursor, bitset`start, bitset.bits
      ensures bitset.Valid()
      ensures ok <==> |old(Bits())| + |DodCode(dod)| <= Room()
      ensures if ok then Bits() == old(Bits()) + DodCode(dod) else Holds(bitset, base)
    {
      hide BitsOf, Bytes, ToBits;
      Prefixes();
      if dod == 0 {
        ok := Put(bitset, [0x00], 1, 0, base, [false]);
      } else if -8192 <= dod <= 8191 {
        BytesLow(dod, 16, 14);
        ok := PutTwo(bitset, [0x80], 2, 0, Bytes(dod, 16), 14, 16 - 14, base, DodCode(dod));
      } else if -65536 <= dod <= 65535 {
        BytesLow(dod, 32, 17);
        ok := PutTwo(bitset, [0xC0], 3, 0, Bytes(dod, 32), 17, 32 - 17, base, DodCode(dod));
      } else {
        BytesLow(dod, 64, 33);
        ok := PutTwo(bitset, [0xE0], 3, 0, Bytes(dod, 64), 33, 64 - 33, base, DodCode(dod));
      }
    }

    /** Appends the XOR with the previous value and remembers the window it used. */
    method PutValue(x: Word, ghost base: seq<bool>) returns (ok: bool)
      requires Valid() && base <= Bits()
      modifies bitset`cursor, bitset`start, bitset.bits, `win
      ensures Valid()
      ensures ok <==> |old(Bits())| + |ValueCode(x, old(win))| <= Room()
      ensures if ok then Bits() == old(Bits()) + ValueCode(x, old(win)) && win == NextWindow(x, old(win))
              else Holds(bitset, base) && win == old(win)
    {
      hide Lead, Trail, BitsOf, BytesFrom;
      Prefixes();
      if Zero(x) {
        ok := Put(bitset, [0x00], 1, 0, base, [false]);
      } else {
        WordBytes(x);
        if win.lz > 0 && win.lz <= Lead(x, 31) && win.tz <= Trail(x, 32) {
          ok := PutTwo(bitset, [0x80], 2, 0, BytesFrom(x), win.nz, win.lz, base, ValueCode(x, win));
        } else {
          ok := PutWindow(x, base);
        }
      }
    }

    /** Describes a new window and appends the meaningful bits. */
    method PutWindow(x: Word, ghost base: seq<bool>) returns (ok: bool)
      requires Valid() && base <= Bits() && !Zero(x)
      modifies bitset`cursor, bitset`start, bitset.bits, `win
      ensures Valid()
      ensures ok <==> |old(Bits())| + |NewWindowCode(x)| <= Room()
      ensures if ok then Bits() == old(Bits()) + NewWindowCode(x) && win == WindowOf(x)
              else Holds(bitset, base) && win == old(win)
    {
      hide Lead, Trail, ToBits, BytesFrom, BitsOf, ValueCode, NewWindowCode, Bytes;
      var n := WindowOf(x);
      WindowOfOk(x);
      WordBytes(x);
      ghost var before := Bits();
      ghost var first, second := DescribeLead(n), DescribeRest(x, n);
      NewWindowParts(x);
      Prefixes();
      BytesLow(n.lz, 8, 5);
      ok := PutTwo(bitset, [0xC0], 2, 0, Bytes(n.lz, 8), 5, 8 - 5, base, first);
      if ok {
        BytesLow(n.nz, 8, 6);
        ok := PutTwo(bitset, Bytes(n.nz, 8), 6, 8 - 6, BytesFrom(x), n.nz, n.lz, base, second);
        assert before + first + second == before + (first + second);
        if ok { win := n; }
      }
    }

    /** `compress1`. */
    method Compress1(t: U64, v: Word, ghost base: seq<bool>) returns (ok: bool)
      requires Valid() && start <= t && base == Bits()
      modifies bitset`cursor, bitset`start, bitset.bits, `prevT, `prevDelta, `prevV, `count
      ensures Valid() && (ok <==> CompressFirst(old(View()), t, v).accepted)
      ensures if ok then View() == CompressFirst(old(View()), t, v).enc
              else Holds(bitset, base) && CompressFirst(old(View()), t, v).enc == Refused(base)
    {
      hide HeaderCode;
      ok := PutHeader(bitset, t - start, v, base);
      if ok {
        prevT, prevV, prevDelta, count := t, v, (t - start) % TWO32, Bump(count);
      }
    }

    /** The part of `compress` for a point that is neither the first nor too old. */
    method CompressLater(t: U64, v: Word, ghost base: seq<bool>) returns (ok: bool)
      requires Valid() && prevT <= t && base == Bits()
      modifies bitset`cursor, bitset`start, bitset.bits, `prevT, `prevDelta, `prevV, `count, `win
      ensures Valid() && (ok <==> CompressNext(old(View()), t, v).accepted)
      ensures if ok then View() == CompressNext(old(View()), t, v).enc
              else Holds(bitset, base) && CompressNext(old(View()), t, v).enc == Refused(base)
    {
      hide DodCode, ValueCode, NextWindow, Dod, BitsOf, WindowOk;
      var delta := t - prevT;
      var dod := Dod(delta, prevDelta);
      ghost var x := XorWord(v, prevV);
      ok := PutTime(dod, base);
      if ok {
        prevT, prevDelta := t, delta;
        ok := PutValue(XorWord(v, prevV), base);
        assert base + DodCode(dod) + ValueCode(x, old(win)) == base + (DodCode(dod) + ValueCode(x, old(win)));
        if ok {
          count, prevV := Bump(count), v;
        }
      }
    }

    /** The state that a refused call leaves once the bit set is cut back to `base`. */
    ghost function Refused(base: seq<bool>): Enc
      reads this, bitset
    {
      Enc(start, Room(), base, count, prevT, prevDelta, prevV, win, true)
    }

    /** `compress`: one step of the machine, with the bit set cut back when it throws. */
    method Compress(t: U64, v: Word) returns (ok: bool)
      requires Valid() && start <= t
      modifies this, bitset, bitset.bits
      ensures Valid() && bitset.bits == old(bitset.bits)
      ensures Outcome(View(), ok) == GorillaStream.Compress(old(View()), t, v)
      ensures ok <==> GorillaRoom.Takes(old(View()), t, v)
    {
      hide CompressFirst, CompressNext, GorillaRoom.Takes;
      ghost var base := Bits();
      GorillaRoom.AcceptedIff(View(), t, v);
      bitset.SaveCheckPoint();
      if count == 0 {
        ok := Compress1(t, v, base);
      } else if prevT > t {
        return true;
      } else {
        ok := CompressLater(t, v, base);
      }
      if !ok {
        bitset.RestoreFromCheckPoint();
        full := true;
      }
    }

    /** `uncompress` without restoring. */
    method Uncompress() returns (ok: bool, dps: seq<Point>)
      requires Valid()
      ensures Bits() == [] ==> ok && dps == []
      ensures var goal := Decode(start, Bits());
              goal.Decoded? ==> ok && goal.points == dps
    {
      hide Decode;
      var d;
      ok, dps, d := GorillaReader.Uncompress(bitset, start);
    }

    /** `restore`: takes over a saved stream, or the one in its own buffer, and sets the fields from reading it. */
    method Restore(base: array?<bv8>, offset: nat, from: nat) returns (ok: bool, dps: seq<Point>)
      requires Valid() && offset > 0 && from < 8 && 8 * offset + from <= Room()
      requires base != null ==> 8 * offset + from <= 8 * base.Length
      modifies this, bitset`cursor, bitset`start, bitset.bits
      ensures bitset.Valid()
      ensures Bits() == BitsOf(old(if base == null then bitset.bits[..] else base[..]))[..8 * offset + from]
      ensures var goal := Decode(old(start), Bits());
              goal.Decoded? ==>
                ok && dps == goal.points && View() == Restored(old(start), Room(), Bits()).(full := old(full))
    {
      hide Decode;
      bitset.CopyFrom(base, offset, from);
      var d;
      ok, dps, d := GorillaReader.Uncompress(bitset, start);
      if ok {
        count, prevDelta, prevT, prevV := |dps| % 0x1_0000, d.delta, d.t, d.v;
        win := WindowRead(Seen(d.lz, d.nz));
      }
    }
  }

  /**
   Writing a series through the class and reading it back through the class: on a page below the limit,
   if the timestamps are in range, the points come back exactly, up to the first call that was refused.
   */
  method WriteAndRead(start: U64, base: array<bv8>, calls: seq<Point>) returns (used: nat, out: seq<Point>)
    requires Callable(start, calls) && 8 * base.Length < FOOLED
    modifies base
    ensures used <= |calls| && !Play(start, 8 * base.Length, calls[..used]).refused
    ensures used < |calls| ==> Play(start, 8 * base.Length, calls[..used + 1]).refused
    ensures InRange(start, Kept(calls[..used]), 33) ==> out == Kept(calls[..used])
  {
    hide Play, Decode, InRange, Kept, GorillaStream.Compress;
    var c := new CompressorV2(start, base);
    used := 0;
    PlayNothing(start, 8 * base.Length);
    assert calls[..0] == [];
    while used < |calls|
      invariant used <= |calls| && c.Valid() && fresh(c) && fresh(c.bitset) && c.bitset.bits == base
      invariant Play(start, 8 * base.Length, calls[..used]) == Trace(c.View(), Kept(calls[..used]), false)
    {
      ghost var before := c.View();
      var ok := c.Compress(calls[used].t, calls[used].v);
      PlayNext(start, 8 * base.Length, calls, used, before, c.View(), ok);
      if !ok { break; }
      used := used + 1;
    }
    ghost var room := 8 * base.Length;
    ghost var n := RoundTrip(start, room, calls[..used]);
    assert calls[..used][..used] == calls[..used];
    assert calls[..used][..n] == calls[..used];
    if Kept(calls[..used]) == [] { NothingStored(start, room, calls[..used]); }
    var ok;
    ok, out := c.Uncompress();
  }

  lemma {:induction false} PlayNothing(start: U64, room: nat)
    ensures Play(start, room, []) == Trace(Init(start, room), Kept([]), false)
  {
  }

  lemma {:induction false} NothingStored(start: U64, room: nat, calls: seq<Point>)
    requires Callable(start, calls) && room < FOOLED && Play(start, room, calls).stored == []
    ensures Play(start, room, calls).enc.bits == []
  {
    hide Play, Decode, InRange;
    PlayHolds(start, room, calls);
  }

  /** One more call of a run that has not been refused. */
  lemma {:induction false} PlayNext(start: U64, room: nat, calls: seq<Point>, i: nat, e: Enc, e': Enc, ok: bool)
    requires Callable(start, calls) && i < |calls| && room < FOOLED && e.start == start && WindowOk(e.win)
    requires Play(start, room, calls[..i]) == Trace(e, Kept(calls[..i]), false)
    requires Outcome(e', ok) == GorillaStream.Compress(e, calls[i].t, calls[i].v)
    ensures !ok ==> Play(start, room, calls[..i + 1]).refused && e'.bits == e.bits && e'.start == e.start
    ensures ok ==> Play(start, room, calls[..i + 1]) == Trace(e', Kept(calls[..i + 1]), false)
  {
    hide GorillaStream.Compress, TraceOk, Keep;
    var tr, more := Play(start, room, calls[..i]), calls[..i + 1];
    assert more[..i] == calls[..i] && more[i] == calls[i];
    PlayHolds(start, room, calls[..i]);
    FeedStores(tr, calls[i]);
    FeedShape(tr, calls[i]);
  }

  // ---------------------------------------------------------------- codes split as they are appended

  function NewWindowCode(x: Word): seq<bool>
    requires !Zero(x)
  {
    ValueCode(x, NoWindow)
  }

  function DescribeLead(n: Window): seq<bool> { [true, true] + ToBits(n.lz, 5) }

  function DescribeRest(x: Word, n: Window): seq<bool>
    requires n.lz + n.nz <= 64
  {
    ToBits(n.nz, 6) + x[n.lz..n.lz + n.nz]
  }

  lemma {:induction false} NewWindowParts(x: Word)
    requires !Zero(x)
    ensures NewWindowCode(x) == DescribeLead(WindowOf(x)) + DescribeRest(x, WindowOf(x))
  {
  }
}
