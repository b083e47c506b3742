/**
 `Compressor_v1` of src/core/compress.cpp in its own form: a page of bytes written through a cursor,
 and loops that pack and unpack the bytes of a value under a control byte.
 */
module CompressorV1 {
  import opened ByteBits
  import opened BitCode
  import opened StreamCode
  import opened Series
  import opened ByteCode
  import opened ByteStream
  import ByteRoom

  // ---------------------------------------------------------------- packing and unpacking a value

  /** `1 << (8 - i - 1)`. */
  function OneBit(i: nat): bv8
    requires i < 8
  {
    ByteBits.Shr(0x80, i)
  }

  lemma SetBit(b: bv8, i: nat, j: nat)
    requires i < 8 && j < 8
    ensures Bit(b | OneBit(i), j) == (j == i || Bit(b, j))
  {
  }

  lemma ShiftBit(b: bv8, j: nat)
    requires j < 8
    ensures Bit(b << 1, j) == (j < 7 && Bit(b, j + 1)) && Bit(b, 0) == (b & 0x80 != 0)
  {
  }

  lemma NoBits(j: nat)
    requires j < 8
    ensures !Bit(0, j)
  {
  }

  lemma {:induction false} PackedSnoc(x: seq<bv8>, b: bv8)
    ensures Packed(x + [b]) == Packed(x) + if b != 0 then [b] else []
  {
    var tail := if b != 0 then [b] else [];
    if x == [] {
      assert [b][1..] == [] && x + [b] == [b];
      assert Packed([b]) == tail + [] == [] + tail;
    } else {
      PackedSnoc(x[1..], b);
      assert (x + [b])[1..] == x[1..] + [b];
      var head := if x[0] != 0 then [x[0]] else [];
      assert Packed(x + [b]) == head + (Packed(x[1..]) + tail) == head + Packed(x[1..]) + tail;
    }
  }

  lemma {:induction false} ControlIs(control: bv8, x: Value)
    requires forall j | 0 <= j < 8 :: Bit(control, j) == (x[j] != 0)
    ensures control == MakeByte(Flags(x))
  {
    hide MakeByte;
    assert ListBits(control) == Flags(x);
    MakeByteOf(control);
  }

  /** The control byte, then the bytes that are not zero. */
  method Pack(x: Value) returns (code: seq<bv8>)
    ensures code == XorCode(x)
  {
    hide Packed, Flags, MakeByte, OneBit, Bit;
    var control: bv8 := 0;
    code := [];
    var i := 0;
    forall j | 0 <= j < 8 ensures !Bit(0, j) { NoBits(j); }
    assert code == Packed(x[..0]) by { PackedNone(x); }
    while i < 8
      invariant 0 <= i <= 8 && code == Packed(x[..i])
      invariant forall j | 0 <= j < 8 :: Bit(control, j) == (j < i && x[j] != 0)
    {
      PackedSnoc(x[..i], x[i]);
      assert x[..i + 1] == x[..i] + [x[i]];
      if x[i] != 0 {
        var marked := control | OneBit(i);
        forall j | 0 <= j < 8 ensures Bit(marked, j) == (j == i || Bit(control, j)) { SetBit(control, i, j); }
        control := marked;
        code := code + [x[i]];
      }
      i := i + 1;
    }
    assert x[..8] == x;
    ControlIs(control, x);
    code := [control] + code;
  }

  lemma {:induction false} PackedNone(x: seq<bv8>)
    ensures Packed(x[..0]) == []
  {
  }

  /** What is still to be unpacked continues what was. */
  ghost predicate Unpacking(goal: Got<seq<bv8>>, done: seq<bv8>, flags: seq<bool>, s: seq<bv8>) {
    goal.Got? ==>
      var r := Unpacked(flags, s);
      r.Got? && goal == Got(done + r.value, r.rest)
  }

  lemma {:induction false} UnpackingStep(goal: Got<seq<bv8>>, done: seq<bv8>, flags: seq<bool>, s: seq<bv8>)
    requires Unpacking(goal, done, flags, s) && flags != []
    ensures goal.Got? && flags[0] ==> s != []
    ensures flags[0] && s != [] ==> Unpacking(goal, done + [s[0]], flags[1..], s[1..])
    ensures !flags[0] ==> Unpacking(goal, done + [0], flags[1..], s)
  {
    if goal.Got? {
      if flags[0] {
        var r := Unpacked(flags[1..], s[1..]);
        assert done + ([s[0]] + r.value) == done + [s[0]] + r.value;
      } else {
        var r := Unpacked(flags[1..], s);
        assert done + ([0] + r.value) == done + [0] + r.value;
      }
    }
  }

  lemma {:induction false} TopFlag(flags: seq<bool>, control: bv8)
    requires 0 < |flags| <= 8 && forall j | 0 <= j < |flags| :: Bit(control, j) == flags[j]
    ensures flags[0] == (control & 0x80 != 0)
    ensures forall j | 0 <= j < |flags| - 1 :: Bit(control << 1, j) == flags[1..][j]
  {
    forall j | 0 <= j < |flags| ensures j < |flags| - 1 ==> Bit(control << 1, j) == flags[1..][j] {
      ShiftBit(control, j);
    }
    ShiftBit(control, 0);
  }

  /** Reads the bytes of a value from position `b` on, as its control byte says. */
  method Unpack(s: seq<bv8>, b: nat, control: bv8) returns (ok: bool, b': nat, x: Value)
    requires b <= |s|
    ensures ok ==> b <= b' <= |s|
    ensures var goal := Unpacked(ListBits(control), s[b..]);
            goal.Got? ==> ok && goal == Got(x, s[b'..])
  {
    hide Bit, Unpacked;
    ghost var goal, flags := Unpacked(ListBits(control), s[b..]), ListBits(control);
    var done: seq<bv8>, c, i := [], control, 0;
    ok, b', x := true, b, NoValue;
    assert Unpacking(goal, [], flags, s[b..]) by { if goal.Got? { assert [] + goal.value == goal.value; } }
    while i < 8
      invariant 0 <= i <= 8 && |done| == i && b <= b' <= |s| && |flags| == 8 - i
      invariant forall j | 0 <= j < |flags| :: Bit(c, j) == flags[j]
      invariant Unpacking(goal, done, flags, s[b'..])
    {
      TopFlag(flags, c);
      UnpackingStep(goal, done, flags, s[b'..]);
      if c & 0x80 != 0 {
        if b' == |s| { return false, b', x; }
        assert s[b'..][1..] == s[b' + 1..];
        done := done + [s[b']];
        b' := b' + 1;
      } else {
        done := done + [0];
      }
      c := c << 1;
      flags := flags[1..];
      i := i + 1;
    }
    x := done;
    UnpackingDone(goal, done, s[b'..]);
  }

  lemma {:induction false} UnpackingDone(goal: Got<seq<bv8>>, done: seq<bv8>, s: seq<bv8>)
    requires Unpacking(goal, done, [], s)
    ensures goal.Got? ==> goal == Got(done, s)
  {
    assert done + [] == done;
  }

  // ---------------------------------------------------------------- the compressor

  class CompressorV1 {
    const base: array<bv8>
    const ms: bool
    var cursor: nat
    var start: U64
    var count: nat
    var prevT: U64
    var prevDelta: U64
    var prevV: Value
    var full: bool

    /** The page must have room for the first point, which is written without a check. */
    ghost predicate Valid()
      reads this
    {
      cursor <= base.Length && base.Length >= 12
    }

    /** The compressor as a state of the machine. */
    ghost function View(): Enc
      requires cursor <= base.Length
      reads this, base
    {
      Enc(start, ms, base.Length, base[..cursor], count, prevT, prevDelta, prevV, full)
    }

    constructor (start: U64, ms: bool, base: array<bv8>)
      requires base.Length >= 12
      ensures Valid() && View() == Init(start, ms, base.Length) && this.base == base
    {
      this.base, this.ms, this.start := base, ms, start;
      cursor, count, prevT, prevDelta, prevV, full := 0, 0, start, 0, NoValue, false;
    }

    /** Copies `code` to the cursor and moves the cursor behind it. */
    method Write(code: seq<bv8>)
      requires cursor + |code| <= base.Length
      modifies `cursor, base
      ensures cursor == old(cursor) + |code| <= base.Length
      ensures base[..cursor] == old(base[..cursor]) + code
    {
      var i := 0;
      ghost var before := base[..cursor];
      while i < |code|
        invariant 0 <= i <= |code| && cursor == old(cursor)
        invariant base[..cursor + i] == before + code[..i]
      {
        base[cursor + i] := code[i];
        assert base[..cursor + i + 1] == base[..cursor + i] + [code[i]];
        assert code[..i + 1] == code[..i] + [code[i]];
        i := i + 1;
      }
      assert code[..|code|] == code;
      cursor := cursor + |code|;
    }

    /** `compress1`. */
    method Compress1(t: U64, v: Value)
      requires Valid() && start <= t && cursor == 0
      modifies this, base
      ensures Valid() && Outcome(View(), true) == ByteStream.Compress(old(View()), t, v)
    {
      hide Little;
      prevDelta := t - start;
      ghost var before := View();
      Write(Little(prevDelta, 32));
      Write(v);
      prevT, prevV, count := t, v, Bump(count);
      assert base[..cursor] == ByteStream.HeaderCode(t - start, v);
    }

    /** `compress`: one step of the machine. */
    method Compress(t: U64, v: Value) returns (ok: bool)
      requires Valid() && start <= t
      modifies this, base
      ensures Valid() && Outcome(View(), ok) == ByteStream.Compress(old(View()), t, v)
      ensures ok <==> ByteRoom.Takes(old(View()), t, v)
    {
      hide Little, XorCode, ByteRoom.Takes;
      ghost var before := View();
      ByteRoom.AcceptedIff(before, t, v);
      if cursor == 0 {
        Compress1(t, v);
        return true;
      }
      assert before.bytes != [];
      if prevT > t { return true; }
      var delta := t - prevT;
      var dod := Dod(delta, prevDelta);
      var buffer: seq<bv8>;
      if -Limit(ms) <= dod <= Limit(ms) {
        buffer := Little(dod, ShortBits(ms));
      } else {
        buffer := Little(-Limit(ms) - 1, ShortBits(ms)) + Little(dod, 32);
      }
      var packed := Pack(XorBytes(v, prevV));
      buffer := buffer + packed;
      assert buffer == PointCode(before, t, v);
      if |buffer| > base.Length - cursor {
        full := true;
        return false;
      }
      Write(buffer);
      prevT, prevV, prevDelta, count := t, v, delta, Bump(count);
      ok := true;
    }

    /** `uncompress`: on every stream that can be decoded, the points and the state the model decodes. */
    method Uncompress() returns (ok: bool, dps: seq<Point>, d: Dec)
      requires Valid()
      ensures cursor == 0 ==> ok && dps == []
      ensures var goal := Decode(start, ms, base[..cursor]);
              goal.Decoded? ==> ok && goal == Decoded(dps, d)
    {
      hide ReadPoint, HeaderOf;
      var s := base[..cursor];
      ghost var goal := Decode(start, ms, s);
      ok, dps, d := true, [], Dec(start, 0, NoValue);
      if cursor == 0 { return; }
      if cursor < 12 { return false, [], d; }
      d := HeaderOf(start, s[..12]);
      dps := [Point(d.t, d.v)];
      var b := 12;
      while b < cursor
        invariant 12 <= b <= cursor && s == base[..cursor]
        invariant goal.Decoded? ==> Remains(ms, goal, dps, d, s[b..])
      {
        ghost var before, rest := d, s[b..];
        ok, b, d := GetPoint(ms, s, b, d);
        if goal.Decoded? { RemainsStep(ms, goal, dps, before, rest, d, if ok then s[b..] else []); }
        if !ok { return; }
        dps := dps + [Point(d.t, d.v)];
      }
      if goal.Decoded? { assert s[b..] == [] && dps + [] == dps; }
    }

    /** `restore`: takes over saved bytes and sets the fields from reading them. */
    method Restore(saved: seq<bv8>, offset: nat) returns (ok: bool, dps: seq<Point>)
      requires Valid() && offset <= |saved| && offset <= base.Length
      requires cursor == 0 && View() == Init(start, ms, base.Length)
      modifies this, base
      ensures cursor == offset && base[..cursor] == saved[..offset]
      ensures (offset == 0 || Decode(start, ms, saved[..offset]).Decoded?) ==>
                ok && View() == Restored(start, ms, base.Length, saved[..offset])
    {
      hide Decode;
      forall i | 0 <= i < offset { base[i] := saved[i]; }
      cursor := offset;
      assert base[..cursor] == saved[..offset];
      var d;
      ok, dps, d := Uncompress();
      if cursor != 0 && ok {
        prevDelta, prevV, prevT, count := d.delta, d.v, d.t, |dps| % 0x1_0000;
      }
    }
  }

  /** `goal` is what was read so far followed by what is still to be read. */
  ghost predicate Remains(ms: bool, goal: Decoded, dps: seq<Point>, d: Dec, rest: seq<bv8>)
    requires goal.Decoded?
  {
    var r := DecodeRest(ms, d, rest);
    r.Decoded? && goal == Decoded(dps + r.points, r.last)
  }

  lemma {:induction false} RemainsStep(ms: bool, goal: Decoded, dps: seq<Point>, d: Dec, rest: seq<bv8>,
                                       d': Dec, rest': seq<bv8>)
    requires goal.Decoded? && Remains(ms, goal, dps, d, rest) && rest != []
    requires ReadPoint(ms, d, rest).Got? ==> ReadPoint(ms, d, rest) == Got(d', rest')
    ensures ReadPoint(ms, d, rest).Got? && Remains(ms, goal, dps + [Point(d'.t, d'.v)], d', rest')
  {
    hide ReadPoint;
    var ps := DecodeRest(ms, d', rest').points;
    assert dps + ([Point(d'.t, d'.v)] + ps) == dps + [Point(d'.t, d'.v)] + ps;
  }

  /** The delta of deltas at position `b`. */
  method GetTime(ms: bool, s: seq<bv8>, b: nat) returns (ok: bool, b': nat, dod: int)
    requires b < |s|
    ensures ok ==> b < b' <= |s| && -TWO32 <= dod < TWO32
    ensures var goal := ReadTime(s[b..], ms);
            goal.Got? ==> ok && goal == Got(dod, s[b'..])
  {
    hide ReadLittle;
    ok, b', dod := false, b, 0;
    var n := ShortBits(ms) / 8;
    if |s| < b + n { return; }
    assert s[b..][..n] == s[b..b + n] && s[b..][n..] == s[b + n..];
    Signed32(s[b..b + n]);
    ok, b', dod := true, b + n, ReadLittle(s[b..b + n]);
    if dod == -Limit(ms) - 1 {
      if |s| < b' + 4 { return false, b', 0; }
      assert s[b'..][..4] == s[b'..b' + 4] && s[b'..][4..] == s[b' + 4..];
      Signed32(s[b'..b' + 4]);
      b', dod := b' + 4, ReadLittle(s[b'..b' + 4]);
    }
  }

  /** One round of the loop of `uncompress`, from position `b` on. */
  method GetPoint(ms: bool, s: seq<bv8>, b: nat, d: Dec) returns (ok: bool, b': nat, d': Dec)
    requires b < |s|
    ensures ok ==> b < b' <= |s|
    ensures var goal := ReadPoint(ms, d, s[b..]);
            goal.Got? ==> ok && goal == Got(d', s[b'..])
  {
    hide ReadTime, Unpacked, ListBits, XorBytes;
    d' := d;
    var dod;
    ok, b', dod := GetTime(ms, s, b);
    if !ok { return; }
    var delta := Wrap(d.delta + dod);
    if b' == |s| { return false, b', d'; }
    var x;
    assert s[b'..][1..] == s[b' + 1..];
    ok, b', x := Unpack(s, b' + 1, s[b']);
    d' := Dec(Wrap(d.t + delta), delta, XorBytes(x, d.v));
  }

  // ---------------------------------------------------------------- writing and reading a series

  /**
   Writing a series through the class and reading it back through the class: if the timestamps are in range,
   the points come back exactly, up to the first call that was refused.
   */
  method WriteAndRead(start: U64, ms: bool, base: array<bv8>, calls: seq<Point>) returns (used: nat, out: seq<Point>)
    requires Callable(start, calls) && base.Length >= 12
    modifies base
    ensures used <= |calls| && !Play(start, ms, base.Length, calls[..used]).refused
    ensures used < |calls| ==> Play(start, ms, base.Length, calls[..used + 1]).refused
    ensures InRange(start, Kept(calls[..used]), 32) ==> out == Kept(calls[..used])
  {
    hide Play, Decode, InRange, Kept, ByteStream.Compress;
    var c := new CompressorV1(start, ms, base);
    used := 0;
    PlayNothing(start, ms, base.Length);
    assert calls[..0] == [];
    while used < |calls|
      invariant used <= |calls| && c.Valid() && fresh(c) && c.base == base
      invariant Play(start, ms, base.Length, calls[..used]) == Trace(c.View(), Kept(calls[..used]), false)
    {
      ghost var before := c.View();
      var ok := c.Compress(calls[used].t, calls[used].v);
      PlayNext(start, ms, base.Length, calls, used, before, c.View(), ok);
      if !ok { break; }
      used := used + 1;
    }
    ghost var n := PlayHolds(start, ms, base.Length, calls[..used]);
    var ok, d;
    ok, out, d := c.Uncompress();
  }

  lemma {:induction false} PlayNothing(start: U64, ms: bool, size: nat)
    ensures Play(start, ms, size, []) == Trace(Init(start, ms, size), Kept<Value>([]), false)
  {
  }

  /** One more call of a run that has not been refused. */
  lemma {:induction false} PlayNext(start: U64, ms: bool, size: nat, calls: seq<Point>, i: nat,
                                    e: Enc, e': Enc, ok: bool)
    requires Callable(start, calls) && i < |calls| && e.start == start
    requires Play(start, ms, size, calls[..i]) == Trace(e, Kept(calls[..i]), false)
    requires Outcome(e', ok) == ByteStream.Compress(e, calls[i].t, calls[i].v)
    ensures e'.start == e.start && e'.ms == e.ms
    ensures !ok ==> Play(start, ms, size, calls[..i + 1]).refused && e'.bytes == e.bytes
    ensures ok ==> Play(start, ms, size, calls[..i + 1]) == Trace(e', Kept(calls[..i + 1]), false)
  {
    hide ByteStream.Compress, Keep, Faithful, Decode, Follows;
    var tr, more := Play(start, ms, size, calls[..i]), calls[..i + 1];
    assert more[..i] == calls[..i] && more[i] == calls[i];
    var n := PlayHolds(start, ms, size, calls[..i]);
    KeepsFeed(tr, calls[i]);
  }
}
