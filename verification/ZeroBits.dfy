/** Page headers and numbers whose bits are all zero. */
module ZeroBits {
  import opened ByteBits
  import opened BitCode
  import opened StreamCode

  const ZeroValue: Word := Repeat(false, 64)

  lemma {:induction false} RepeatJoins(a: nat, b: nat)
    ensures Repeat(false, a) + Repeat(false, b) == Repeat(false, a + b)
  {
  }

  lemma {:induction false} ZeroBit(i: nat)
    requires i < 8
    ensures !Bit(0, i)
  {
  }

  lemma {:induction false} BlankBytesBits(k: nat)
    ensures BitsOf(Blank(k)) == Repeat(false, 8 * k)
  {
    forall j | 0 <= j < 8 * k ensures !BitsOf(Blank(k))[j] { ZeroBit(j % 8); }
  }

  lemma {:induction false} ZeroLittleEndian(k: nat)
    ensures LittleEndian(Repeat(false, 8 * k)) == Repeat(false, 8 * k)
  {
    var z := Blank(k);
    BlankBytesBits(k);
    BytesFromBitsOf(z);
    assert Reverse(z) == z;
  }

  lemma {:induction false} ZeroToBits(w: nat)
    ensures ToBits(0, w) == Repeat(false, w)
  {
    if w > 0 {
      ZeroToBits(w - 1);
      RepeatJoins(w - 1, 1);
    }
  }

  lemma {:induction false} ZeroHeader()
    ensures HeaderCode(0, ZeroValue) == Repeat(false, 96)
  {
    ZeroToBits(32);
    ZeroLittleEndian(4);
    ZeroLittleEndian(8);
    RepeatJoins(32, 64);
  }
}
