/**
 The CRC-32 of the partition table tool: the table-driven loop is the bit-serial
 division register of polynomials over GF(2), bits taken lowest first.
 */
module Crc32 {
  import opened BitVectors
  import opened Words
  import opened Gf2Poly
  import opened NandScrambler

  const POLY: u32 := 0xEDB8_8320
  const ALL_ONES: u32 := 0xFFFF_FFFF

  // ----- the register as a number, low bit first

  /** One bit of the table computation. */
  function Bit(c: u32): (r: u32) {
    if c % 2 == 1 then Xor32(c / 2, POLY) else c / 2
  }

  function BitSteps(c: u32, k: nat): (r: u32)
    decreases k
  {
    if k == 0 then c else BitSteps(Bit(c), k - 1)
  }

  lemma BitXor(a: u32, b: u32)
    ensures Bit(Xor32(a, b)) == Xor32(Bit(a), Bit(b))
  {
    XorHalf(a, b);
    hide Xor;
    var x, y := a / 2, b / 2;
    if a % 2 == 1 && b % 2 == 1 {
      XorSwap(x, POLY, y, POLY);
      XorSelf(POLY);
      XorZero(Xor(x, y));
    } else if a % 2 == 1 {
      XorAssoc(x, POLY, y);
      XorComm(POLY, y);
      XorAssoc(x, y, POLY);
    } else if b % 2 == 1 {
      XorAssoc(x, y, POLY);
    }
  }

  /** The table computation is linear. */
  lemma {:induction false} BitStepsXor(a: u32, b: u32, k: nat)
    ensures BitSteps(Xor32(a, b), k) == Xor32(BitSteps(a, k), BitSteps(b, k))
    decreases k
  {
    hide Xor32, Bit;
    if k > 0 {
      BitXor(a, b);
      BitStepsXor(Bit(a), Bit(b), k - 1);
    }
  }

  /** Zero bits are only shifted out. */
  lemma {:induction false} ShiftOutBits(h: nat, k: nat)
    requires Shl(h, k) < 0x1_0000_0000
    ensures BitSteps(Shl(h, k), k) == h
    decreases k
  {
    hide Xor32;
    if k > 0 {
      assert Shl(h, k) == 2 * Shl(h, k - 1);
      ShiftOutBits(h, k - 1);
    }
  }

  lemma ShiftOut(h: nat)
    requires 0x100 * h < 0x1_0000_0000
    ensures BitSteps(0x100 * h, 8) == h
  {
    hide BitSteps, Shl;
    ShlByte(h);
    ShiftOutBits(h, 8);
  }

  /** A word is its low byte exclusive-or the rest. */
  lemma SplitWord(x: u32)
    ensures x == Xor(x % 0x100, 0x100 * (x / 0x100))
  {
    SplitLow(x / 0x100, x % 0x100, 8);
    ShlByte(x / 0x100);
    Pow2Values();
  }

  lemma {:induction false} SplitLow(h: nat, l: nat, k: nat)
    requires l < Pow2(k)
    ensures Xor(l, Shl(h, k)) == Shl(h, k) + l
    decreases k
  {
    hide Xor;
    if k == 0 {
      XorZero(h);
    } else {
      assert Shl(h, k) == 2 * Shl(h, k - 1);
      SplitLow(h, l / 2, k - 1);
      XorCons(l / 2, l % 2, Shl(h, k - 1), 0);
    }
  }

  /** The table step: look up the low byte, shift the rest down. */
  lemma TableStep(x: u32)
    ensures BitSteps(x, 8) == Xor32(BitSteps(x % 0x100, 8), x / 0x100)
  {
    hide Xor, Bit, BitSteps;
    SplitWord(x);
    BitStepsXor(x % 0x100, 0x100 * (x / 0x100), 8);
    ShiftOut(x / 0x100);
  }

  // ----- the register as a polynomial remainder

  /** The register with its low bit first, as the division register holds it. */
  function Reg(c: u32): (s: seq<bool>)
    ensures |s| == 32
  {
    Flipped(Word(c))
  }

  function Taps(): (s: seq<bool>)
    ensures |s| == 32
  {
    Reg(POLY)
  }

  /** The constant in the code is the CRC-32 polynomial with its bits reversed. */
  lemma TapsAre()
    ensures Taps() == Word(0x04C1_1DB7)
  {
    hide Word, Bits, Flipped;
    var a: seq<byte>, b: seq<byte> := [0xED, 0xB8, 0x83, 0x20], [0x04, 0xC1, 0x1D, 0xB7];
    BigEndianBits(a);
    BigEndianBits(b);
    MirrorHigh();
    MirrorLow();
    MirrorFour(Bits(8, 0xED), Bits(8, 0xB8), Bits(8, 0x83), Bits(8, 0x20));
  }

  lemma MirrorHigh()
    ensures Flipped(Bits(8, 0xED)) == Bits(8, 0xB7) && Flipped(Bits(8, 0xB8)) == Bits(8, 0x1D)
  {
    hide Bits;
    ByteMirror(0xE, 0xD, 0xB, 0x7);
    ByteMirror(0xB, 0x8, 0x1, 0xD);
  }

  lemma MirrorLow()
    ensures Flipped(Bits(8, 0x83)) == Bits(8, 0xC1) && Flipped(Bits(8, 0x20)) == Bits(8, 0x04)
  {
    hide Bits;
    ByteMirror(0x8, 0x3, 0xC, 0x1);
    ByteMirror(0x2, 0x0, 0x0, 0x4);
  }

  /** Mirroring a byte exchanges its mirrored halves. */
  lemma ByteMirror(h: nat, l: nat, h': nat, l': nat)
    requires h < 16 && l < 16 && h' < 16 && l' < 16
    requires Nibble(h') == Flipped(Nibble(l)) && Nibble(l') == Flipped(Nibble(h))
    ensures Flipped(Bits(8, 16 * h + l)) == Bits(8, 16 * h' + l')
  {
    hide Bits, Nibble;
    ByteBits(h, l);
    ByteBits(h', l');
    MirrorTwo(Nibble(h), Nibble(l));
  }

  lemma MirrorTwo(a: seq<bool>, b: seq<bool>)
    ensures Flipped(a + b) == Flipped(b) + Flipped(a)
  {}

  lemma ByteBits(h: nat, l: nat)
    requires h < 16 && l < 16
    ensures Bits(8, 16 * h + l) == Nibble(h) + Nibble(l)
  {
    NibbleBits(h);
    NibbleBits(l);
    assert Shl(h, 4) == 16 * h && Pow2(4) == 16;
    hide Bits, Shl, Pow2;
    BitsAppend(4, 4, h, l);
  }

  function Nibble(x: nat): seq<bool> {
    [x / 8 % 2 == 1, x / 4 % 2 == 1, x / 2 % 2 == 1, x % 2 == 1]
  }

  lemma NibbleBits(x: nat)
    ensures Bits(4, x) == Nibble(x)
  {
    assert x / 4 / 2 == x / 8 && x / 2 / 2 == x / 4;
    assert Bits(1, x / 8) == [x / 8 % 2 == 1];
    assert Bits(2, x / 4) == Bits(1, x / 8) + [x / 4 % 2 == 1];
    assert Bits(3, x / 2) == Bits(2, x / 4) + [x / 2 % 2 == 1];
  }

  lemma MirrorFour(a: seq<bool>, b: seq<bool>, c: seq<bool>, d: seq<bool>)
    ensures Flipped(a + b + c + d) == Flipped(d) + Flipped(c) + Flipped(b) + Flipped(a)
  {}

  lemma FlippedXor(a: seq<bool>, b: seq<bool>)
    requires |a| == |b|
    ensures Flipped(XorBits(a, b)) == XorBits(Flipped(a), Flipped(b))
  {}

  lemma RegHalf(c: u32)
    ensures Reg(c / 2) == Reg(c)[1..] + [false] && Reg(c)[0] == (c % 2 == 1)
  {
    WordShr(c, 1);
    assert Shr32(c, 1) == c / 2;
    assert Word(c)[31] == (c % 2 == 1);
    hide Word;
    assert Word(c / 2) == [false] + Word(c)[..31];
  }

  /** Exclusive-or with one bit changes only the low bit. */
  lemma LowBit(c: u32, b: nat)
    requires b < 2
    ensures Xor32(c, b) / 2 == c / 2 && Xor32(c, b) % 2 == (c + b) % 2
  {
    XorHalf(c, b);
    XorZero(c / 2);
  }

  lemma RegPoly(c: u32)
    ensures Reg(Xor32(c, POLY)) == XorBits(Reg(c), Taps())
  {
    hide Word, Xor32, Flipped;
    WordXor(c, POLY);
    FlippedXor(Word(c), Word(POLY));
  }

  /** One clock of the division register. */
  lemma SerialStep(c: u32, b: nat)
    requires b < 2
    ensures Reg(Bit(Xor32(c, b))) == Step(Taps(), Reg(c), b == 1)
  {
    hide Reg, Xor32, Taps, XorBits, Zeros;
    LowBit(c, b);
    RegHalf(c);
    RegPoly(c / 2);
    XorBitsZero(Reg(c / 2));
    assert (c % 2 == 1) != (b == 1) <==> (c + b) % 2 == 1;
  }

  /** Bits entering one by one, or all at once below the register. */
  lemma {:induction false} SerialBits(c: u32, b: u32, k: nat)
    requires b < Pow2(k)
    ensures Reg(BitSteps(Xor32(c, b), k)) == Run(Taps(), Reg(c), Flipped(Bits(k, b)))
    decreases k
  {
    if k == 0 {
      XorZero(c);
    } else {
      var b0, b1, rest := b % 2, b / 2, Flipped(Bits(k - 1, b / 2));
      assert Flipped(Bits(k, b)) == [b0 == 1] + rest by { FlippedBits(k, b); }
      var c1 := Bit(Xor32(c, b0));
      FirstBit(c, b);
      SerialBits(c1, b1, k - 1);
      SerialStep(c, b0);
      RunFirst(Taps(), Reg(c), b0 == 1, rest);
    }
  }

  lemma FlippedBits(k: nat, b: nat)
    requires k > 0
    ensures Flipped(Bits(k, b)) == [b % 2 == 1] + Flipped(Bits(k - 1, b / 2))
  {
    assert Bits(k, b) == Bits(k - 1, b / 2) + [b % 2 == 1];
  }

  lemma RunFirst(taps: seq<bool>, s: seq<bool>, b: bool, rest: seq<bool>)
    requires |s| == |taps| >= 1
    ensures Run(taps, s, [b] + rest) == Run(taps, Step(taps, s, b), rest)
  {
    hide Step;
    RunConcat(taps, s, [b], rest);
    RunSnoc(taps, s, [], b);
    assert [] + [b] == [b];
  }

  /** Taking the first step leaves the other bits one place lower. */
  lemma FirstBit(c: u32, b: u32)
    ensures Bit(Xor32(c, b)) == Xor32(Bit(Xor32(c, b % 2)), b / 2)
  {
    hide Xor;
    var b0, b1 := b % 2, b / 2;
    assert Xor(b0, 2 * b1) == b by {
      XorCons(0, b0, b1, 0);
      XorZero(b1);
    }
    XorAssoc(c, b0, 2 * b1);
    BitXor(Xor32(c, b0), 2 * b1);
    assert Bit(2 * b1) == b1;
  }

  // ----- calc_crc32

  method TableEntry(i: byte) returns (c: u32)
    ensures c == BitSteps(i, 8)
  {
    hide Xor32;
    c := i;
    for j := 0 to 8
      invariant BitSteps(c, 8 - j) == BitSteps(i, 8)
    {
      if c % 2 == 1 { c := Xor32(c / 2, POLY); } else { c := c / 2; }
    }
  }

  /** What the register stands for after `data`, started from all ones. */
  function Remainder(data: seq<byte>): (s: seq<bool>)
    ensures |s| == 32
  {
    Run(Taps(), Reg(ALL_ONES), FlatBytes(AllReversed(data)))
  }

  lemma RemainderNext(data: seq<byte>, b: byte, c: u32)
    requires Reg(c) == Remainder(data)
    ensures Reg(BitSteps(Xor32(c, b), 8)) == Remainder(data + [b])
  {
    hide Run, Word, Bits, BitSteps, Xor32, Reversed;
    Pow2Values();
    SerialBits(c, b, 8);
    ReversedBits(b);
    assert AllReversed(data + [b]) == AllReversed(data) + [Reversed(b)];
    FlatBytesConcat(AllReversed(data), [Reversed(b)]);
    FlatBytesOne(Reversed(b));
    RunConcat(Taps(), Reg(ALL_ONES), FlatBytes(AllReversed(data)), Flipped(Bits(8, b)));
  }

  /** `calc_crc32`: table-driven, and yet the remainder of the message's bits. */
  method CalcCrc32(buffer: seq<byte>) returns (crc: u32)
    ensures Reg(Xor32(crc, ALL_ONES)) == Remainder(buffer)
  {
    hide Run, Xor32, BitSteps, Reg, Remainder;
    var table := new u32[256];
    for i := 0 to 256
      invariant forall k :: 0 <= k < i ==> table[k] == BitSteps(k, 8)
    {
      table[i] := TableEntry(i);
    }
    var c: u32 := ALL_ONES;
    RemainderNothing();
    for i := 0 to |buffer|
      invariant forall k :: 0 <= k < 256 ==> table[k] == BitSteps(k, 8)
      invariant Reg(c) == Remainder(buffer[..i])
    {
      var x := Xor32(c, buffer[i]);
      TableStep(x);
      RemainderNext(buffer[..i], buffer[i], c);
      assert buffer[..i] + [buffer[i]] == buffer[..i + 1];
      var low := Byte(x);
      LowByte(x);
      ShiftByte(c, buffer[i]);
      c := Xor32(table[low], Shr32(c, 8));
    }
    assert buffer[..|buffer|] == buffer;
    crc := Xor32(c, ALL_ONES);
    Complement(c);
  }

  lemma RemainderNothing()
    ensures Reg(ALL_ONES) == Remainder([])
  {
    assert FlatBytes(AllReversed([])) == [];
  }

  lemma LowByte(x: u32)
    ensures Byte(x) == x % 0x100 && Shr(x, 8) == x / 0x100
  {
    LowEight(x);
  }

  lemma {:induction false} ShrXor(a: nat, b: nat, k: nat)
    ensures Shr(Xor(a, b), k) == Xor(Shr(a, k), Shr(b, k))
    decreases k
  {
    XorHalf(a, b);
    hide Xor;
    if k > 0 { ShrXor(a / 2, b / 2, k - 1); }
  }

  /** The byte only meets the low byte of the register. */
  lemma ShiftByte(c: u32, b: byte)
    ensures Shr32(c, 8) == Xor32(c, b) / 0x100
  {
    hide Xor, Shr;
    ShrXor(c, b, 8);
    LowByte(b);
    LowByte(Xor32(c, b));
    XorZero(Shr(c, 8));
  }

  lemma Complement(c: u32)
    ensures Xor32(Xor32(c, ALL_ONES), ALL_ONES) == c
  {
    XorCancel(c, 0, ALL_ONES);
  }
}
