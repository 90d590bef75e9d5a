/**
 The table-driven encoder steps refine bitwise division: one byte step is eight
 register steps, one word step is thirty-two.
 */
module TableSteps {
  import opened BitVectors
  import opened Words
  import opened Gf2Poly

  /** The remainder stored in row `i` of table `b`: that of `i * X^(8b + d)`. */
  function Entry(taps: seq<bool>, b: nat, i: byte): (r: seq<bool>)
    requires |taps| >= 1
    ensures |r| == |taps|
  {
    Run(taps, Zeros(|taps|), Word(Shl32(i, 8 * b)))
  }

  /** The index used by the byte step. */
  function ByteIndex(top: u32, d: byte): byte {
    Byte(Xor32(Shr32(top, 24), d))
  }

  /** Word `i` of the register shifted left by eight bits. */
  function Shifted(ecc: seq<u32>, i: nat): u32
    requires i < |ecc|
  {
    if i + 1 < |ecc| then Or32(Shl32(ecc[i], 8), Shr32(ecc[i + 1], 24)) else Shl32(ecc[i], 8)
  }

  lemma ShiftedBits(ecc: seq<u32>, sh: seq<u32>)
    requires |sh| == |ecc| >= 1 && forall i :: 0 <= i < |ecc| ==> sh[i] == Shifted(ecc, i)
    ensures Flat(sh) == Flat(ecc)[8..] + Zeros(8)
  {
    hide Word, Or32, Shl32, Shr32, Shifted;
    var r := Flat(ecc)[8..] + Zeros(8);
    forall q | 0 <= q < |r| ensures Flat(sh)[q] == r[q] {
      ShiftedBit(ecc, q / 32, q % 32);
      assert q == 32 * (q / 32) + q % 32;
    }
  }

  lemma ShiftedBit(ecc: seq<u32>, i: nat, b: nat)
    requires i < |ecc| && b < 32
    ensures Word(Shifted(ecc, i))[b] == (Flat(ecc)[8..] + Zeros(8))[32 * i + b]
  {
    hide Word, Or32, Shl32, Shr32, Flat;
    if i + 1 < |ecc| {
      WordFunnel(ecc[i], ecc[i + 1], 8);
      if b < 24 { FlatAt(ecc, i, b + 8); } else { FlatAt(ecc, i + 1, b - 24); }
    } else {
      WordShl(ecc[i], 8);
      if b < 24 { FlatAt(ecc, i, b + 8); }
    }
  }

  lemma ByteIndexBits(top: u32, d: byte)
    ensures Bits(8, ByteIndex(top, d)) == XorBits(Word(top)[..8], Bits(8, d))
  {
    hide Bits, Shr, Low, Xor;
    BitsLow(8, Xor32(Shr32(top, 24), d));
    BitsXor(8, Shr32(top, 24), d);
    BitsSplit(8, 24, top);
  }

  /** A byte entered through the low end of a word. */
  lemma EntryByte(taps: seq<bool>, i: byte)
    requires |taps| >= 1
    ensures Entry(taps, 0, i) == Run(taps, Zeros(|taps|), Bits(8, i))
  {
    hide Run, Bits, Shl, Low, Pow2;
    var z := Zeros(|taps|);
    ShlWordZero(i);
    Pow2Values();
    BitsLead(24, 8, i);
    RunConcat(taps, z, Zeros(24), Bits(8, i));
    RunZero(taps, 24);
  }

  lemma ShlWordZero(x: u32)
    ensures Shl32(x, 0) == x
  {
    Pow2Values();
    BitsLow(32, x);
    BitsInjective(32, Low(32, x), x);
  }

  /** Leading zeros of a value that fits in `k` bits. */
  lemma BitsLead(e: nat, k: nat, x: nat)
    requires x < Pow2(k)
    ensures Bits(e + k, x) == Zeros(e) + Bits(k, x)
  {
    hide Bits, Shr;
    BitsSplit(e, k, x);
    ShrAll(x, k);
    BitsZero(e);
  }

  lemma {:induction false} ShrAll(x: nat, k: nat)
    requires x < Pow2(k)
    ensures Shr(x, k) == 0
  {
    if k > 0 { ShrAll(x / 2, k - 1); }
  }

  /** One byte-table step is eight register steps. */
  lemma ByteStep(taps: seq<bool>, ecc: seq<u32>, d: byte, p: seq<u32>, out: seq<u32>)
    requires |ecc| == |p| == |out| >= 1 && |taps| == 32 * |ecc|
    requires Flat(p) == Entry(taps, 0, ByteIndex(ecc[0], d))
    requires forall i :: 0 <= i < |ecc| ==> out[i] == Xor32(Shifted(ecc, i), p[i])
    ensures Flat(out) == Run(taps, Flat(ecc), Bits(8, d))
  {
    hide Run, Bits, Entry, Flat, Shifted, ByteIndex, Word, Xor32;
    var s := Flat(ecc);
    var sh := seq(|ecc|, i requires 0 <= i < |ecc| => Shifted(ecc, i));
    ShiftedBits(ecc, sh);
    FlatXor(sh, p, out);
    EntryByte(taps, ByteIndex(ecc[0], d));
    ByteIndexBits(ecc[0], d);
    FlatSlice(ecc, 0);
    assert s[..8] == s[0..32][..8];
    RunShift(taps, s, Bits(8, d));
  }

  // ----- the word step

  /** Byte `b` of a word, counted from the low end. */
  function ByteOf(w: u32, b: nat): byte {
    Byte(Shr32(w, 8 * b))
  }

  lemma ByteOfBits(w: u32, b: nat)
    requires b < 4
    ensures Bits(8, ByteOf(w, b)) == Word(w)[24 - 8 * b..32 - 8 * b]
  {
    hide Bits, Shr, Low;
    BitsLow(8, Shr32(w, 8 * b));
    BitsSplit(32 - 8 * b, 8 * b, w);
    BitsSplit(24 - 8 * b, 8, Shr32(w, 8 * b));
  }

  lemma PlacedByteBits(w: u32, b: nat)
    requires b < 4
    ensures Word(Shl32(ByteOf(w, b), 8 * b))
         == Zeros(24 - 8 * b) + Word(w)[24 - 8 * b..32 - 8 * b] + Zeros(8 * b)
  {
    hide Bits, Shl, Low, Shr, Pow2, ByteOf;
    var x := ByteOf(w, b);
    WordShl(x, 8 * b);
    Pow2Values();
    BitsLead(24, 8, x);
    ByteOfBits(w, b);
  }

  /** A word is the sum of its four bytes at their places. */
  lemma WordOfBytes(w: u32)
    ensures XorBits(XorBits(XorBits(
              Word(Shl32(ByteOf(w, 0), 0)), Word(Shl32(ByteOf(w, 1), 8))),
              Word(Shl32(ByteOf(w, 2), 16))), Word(Shl32(ByteOf(w, 3), 24))) == Word(w)
  {
    hide Word, Shl32, ByteOf;
    PlacedByteBits(w, 0);
    PlacedByteBits(w, 1);
    PlacedByteBits(w, 2);
    PlacedByteBits(w, 3);
  }

  /** Four table entries add up to the remainder of the whole word. */
  lemma EntriesOfWord(taps: seq<bool>, w: u32)
    requires |taps| >= 1
    ensures XorBits(XorBits(XorBits(
              Entry(taps, 0, ByteOf(w, 0)), Entry(taps, 1, ByteOf(w, 1))),
              Entry(taps, 2, ByteOf(w, 2))), Entry(taps, 3, ByteOf(w, 3)))
         == Run(taps, Zeros(|taps|), Word(w))
  {
    hide Run, Word, Shl32, ByteOf;
    var z := Zeros(|taps|);
    var a0, a1, a2, a3 := Word(Shl32(ByteOf(w, 0), 0)), Word(Shl32(ByteOf(w, 1), 8)),
                          Word(Shl32(ByteOf(w, 2), 16)), Word(Shl32(ByteOf(w, 3), 24));
    assert XorBits(z, z) == z;
    RunLinear(taps, z, a0, z, a1);
    RunLinear(taps, z, XorBits(a0, a1), z, a2);
    RunLinear(taps, z, XorBits(XorBits(a0, a1), a2), z, a3);
    WordOfBytes(w);
  }

  /** Output word `i` of the four-table step. */
  function WordOut(r: seq<u32>, p0: seq<u32>, p1: seq<u32>, p2: seq<u32>, p3: seq<u32>, i: nat): u32
    requires |r| == |p0| == |p1| == |p2| == |p3| && i < |r|
  {
    if i + 1 < |r| then Xor32(Xor32(Xor32(Xor32(r[i + 1], p0[i]), p1[i]), p2[i]), p3[i])
    else Xor32(Xor32(Xor32(p0[i], p1[i]), p2[i]), p3[i])
  }

  lemma WordOutBit(r: seq<u32>, p0: seq<u32>, p1: seq<u32>, p2: seq<u32>, p3: seq<u32>, i: nat, b: nat)
    requires |r| == |p0| == |p1| == |p2| == |p3| && i < |r| && b < 32
    ensures Word(WordOut(r, p0, p1, p2, p3, i))[b]
         == (((((i + 1 < |r| && Word(r[i + 1])[b]) != Word(p0[i])[b]) != Word(p1[i])[b]) != Word(p2[i])[b]) != Word(p3[i])[b])
  {
    hide Word, Xor32;
    if i + 1 < |r| {
      var a := Xor32(r[i + 1], p0[i]);
      WordXor(r[i + 1], p0[i]);
      WordXor(a, p1[i]);
      WordXor(Xor32(a, p1[i]), p2[i]);
      WordXor(Xor32(Xor32(a, p1[i]), p2[i]), p3[i]);
    } else {
      WordXor(p0[i], p1[i]);
      WordXor(Xor32(p0[i], p1[i]), p2[i]);
      WordXor(Xor32(Xor32(p0[i], p1[i]), p2[i]), p3[i]);
    }
  }

  lemma WordOutBits(r: seq<u32>, p0: seq<u32>, p1: seq<u32>, p2: seq<u32>, p3: seq<u32>, out: seq<u32>)
    requires |r| == |p0| == |p1| == |p2| == |p3| == |out| >= 1
    requires forall i :: 0 <= i < |r| ==> out[i] == WordOut(r, p0, p1, p2, p3, i)
    ensures Flat(out) == XorBits(Flat(r)[32..] + Zeros(32),
                           XorBits(XorBits(XorBits(Flat(p0), Flat(p1)), Flat(p2)), Flat(p3)))
  {
    hide Word, WordOut;
    var t := XorBits(XorBits(XorBits(Flat(p0), Flat(p1)), Flat(p2)), Flat(p3));
    var x := Flat(r)[32..] + Zeros(32);
    forall q | 0 <= q < |x| ensures Flat(out)[q] == (x[q] != t[q]) {
      var i, b := q / 32, q % 32;
      WordOutBit(r, p0, p1, p2, p3, i, b);
      if i + 1 < |r| {
        assert (q + 32) / 32 == i + 1 && (q + 32) % 32 == b;
        assert x[q] == Word(r[i + 1])[b];
      }
    }
  }

  /** One four-table step is thirty-two register steps. */
  lemma WordStep(taps: seq<bool>, r: seq<u32>, d: u32,
                 p0: seq<u32>, p1: seq<u32>, p2: seq<u32>, p3: seq<u32>, out: seq<u32>)
    requires |r| == |p0| == |p1| == |p2| == |p3| == |out| >= 1 && |taps| == 32 * |r|
    requires var w := Xor32(r[0], d);
             && Flat(p0) == Entry(taps, 0, ByteOf(w, 0)) && Flat(p1) == Entry(taps, 1, ByteOf(w, 1))
             && Flat(p2) == Entry(taps, 2, ByteOf(w, 2)) && Flat(p3) == Entry(taps, 3, ByteOf(w, 3))
    requires forall i :: 0 <= i < |r| ==> out[i] == WordOut(r, p0, p1, p2, p3, i)
    ensures Flat(out) == Run(taps, Flat(r), Word(d))
  {
    hide Run, Flat, Entry, Word, WordOut, Xor32, ByteOf;
    var w := Xor32(r[0], d);
    WordOutBits(r, p0, p1, p2, p3, out);
    EntriesOfWord(taps, w);
    WordXor(r[0], d);
    FlatSlice(r, 0);
    assert Flat(r)[..32] == Flat(r)[0..32];
    RunShift(taps, Flat(r), Word(d));
  }

  /** The same word taken as four byte steps: any alignment split agrees. */
  lemma WordIsFourBytes(taps: seq<bool>, s: seq<bool>, bs: seq<byte>)
    requires |bs| == 4 && |s| == |taps| >= 1
    ensures Run(taps, s, Word(BigEndian(bs))) == Run(taps, s, FlatBytes(bs))
  {
    BigEndianBits(bs);
  }
}
