/**
 Operations on 32-bit words and the bit strings that arrays of words and bytes
 stand for, in the big-endian order the encoder uses.
 */
module Words {
  import opened BitVectors

  lemma Pow2Values()
    ensures Pow2(8) == 0x100 && Pow2(16) == 0x1_0000 && Pow2(24) == 0x100_0000 && Pow2(32) == 0x1_0000_0000
  {
    assert Pow2(8) == 0x100;
    Pow2Double(8);
    Pow2Double(16);
    assert Pow2(24) == 0x100 * Pow2(16) by { Pow2Plus8(16); }
  }

  lemma {:induction false} Pow2Double(k: nat)
    ensures Pow2(2 * k) == Pow2(k) * Pow2(k)
  {
    if k > 0 {
      Pow2Double(k - 1);
      var p := Pow2(k - 1);
      assert (2 * p) * (2 * p) == 4 * (p * p);
      assert Pow2(2 * k) == 4 * Pow2(2 * (k - 1));
    }
  }

  lemma Pow2Plus8(k: nat)
    ensures Pow2(k + 8) == 0x100 * Pow2(k)
  {
    assert Pow2(k + 4) == 16 * Pow2(k) by {
      assert Pow2(k + 2) == 4 * Pow2(k);
    }
    assert Pow2(k + 6) == 4 * Pow2(k + 4);
  }

  /** Inclusive-or of two unsigned values. */
  function Or(a: nat, b: nat): nat
    decreases a + b
  {
    if a == 0 && b == 0 then 0
    else 2 * Or(a / 2, b / 2) + (if a % 2 == 1 || b % 2 == 1 then 1 else 0)
  }

  lemma {:induction false} OrBound(a: nat, b: nat, k: nat)
    requires a < Pow2(k) && b < Pow2(k)
    ensures Or(a, b) < Pow2(k)
    decreases k
  {
    if k > 0 { OrBound(a / 2, b / 2, k - 1); }
  }

  lemma OrHalf(a: nat, b: nat)
    ensures Or(a, b) / 2 == Or(a / 2, b / 2)
    ensures Or(a, b) % 2 == 1 <==> a % 2 == 1 || b % 2 == 1
  {}

  lemma {:induction false} BitsOr(k: nat, a: nat, b: nat, i: nat)
    requires i < k
    ensures Bits(k, Or(a, b))[i] == (Bits(k, a)[i] || Bits(k, b)[i])
    decreases k
  {
    OrHalf(a, b);
    hide Or;
    if i < k - 1 { BitsOr(k - 1, a / 2, b / 2, i); }
  }

  function Xor32(a: u32, b: u32): (r: u32) {
    Pow2Values();
    XorBound(a, b, 32);
    Xor(a, b)
  }

  function Or32(a: u32, b: u32): (r: u32) {
    Pow2Values();
    OrBound(a, b, 32);
    Or(a, b)
  }

  /** `a << j` in 32 bits. */
  function Shl32(a: u32, j: nat): (r: u32) {
    Pow2Values();
    Low(32, Shl(a, j))
  }

  /** `a >> j`. */
  function Shr32(a: u32, j: nat): (r: u32) {
    Pow2Values();
    ShrBound(a, j, 32);
    Shr(a, j)
  }

  /** `a & 0xff`. */
  function Byte(a: u32): (r: byte) {
    Pow2Values();
    Low(8, a)
  }

  function Word(a: u32): (r: seq<bool>)
    ensures |r| == 32
  {
    Bits(32, a)
  }

  lemma WordXor(a: u32, b: u32)
    ensures Word(Xor32(a, b)) == XorBits(Word(a), Word(b))
  {
    BitsXor(32, a, b);
  }

  lemma WordShl(a: u32, j: nat)
    requires j <= 32
    ensures Word(Shl32(a, j)) == Word(a)[j..] + Zeros(j)
  {
    BitsShlWord(32, j, a);
  }

  lemma WordShr(a: u32, j: nat)
    requires j <= 32
    ensures Word(Shr32(a, j)) == Zeros(j) + Word(a)[..32 - j]
  {
    Pow2Values();
    BitsShr(32, j, a);
  }

  /** Two words side by side, shifted left by `j`: the top word of the result. */
  lemma WordFunnel(a: u32, b: u32, j: nat)
    requires j <= 32
    ensures Word(Or32(Shl32(a, j), Shr32(b, 32 - j))) == Word(a)[j..] + Word(b)[..j]
  {
    hide Word, Shl32, Shr32;
    var x, y := Shl32(a, j), Shr32(b, 32 - j);
    WordShl(a, j);
    WordShr(b, 32 - j);
    forall i | 0 <= i < 32 ensures Word(Or32(x, y))[i] == (Word(x)[i] || Word(y)[i]) { WordOr(x, y, i); }
  }

  lemma WordOr(a: u32, b: u32, i: nat)
    requires i < 32
    ensures Word(Or32(a, b))[i] == (Word(a)[i] || Word(b)[i])
  {
    BitsOr(32, a, b, i);
  }

  lemma WordZero()
    ensures Word(0) == Zeros(32)
  {
    BitsZero(32);
  }

  // ----- arrays of words and of bytes

  /** The bits of a list of words. */
  function Flat(ws: seq<u32>): (r: seq<bool>)
    ensures |r| == 32 * |ws|
    ensures forall q :: 0 <= q < |r| ==> r[q] == Word(ws[q / 32])[q % 32]
  {
    seq(32 * |ws|, q requires 0 <= q < 32 * |ws| => Word(ws[q / 32])[q % 32])
  }

  /** The bits of a list of bytes. */
  function FlatBytes(bs: seq<byte>): (r: seq<bool>)
    ensures |r| == 8 * |bs|
    ensures forall q :: 0 <= q < |r| ==> r[q] == Bits(8, bs[q / 8])[q % 8]
  {
    seq(8 * |bs|, q requires 0 <= q < 8 * |bs| => Bits(8, bs[q / 8])[q % 8])
  }

  lemma FlatAt(ws: seq<u32>, i: nat, b: nat)
    requires i < |ws| && b < 32
    ensures Flat(ws)[32 * i + b] == Word(ws[i])[b]
  {
    assert (32 * i + b) / 32 == i && (32 * i + b) % 32 == b;
  }

  /** One word at its place in the flat string. */
  lemma FlatSlice(ws: seq<u32>, i: nat)
    requires i < |ws|
    ensures Flat(ws)[32 * i..32 * i + 32] == Word(ws[i])
  {
    hide Word, Flat;
    var s := Flat(ws)[32 * i..32 * i + 32];
    forall b | 0 <= b < 32 ensures s[b] == Word(ws[i])[b] { FlatAt(ws, i, b); }
  }

  lemma FlatXor(a: seq<u32>, b: seq<u32>, c: seq<u32>)
    requires |a| == |b| == |c|
    requires forall i :: 0 <= i < |a| ==> c[i] == Xor32(a[i], b[i])
    ensures Flat(c) == XorBits(Flat(a), Flat(b))
  {
    hide Word, Xor32;
    forall q | 0 <= q < |Flat(c)| ensures Flat(c)[q] == (Flat(a)[q] != Flat(b)[q]) {
      WordXor(a[q / 32], b[q / 32]);
    }
  }

  lemma FlatZero(ws: seq<u32>)
    requires forall i :: 0 <= i < |ws| ==> ws[i] == 0
    ensures Flat(ws) == Zeros(32 * |ws|)
  {
    hide Word;
    WordZero();
  }

  lemma FlatBytesConcat(a: seq<byte>, b: seq<byte>)
    ensures FlatBytes(a + b) == FlatBytes(a) + FlatBytes(b)
  {
    hide Bits;
    var l, r := FlatBytes(a + b), FlatBytes(a) + FlatBytes(b);
    forall q | 0 <= q < |l| ensures l[q] == r[q] {
      if q < 8 * |a| {
        assert (a + b)[q / 8] == a[q / 8];
      } else {
        var p := q - 8 * |a|;
        assert p / 8 == q / 8 - |a| && p % 8 == q % 8;
        assert (a + b)[q / 8] == b[p / 8];
      }
    }
  }

  /** Four bytes read as one big-endian word. */
  function BigEndian(bs: seq<byte>): (w: u32)
    requires |bs| == 4
  {
    var b0: nat, b1: nat, b2: nat, b3: nat := bs[0], bs[1], bs[2], bs[3];
    0x100_0000 * b0 + 0x1_0000 * b1 + 0x100 * b2 + b3
  }

  lemma BigEndianBits(bs: seq<byte>)
    requires |bs| == 4
    ensures Word(BigEndian(bs)) == Bits(8, bs[0]) + Bits(8, bs[1]) + Bits(8, bs[2]) + Bits(8, bs[3])
    ensures Word(BigEndian(bs)) == FlatBytes(bs)
  {
    hide Bits, Shl, Pow2;
    var b0: nat, b1: nat, b2: nat, b3: nat := bs[0], bs[1], bs[2], bs[3];
    Pow2Values();
    var w2 := 0x100 * b0 + b1;
    var w1 := 0x100 * w2 + b2;
    assert BigEndian(bs) == 0x100 * w1 + b3;
    BitsPush(8, b0, b1);
    BitsPush(16, w2, b2);
    BitsPush(24, w1, b3);
    FlatBytesFour(bs);
  }

  lemma FlatBytesFour(bs: seq<byte>)
    requires |bs| == 4
    ensures FlatBytes(bs) == Bits(8, bs[0]) + Bits(8, bs[1]) + Bits(8, bs[2]) + Bits(8, bs[3])
  {
    hide Bits;
    FlatBytesOne(bs[0]);
    FlatBytesOne(bs[1]);
    FlatBytesOne(bs[2]);
    FlatBytesOne(bs[3]);
    FlatBytesConcat([bs[0]], [bs[1]]);
    FlatBytesConcat([bs[0]] + [bs[1]], [bs[2]]);
    FlatBytesConcat([bs[0]] + [bs[1]] + [bs[2]], [bs[3]]);
    assert bs == [bs[0]] + [bs[1]] + [bs[2]] + [bs[3]];
  }

  lemma FlatBytesOne(b: byte)
    ensures FlatBytes([b]) == Bits(8, b)
  {
    hide Bits;
  }

  /** Appending a byte below a value. */
  lemma BitsPush(k: nat, x: nat, b: nat)
    requires b < 0x100
    ensures Bits(k + 8, 0x100 * x + b) == Bits(k, x) + Bits(8, b)
  {
    Pow2Values();
    BitsAppend(k, 8, x, b);
    ShlByte(x);
  }

  lemma ShlByte(x: nat)
    ensures Shl(x, 8) == 0x100 * x
  {
    assert Shl(x, 2) == 4 * x;
    assert Shl(x, 4) == 16 * x;
    assert Shl(x, 6) == 64 * x;
  }

  lemma {:induction false} HighLow(k: nat, x: nat)
    ensures x == Shl(Shr(x, k), k) + Low(k, x)
    decreases k
  {
    if k > 0 { HighLow(k - 1, x / 2); }
  }

  lemma LowEight(x: nat)
    ensures Low(8, x) == x % 0x100 && Shr(x, 8) == x / 0x100
  {
    hide Low, Shl, Shr;
    HighLow(8, x);
    ShlByte(Shr(x, 8));
    Pow2Values();
  }

  lemma {:induction false} BitsAppend(k: nat, j: nat, x: nat, b: nat)
    requires b < Pow2(j)
    ensures Bits(k + j, Shl(x, j) + b) == Bits(k, x) + Bits(j, b)
    decreases j
  {
    if j > 0 {
      BitsAppend(k, j - 1, x, b / 2);
      var y := Shl(x, j) + b;
      assert y / 2 == Shl(x, j - 1) + b / 2 && y % 2 == b % 2;
    }
  }
}
