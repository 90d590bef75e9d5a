/**
 The polynomial the image builder uses, 0x5803, is primitive: X has order
 16383 = 3 * 43 * 127, shown by computing a few powers by repeated squaring.
 */
module Primitivity {
  import opened BitVectors
  import opened GaloisField

  const POLY: nat := 0x5803

  function F(): (f: Field) {
    Field(14, POLY)
  }

  lemma FieldShape()
    ensures F().DegreeOk() && F().N() == 16383 && Pow2(14) == 0x4000 && Pow2(13) == 0x2000
  {
    assert Pow2(7) == 128;
    assert Pow2(13) == 64 * Pow2(7);
  }

  // ----- field elements as machine words

  predicate Has(b: bv14, mask: bv14) {
    b & mask != 0
  }

  /** The mask of place `i`, counted from the top. */
  function Mask(i: nat): (m: bv14)
    requires i < 14
    ensures m & (m - 1) == 0
  {
    match i
    case 0 => 0x2000
    case 1 => 0x1000
    case 2 => 0x800
    case 3 => 0x400
    case 4 => 0x200
    case 5 => 0x100
    case 6 => 0x80
    case 7 => 0x40
    case 8 => 0x20
    case 9 => 0x10
    case 10 => 8
    case 11 => 4
    case 12 => 2
    case _ => 1
  }

  /** The bits of a machine word, highest first. */
  function WordBits(b: bv14): (s: seq<bool>)
    ensures |s| == 14
    ensures forall i :: 0 <= i < 14 ==> s[i] == Has(b, Mask(i))
  {
    seq(14, i requires 0 <= i < 14 => Has(b, Mask(i)))
  }

  /** The word `b` stands for the element `x`. */
  predicate Rep(x: nat, b: bv14) {
    x < 0x4000 && Bits(14, x) == WordBits(b)
  }

  lemma HasXor(a: bv14, b: bv14, mask: bv14)
    requires mask & (mask - 1) == 0
    ensures Has(a ^ b, mask) == (Has(a, mask) != Has(b, mask))
  {
    assert (a ^ b) & mask == (a & mask) ^ (b & mask);
    OneBit(a, mask);
    OneBit(b, mask);
  }

  lemma OneBit(a: bv14, mask: bv14)
    requires mask & (mask - 1) == 0
    ensures a & mask == 0 || a & mask == mask
  {}

  lemma WordXor(a: bv14, b: bv14)
    ensures WordBits(a ^ b) == XorBits(WordBits(a), WordBits(b))
  {
    hide Has, Mask;
    forall i | 0 <= i < 14 ensures WordBits(a ^ b)[i] == XorBits(WordBits(a), WordBits(b))[i] {
      HasXor(a, b, Mask(i));
    }
  }

  lemma WordShift(b: bv14)
    ensures WordBits(b << 1) == WordBits(b)[1..] + [false]
  {
    forall i | 0 <= i < 14 ensures WordBits(b << 1)[i] == (WordBits(b)[1..] + [false])[i] {
      if i < 13 { HasShift(b, i); } else { assert Has(b << 1, 1) == false; }
    }
  }

  lemma HasShift(b: bv14, i: nat)
    requires i < 13
    ensures Has(b << 1, Mask(i)) == Has(b, Mask(i + 1))
  {}

  // ----- multiplication on words

  function WordX(b: bv14): bv14 {
    if Has(b, 0x2000) then (b << 1) ^ 0x1803 else b << 1
  }

  function WordStep(t: bv14, bit: bool, y: bv14): bv14 {
    if bit then y ^ WordX(t) else WordX(t)
  }

  lemma TapBits()
    ensures Bits(14, POLY) == WordBits(0x1803)
  {
    hide Bits;
    BitsLast(14, 0x5803);
    BitsLast(13, 0x2c01);
    BitsLast(12, 0x1600);
    BitsLast(11, 0xb00);
    BitsLast(10, 0x580);
    BitsLast(9, 0x2c0);
    BitsLast(8, 0x160);
    BitsLast(7, 0xb0);
    BitsLast(6, 0x58);
    BitsLast(5, 0x2c);
    BitsLast(4, 0x16);
    BitsLast(3, 0xb);
    BitsLast(2, 0x5);
    BitsLast(1, 0x2);
    BitsEmpty(1);
    var low := [false, true, true, false, false, false, false, false, false, false, false, false, true, true];
    assert Bits(14, POLY) == low;
    assert WordBits(0x1803) == low;
  }

  lemma BitsEmpty(x: nat)
    ensures Bits(0, x) == []
  {}

  /** Doubling on words is multiplication by X. */
  lemma RepX(x: nat, b: bv14)
    requires Rep(x, b)
    ensures F().DegreeOk() && F().Elem(x) && Rep(MulX(F(), x), WordX(b))
  {
    FieldShape();
    hide Bits, Xor, WordBits, Has;
    BitsLast(14, 2 * x);
    TopBit(x);
    WordShift(b);
    assert Bits(13, x) == WordBits(b)[1..];
    assert Bits(14, 2 * x) == WordBits(b << 1);
    FirstBit(b);
    if x >= 0x2000 {
      BitsXor(14, 2 * x, POLY);
      TapBits();
      WordXor(b << 1, 0x1803);
    }
  }

  lemma FirstBit(b: bv14)
    ensures WordBits(b)[0] == Has(b, 0x2000)
  {}

  /** The first of fourteen bits, and the others. */
  lemma TopBit(x: nat)
    requires x < 0x4000
    ensures Bits(14, x)[0] == (x >= 0x2000) && Bits(13, x) == Bits(14, x)[1..]
  {
    FieldShape();
    hide Bits, Shr, Pow2;
    BitsSplit(1, 13, x);
    BitsLast(1, Shr(x, 13));
    BitsEmpty(Shr(x, 13) / 2);
    ShrThirteen(x);
  }

  lemma ShrThirteen(x: nat)
    ensures Shr(x, 13) == x / 0x2000
  {
    assert Shr(x, 5) == x / 32;
    assert Shr(x / 32, 5) == x / 32 / 32;
    assert Shr(x / 1024, 3) == x / 1024 / 8;
    ShrShr(x, 5, 5);
    ShrShr(x, 10, 3);
  }

  lemma {:induction false} ShrShr(x: nat, a: nat, b: nat)
    ensures Shr(Shr(x, a), b) == Shr(x, a + b)
    decreases a
  {
    if a > 0 { ShrShr(x / 2, a - 1, b); }
  }

  lemma RepXor(x: nat, a: bv14, y: nat, b: bv14)
    requires Rep(x, a) && Rep(y, b)
    ensures Rep(Xor(x, y), a ^ b)
  {
    FieldShape();
    hide Bits, Xor, WordBits, Pow2;
    XorBound(x, y, 14);
    BitsXor(14, x, y);
    WordXor(a, b);
  }

  lemma RepZero()
    ensures Rep(0, 0)
  {
    hide Bits;
    BitsZero(14);
  }

  lemma RepOne()
    ensures Rep(1, 1)
  {
    hide Bits;
    BitsLast(14, 1);
    BitsZero(13);
    assert WordBits(1) == Zeros(13) + [true];
  }

  /** The product by the bits of one factor, highest first. */
  function WordHorner(bits: seq<bool>, y: bv14): bv14 {
    if bits == [] then 0 else WordStep(WordHorner(bits[..|bits| - 1], y), bits[|bits| - 1], y)
  }

  lemma MulUnfold(x: nat, y: nat)
    requires F().DegreeOk() && F().Elem(y)
    ensures Mul(F(), x, y) == Xor(if x % 2 == 1 then y else 0, MulX(F(), Mul(F(), x / 2, y)))
  {
    if x == 0 {
      MulXZero(F());
      XorZero(0);
    }
  }

  lemma {:induction false} RepHorner(k: nat, x: nat, y: nat, b: bv14)
    requires Rep(y, b) && x < Pow2(k)
    ensures F().DegreeOk() && F().Elem(y) && Rep(Mul(F(), x, y), WordHorner(Bits(k, x), b))
    decreases k
  {
    FieldShape();
    if k == 0 {
      RepZero();
    } else {
      hide Xor, Mul, WordX, WordBits;
      RepHorner(k - 1, x / 2, y, b);
      BitsLast(k, x);
      var t, w := Mul(F(), x / 2, y), WordHorner(Bits(k - 1, x / 2), b);
      assert Bits(k, x)[..k - 1] == Bits(k - 1, x / 2);
      MulUnfold(x, y);
      RepX(t, w);
      RepZero();
      RepXor(y, b, MulX(F(), t), WordX(w));
      XorZero(MulX(F(), t));
    }
  }

  lemma HornerNext(bits: seq<bool>, k: nat, y: bv14)
    requires k < |bits|
    ensures WordHorner(bits[..k + 1], y) == WordStep(WordHorner(bits[..k], y), bits[k], y)
  {
    assert bits[..k + 1][..k] == bits[..k];
  }

  function HighHalf(a: bv14, y: bv14): bv14 {
    var t0 := WordStep(0, Has(a, 0x2000), y);
    var t1 := WordStep(t0, Has(a, 0x1000), y);
    var t2 := WordStep(t1, Has(a, 0x800), y);
    var t3 := WordStep(t2, Has(a, 0x400), y);
    var t4 := WordStep(t3, Has(a, 0x200), y);
    var t5 := WordStep(t4, Has(a, 0x100), y);
    WordStep(t5, Has(a, 0x80), y)
  }

  /** The product of two words. */
  function WordMul(a: bv14, y: bv14): bv14 {
    var t7 := WordStep(HighHalf(a, y), Has(a, 0x40), y);
    var t8 := WordStep(t7, Has(a, 0x20), y);
    var t9 := WordStep(t8, Has(a, 0x10), y);
    var t10 := WordStep(t9, Has(a, 8), y);
    var t11 := WordStep(t10, Has(a, 4), y);
    var t12 := WordStep(t11, Has(a, 2), y);
    WordStep(t12, Has(a, 1), y)
  }

  lemma PlacesOf(a: bv14)
    ensures WordBits(a)[0] == Has(a, 0x2000)
    ensures WordBits(a)[1] == Has(a, 0x1000)
    ensures WordBits(a)[2] == Has(a, 0x800)
    ensures WordBits(a)[3] == Has(a, 0x400)
    ensures WordBits(a)[4] == Has(a, 0x200)
    ensures WordBits(a)[5] == Has(a, 0x100)
    ensures WordBits(a)[6] == Has(a, 0x80)
    ensures WordBits(a)[7] == Has(a, 0x40)
    ensures WordBits(a)[8] == Has(a, 0x20)
    ensures WordBits(a)[9] == Has(a, 0x10)
    ensures WordBits(a)[10] == Has(a, 8)
    ensures WordBits(a)[11] == Has(a, 4)
    ensures WordBits(a)[12] == Has(a, 2)
    ensures WordBits(a)[13] == Has(a, 1)
  {
    hide Has;
  }

  lemma HornerEmpty(y: bv14)
    ensures WordHorner([], y) == 0
  {}

  lemma HighHalfIs(a: bv14, y: bv14)
    ensures WordHorner(WordBits(a)[..7], y) == HighHalf(a, y)
  {
    HornerEmpty(y);
    PlacesOf(a);
    hide WordStep, Has, Mask, WordHorner;
    var bits := WordBits(a);
    assert bits[..0] == [];
    HornerNext(bits, 0, y);
    HornerNext(bits, 1, y);
    HornerNext(bits, 2, y);
    HornerNext(bits, 3, y);
    HornerNext(bits, 4, y);
    HornerNext(bits, 5, y);
    HornerNext(bits, 6, y);
  }

  lemma WordMulIs(a: bv14, y: bv14)
    ensures WordHorner(WordBits(a), y) == WordMul(a, y)
  {
    PlacesOf(a);
    hide WordStep, Has, HighHalf, Mask, WordHorner;
    HighHalfIs(a, y);
    var bits := WordBits(a);
    HornerNext(bits, 7, y);
    HornerNext(bits, 8, y);
    HornerNext(bits, 9, y);
    HornerNext(bits, 10, y);
    HornerNext(bits, 11, y);
    HornerNext(bits, 12, y);
    HornerNext(bits, 13, y);
    assert bits[..14] == bits;
  }

  lemma RepMul(x: nat, a: bv14, y: nat, b: bv14)
    requires Rep(x, a) && Rep(y, b)
    ensures F().DegreeOk() && F().Elem(y) && Rep(Mul(F(), x, y), WordMul(a, b))
  {
    FieldShape();
    hide Mul, WordMul, Bits, WordBits;
    RepHorner(14, x, y, b);
    WordMulIs(a, b);
  }

  // ----- powers of X on words

  /** The word `b` stands for X^i. */
  predicate Pow(i: nat, b: bv14) {
    F().DegreeOk() && Rep(Power(F(), i), b)
  }

  lemma Times(i: nat, a: bv14, j: nat, b: bv14)
    requires Pow(i, a) && Pow(j, b)
    ensures Pow(i + j, WordMul(a, b))
  {
    hide Rep, WordMul, Power, Mul;
    RepMul(Power(F(), i), a, Power(F(), j), b);
    PowerMul(F(), i, j);
  }

  lemma ByX(i: nat, a: bv14)
    requires Pow(i, a)
    ensures Pow(i + 1, WordX(a))
  {
    hide Rep, WordX, MulX;
    RepX(Power(F(), i), a);
    assert Power(F(), i + 1) == MulX(F(), Power(F(), i));
  }

  lemma Start()
    ensures Pow(1, 2)
  {
    FieldShape();
    RepOne();
    hide Rep;
    assert Power(F(), 0) == 1;
    ByX(0, 1);
  }

  lemma Powers16()
    ensures Pow(16, 0x380f)
  {
    hide Pow;
    Start();
    Times(1, 2, 1, 2);
    Times(2, 4, 2, 4);
    Times(4, 0x10, 4, 0x10);
    Times(8, 0x100, 8, 0x100);
  }

  lemma Powers128()
    ensures Pow(16, 0x380f) && Pow(128, 0x2609)
  {
    hide Pow;
    Powers16();
    Times(16, 0x380f, 16, 0x380f);
    Times(32, 0x3cec, 32, 0x3cec);
    Times(64, 0x100e, 64, 0x100e);
  }

  lemma Powers256()
    ensures Pow(128, 0x2609) && Pow(256, 0x1ee)
  {
    hide Pow;
    Powers128();
    Times(128, 0x2609, 128, 0x2609);
  }

  lemma Powers2048()
    ensures Pow(256, 0x1ee) && Pow(2048, 0xc22)
  {
    hide Pow;
    Powers256();
    Times(256, 0x1ee, 256, 0x1ee);
    Times(512, 0x3458, 512, 0x3458);
    Times(1024, 0x3e8b, 1024, 0x3e8b);
  }

  lemma Powers16384()
    ensures Pow(2048, 0xc22) && Pow(16384, 0x2)
  {
    hide Pow;
    Powers2048();
    Times(2048, 0xc22, 2048, 0xc22);
    Times(4096, 0x1776, 4096, 0x1776);
    Times(8192, 0x239b, 8192, 0x239b);
  }

  lemma Powers273()
    ensures Pow(273, 0x6f2)
  {
    hide Pow;
    Powers16();
    Powers256();
    Times(256, 0x1ee, 16, 0x380f);
    ByX(272, 0x379);
  }

  lemma Powers1365()
    ensures Pow(1365, 0x1409)
  {
    hide Pow;
    Powers273();
    Times(273, 0x6f2, 273, 0x6f2);
    Times(546, 0x25da, 546, 0x25da);
    Times(1092, 0x38de, 273, 0x6f2);
  }

  lemma Powers5461()
    ensures Pow(5461, 0x133f)
  {
    hide Pow;
    Powers1365();
    Times(1365, 0x1409, 1365, 0x1409);
    Times(2730, 0x6f8, 2730, 0x6f8);
    ByX(5460, 0x259e);
  }

  lemma Powers129()
    ensures Pow(129, 0x1411)
  {
    hide Pow;
    Powers128();
    ByX(128, 0x2609);
  }

  lemma Powers381()
    ensures Pow(384, 0xbca) && Pow(3, 8)
  {
    hide Pow;
    Powers256();
    Times(256, 0x1ee, 128, 0x2609);
    Start();
    ByX(1, 2);
    ByX(2, 4);
  }

  /** Different words stand for different powers. */
  lemma Differ(i: nat, a: bv14, j: nat, b: bv14, k: nat)
    requires Pow(i, a) && Pow(j, b) && k < 14 && Has(a, Mask(k)) != Has(b, Mask(k))
    ensures Power(F(), i) != Power(F(), j)
  {
    hide Bits, Power;
    assert WordBits(a)[k] != WordBits(b)[k];
  }

  // ----- the order of X

  lemma OneMinus(i: nat, j: nat)
    requires F().DegreeOk() && i <= j && Power(F(), i) == 1 && Power(F(), j) == 1
    ensures Power(F(), j - i) == 1
  {
    hide Iter;
    IterAdd(F(), i, j - i, 1);
    IterInjective(F(), i, Power(F(), j - i), 1);
  }

  lemma {:induction false} OneMultiple(i: nat, k: nat)
    requires F().DegreeOk() && Power(F(), i) == 1
    ensures Power(F(), i * k) == 1
    decreases k
  {
    hide Iter;
    if k == 0 {
      PowerStart(F());
    } else {
      OneMultiple(i, k - 1);
      IterAdd(F(), i, i * (k - 1), 1);
      assert i * k == i + i * (k - 1);
    }
  }

  /** Exponents of one are closed under remainders. */
  lemma OneRest(i: nat, j: nat, k: nat)
    requires F().DegreeOk() && i * k <= j && Power(F(), i) == 1 && Power(F(), j) == 1
    ensures Power(F(), j - i * k) == 1
  {
    hide Power;
    OneMultiple(i, k);
    OneMinus(i * k, j);
  }

  lemma Period()
    ensures F().DegreeOk() && Power(F(), 16383) == 1
  {
    hide Power, Pow2;
    FieldShape();
    Start();
    Powers16384();
    assert Power(F(), 16384) == Power(F(), 1) by { SamePower(16384, 1, 2); }
    Cancel(16383);
  }

  lemma SamePower(i: nat, j: nat, a: bv14)
    requires Pow(i, a) && Pow(j, a)
    ensures Power(F(), i) == Power(F(), j)
  {
    FieldShape();
    hide Bits, Power;
    BitsInjective(14, Power(F(), i), Power(F(), j));
  }

  lemma Cancel(i: nat)
    requires F().DegreeOk() && Power(F(), i + 1) == Power(F(), 1)
    ensures Power(F(), i) == 1
  {
    hide Iter;
    IterAdd(F(), 1, i, 1);
    IterAdd(F(), 1, 0, 1);
    PowerStart(F());
    IterInjective(F(), 1, Power(F(), i), 1);
  }

  /** The three maximal divisors are no exponents of one. */
  lemma NotSooner()
    ensures F().DegreeOk() && Power(F(), 129) != 1 && Power(F(), 381) != 1 && Power(F(), 5461) != 1
  {
    hide Power, Pow;
    FieldShape();
    One();
    Powers129();
    Differ(129, 0x1411, 0, 1, 13 - 4);
    Powers5461();
    Differ(5461, 0x133F, 0, 1, 13 - 1);
    Powers381();
    Differ(384, 0xBCA, 3, 8, 13 - 1);
    if Power(F(), 381) == 1 { ThreeMore(381); }
  }

  lemma One()
    ensures Pow(0, 1) && Power(F(), 0) == 1
  {
    FieldShape();
    RepOne();
    PowerStart(F());
  }

  lemma ThreeMore(i: nat)
    requires F().DegreeOk() && Power(F(), i) == 1
    ensures Power(F(), i + 3) == Power(F(), 3)
  {
    hide Iter;
    IterAdd(F(), 3, i, 1);
  }

  // ----- the divisors of 16383

  lemma NoFactors(p: nat, a: nat, b: nat)
    requires p == 3 || p == 43 || p == 127
    requires a >= 2 && b >= 2
    ensures a * b != p
  {
    if a > 11 && b > 11 {
      assert a * b >= 12 * b;
    } else if a <= 11 {
      SmallFactor(p, a, b);
    } else {
      SmallFactor(p, b, a);
    }
  }

  lemma SmallFactor(p: nat, a: nat, b: nat)
    requires p == 3 || p == 43 || p == 127
    requires 2 <= a <= 11 && b >= 2
    ensures a * b != p
  {
    if a == 2 {} else if a == 3 {} else if a == 4 {} else if a == 5 {} else if a == 6 {} else if a == 7 {}
    else if a == 8 {} else if a == 9 {} else if a == 10 {} else {}
  }

  /** A prime that divides a product but not one factor divides the other. */
  lemma {:induction false} Euclid(p: nat, k: nat, i: nat, z: nat)
    requires p == 3 || p == 43 || p == 127
    requires k % p != 0 && k * i == p * z
    ensures i % p == 0
    decreases k
  {
    if k > p {
      Reduce(p, k, i, z);
      Euclid(p, k % p, i, z - k / p * i);
    } else if k == 1 {
      Multiple(p, z, i);
    } else {
      NoRemainder(p, k);
      Remainder(p, k, i, z);
      Euclid(p, p % k, i, i - p / k * z);
    }
  }

  lemma NoRemainder(p: nat, k: nat)
    requires p == 3 || p == 43 || p == 127
    requires 1 < k && k % p != 0 && k <= p
    ensures 0 < p % k < k && p % k % p != 0
  {
    var q, r := p / k, p % k;
    assert p == k * q + r;
    if r == 0 { NoFactors(p, k, q); }
    SmallRemainder(p, r);
  }

  lemma Multiple(p: nat, z: nat, i: nat)
    requires p == 3 || p == 43 || p == 127
    requires i == p * z
    ensures i % p == 0
  {
    if p == 3 {
      assert i == 3 * z;
    } else if p == 43 {
      assert i == 43 * z;
    } else {
      assert i == 127 * z;
    }
  }

  lemma NotNegative(p: nat, x: int)
    requires p > 0 && p * x >= 0
    ensures x >= 0
  {}

  lemma Reduce(p: nat, k: nat, i: nat, z: nat)
    requires p > 0 && k * i == p * z
    ensures z - k / p * i >= 0 && (k % p) * i == p * (z - k / p * i)
  {
    var q, r := k / p, k % p;
    assert k == p * q + r;
    assert k * i == p * (q * i) + r * i;
    assert p * (z - q * i) == p * z - p * (q * i);
    NotNegative(p, z - q * i);
  }

  lemma Remainder(p: nat, k: nat, i: nat, z: nat)
    requires p > 0 && k > 0 && k * i == p * z
    ensures i - p / k * z >= 0 && (p % k) * i == p * (i - p / k * z)
  {
    var q, r := p / k, p % k;
    assert p == k * q + r;
    assert p * i == (k * i) * q + r * i;
    assert (k * i) * q == p * (q * z);
    assert p * (i - q * z) == p * i - p * (q * z);
    NotNegative(p, i - q * z);
  }

  lemma SmallRemainder(p: nat, r: nat)
    requires 0 < r < p
    ensures r % p != 0
  {}

  /** A divisor that leaves a quotient above one divides 5461, 381 or 129. */
  lemma ProperDivisor(i: nat, k: nat)
    requires i * k == 16383 && k >= 2
    ensures k % 3 == 0 || k % 43 == 0 || k % 127 == 0
  {
    if k % 3 != 0 {
      Euclid(3, k, i, 5461);
      var j := i / 3;
      assert j * k == 5461;
      if k % 43 != 0 {
        Euclid(43, k, j, 127);
        var l := j / 43;
        assert l * k == 127;
        if l >= 2 { NoFactors(127, l, k); }
      }
    }
  }

  lemma {:induction false} NoEarlier(i: nat)
    requires F().DegreeOk() && 0 < i < 16383
    ensures Power(F(), i) != 1
    decreases i
  {
    hide Power;
    if Power(F(), i) == 1 {
      Period();
      var r, k := 16383 % i, 16383 / i;
      assert 16383 == i * k + r;
      OneRest(i, 16383, k);
      if r > 0 {
        NoEarlier(r);
      } else {
        Dividing(i, k);
      }
    }
  }

  lemma Quotient(i: nat, k: nat, q: nat, n: nat)
    requires q > 0 && i * k == q * n && k % q == 0
    ensures i * (k / q) == n
  {
    var j := k / q;
    assert k == q * j;
    assert q * (i * j) == q * n;
  }

  lemma Dividing(i: nat, k: nat)
    requires F().DegreeOk() && i * k == 16383 && k >= 2
    ensures Power(F(), i) != 1
  {
    hide Power;
    if Power(F(), i) == 1 {
      NotSooner();
      ProperDivisor(i, k);
      if k % 3 == 0 {
        Quotient(i, k, 3, 5461);
        OneMultiple(i, k / 3);
      } else if k % 43 == 0 {
        Quotient(i, k, 43, 381);
        OneMultiple(i, k / 43);
      } else {
        Quotient(i, k, 127, 129);
        OneMultiple(i, k / 127);
      }
    }
  }

  /** The polynomial of the program passes its own check and describes a field. */
  lemma PolynomialIsPrimitive()
    ensures Primitive(F())
  {
    hide Power, Pow2;
    FieldShape();
    forall i | 0 < i < F().N() ensures Power(F(), i) != 1 {
      NoEarlier(i);
    }
  }
}
