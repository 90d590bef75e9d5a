/**
 Unsigned machine integers as natural numbers, and their view as bit sequences.

 The C sources mix table indices, shifts and exclusive-or on the same unsigned
 values.  Here such a value is a `nat`; the width is written out wherever it
 matters.  `Bits(k, x)` lists the low `k` bits of `x`, most significant first.
 */
module BitVectors {

  type byte = x: nat | x < 0x100
  type u32 = x: nat | x < 0x1_0000_0000

  function Pow2(k: nat): (r: nat)
    ensures r > 0
  {
    if k == 0 then 1 else 2 * Pow2(k - 1)
  }

  /** Exclusive-or of two unsigned values. */
  function Xor(a: nat, b: nat): nat
    decreases a + b
  {
    if a == 0 && b == 0 then 0 else 2 * Xor(a / 2, b / 2) + (a + b) % 2
  }

  /** `x >> j`. */
  function Shr(x: nat, j: nat): nat
    decreases j
  {
    if j == 0 then x else Shr(x / 2, j - 1)
  }

  /** `x << j`, before the result is cut to the word width. */
  function Shl(x: nat, j: nat): nat
    decreases j
  {
    if j == 0 then x else 2 * Shl(x, j - 1)
  }

  /** `x` modulo `2^k`. */
  function Low(k: nat, x: nat): (r: nat)
    ensures r < Pow2(k)
  {
    if k == 0 then 0 else 2 * Low(k - 1, x / 2) + x % 2
  }

  /** The low `k` bits of `x`, most significant first. */
  function Bits(k: nat, x: nat): (r: seq<bool>)
    ensures |r| == k
  {
    if k == 0 then [] else Bits(k - 1, x / 2) + [x % 2 == 1]
  }

  /** The number a bit sequence denotes, most significant bit first. */
  function Val(s: seq<bool>): (r: nat)
    ensures r < Pow2(|s|)
  {
    if s == [] then 0 else 2 * Val(s[..|s| - 1]) + (if s[|s| - 1] then 1 else 0)
  }

  function Zeros(k: nat): (r: seq<bool>)
    ensures |r| == k
    ensures forall i :: 0 <= i < k ==> !r[i]
  {
    seq(k, i => false)
  }

  /** Bitwise exclusive-or of two sequences of one length. */
  function XorBits(a: seq<bool>, b: seq<bool>): (r: seq<bool>)
    requires |a| == |b|
    ensures |r| == |a|
    ensures forall i :: 0 <= i < |r| ==> r[i] == (a[i] != b[i])
  {
    seq(|a|, i requires 0 <= i < |a| => a[i] != b[i])
  }

  lemma XorBitsZero(s: seq<bool>)
    ensures XorBits(s, Zeros(|s|)) == s
  {}

  lemma XorBitsSelf(s: seq<bool>)
    ensures XorBits(s, s) == Zeros(|s|)
  {}

  // ----- powers of two

  lemma {:induction false} Pow2Mono(a: nat, b: nat)
    requires a <= b
    ensures Pow2(a) <= Pow2(b)
    decreases b
  {
    if a < b { Pow2Mono(a, b - 1); }
  }

  // ----- exclusive-or on numbers

  lemma {:induction false} XorComm(a: nat, b: nat)
    ensures Xor(a, b) == Xor(b, a)
    decreases a + b
  {
    if a + b > 0 { XorComm(a / 2, b / 2); }
  }

  lemma XorHalf(a: nat, b: nat)
    ensures Xor(a, b) / 2 == Xor(a / 2, b / 2)
    ensures Xor(a, b) % 2 == (a + b) % 2
  {}

  /** Exclusive-or one bit at a time, low bit last. */
  lemma XorCons(a: nat, p: nat, b: nat, q: nat)
    requires p < 2 && q < 2
    ensures Xor(2 * a + p, 2 * b + q) == 2 * Xor(a, b) + (p + q) % 2
  {
    var x, y := 2 * a + p, 2 * b + q;
    assert x / 2 == a && y / 2 == b;
    assert (x + y) % 2 == (p + q) % 2;
  }

  lemma {:induction false} XorAssoc(a: nat, b: nat, c: nat)
    ensures Xor(Xor(a, b), c) == Xor(a, Xor(b, c))
    decreases a + b + c
  {
    hide Xor;
    if a + b + c > 0 {
      var x, p, y, q, z, r := a / 2, a % 2, b / 2, b % 2, c / 2, c % 2;
      XorAssoc(x, y, z);
      XorAssocStep(x, p, y, q, z, r);
    } else {
      XorZero(0);
    }
  }

  lemma XorAssocStep(x: nat, p: nat, y: nat, q: nat, z: nat, r: nat)
    requires p < 2 && q < 2 && r < 2
    requires Xor(Xor(x, y), z) == Xor(x, Xor(y, z))
    ensures Xor(Xor(2 * x + p, 2 * y + q), 2 * z + r) == Xor(2 * x + p, Xor(2 * y + q, 2 * z + r))
  {
    hide Xor;
    XorCons(x, p, y, q);
    XorCons(Xor(x, y), (p + q) % 2, z, r);
    XorCons(y, q, z, r);
    XorCons(x, p, Xor(y, z), (q + r) % 2);
  }

  lemma {:induction false} XorZero(a: nat)
    ensures Xor(a, 0) == a && Xor(0, a) == a
  {
    if a > 0 { XorZero(a / 2); }
  }

  lemma {:induction false} XorSelf(a: nat)
    ensures Xor(a, a) == 0
  {
    if a > 0 { XorSelf(a / 2); }
  }

  /** Exclusive-or with `c` undoes itself, so it is injective. */
  lemma XorCancel(a: nat, b: nat, c: nat)
    ensures Xor(Xor(a, c), c) == a
    ensures Xor(a, c) == Xor(b, c) ==> a == b
  {
    XorAssoc(a, c, c);
    XorAssoc(b, c, c);
    XorSelf(c);
    XorZero(a);
    XorZero(b);
  }

  /** (a + b) + (c + d) == (a + c) + (b + d) for exclusive-or. */
  lemma XorSwap(a: nat, b: nat, c: nat, d: nat)
    ensures Xor(Xor(a, b), Xor(c, d)) == Xor(Xor(a, c), Xor(b, d))
  {
    XorAssoc(a, b, Xor(c, d));
    XorAssoc(b, c, d);
    XorComm(b, c);
    XorAssoc(c, b, d);
    XorAssoc(a, c, Xor(b, d));
  }

  lemma {:induction false} XorBound(a: nat, b: nat, k: nat)
    requires a < Pow2(k) && b < Pow2(k)
    ensures Xor(a, b) < Pow2(k)
    decreases k
  {
    if k == 0 {
    } else {
      XorBound(a / 2, b / 2, k - 1);
    }
  }

  /** Two numbers with the same top bit `k` cancel it. */
  lemma {:induction false} XorTop(a: nat, b: nat, k: nat)
    requires Pow2(k) <= a < Pow2(k + 1) && Pow2(k) <= b < Pow2(k + 1)
    ensures Xor(a, b) < Pow2(k)
    decreases k
  {
    if k > 0 { XorTop(a / 2, b / 2, k - 1); }
  }

  lemma XorDouble(a: nat, b: nat)
    ensures Xor(2 * a, 2 * b) == 2 * Xor(a, b)
  {
    hide Xor;
    XorCons(a, 0, b, 0);
  }

  // ----- bit sequences

  lemma {:induction false} ValBits(k: nat, x: nat)
    requires x < Pow2(k)
    ensures Val(Bits(k, x)) == x
  {
    if k > 0 {
      ValBits(k - 1, x / 2);
      assert Bits(k, x)[..k - 1] == Bits(k - 1, x / 2);
    }
  }

  lemma {:induction false} BitsVal(s: seq<bool>)
    ensures Bits(|s|, Val(s)) == s
    decreases |s|
  {
    if s != [] { BitsVal(s[..|s| - 1]); }
  }

  lemma {:induction false} BitsXor(k: nat, a: nat, b: nat)
    ensures Bits(k, Xor(a, b)) == XorBits(Bits(k, a), Bits(k, b))
  {
    XorHalf(a, b);
    hide Xor;
    if k > 0 {
      BitsXor(k - 1, a / 2, b / 2);
    }
  }

  lemma {:induction false} BitsZero(k: nat)
    ensures Bits(k, 0) == Zeros(k)
  {
    if k > 0 { BitsZero(k - 1); }
  }

  lemma BitsLast(k: nat, x: nat)
    requires k > 0
    ensures Bits(k, x) == Bits(k - 1, x / 2) + [x % 2 == 1]
  {}

  /** Splitting off the low `b` bits: the view behind every shift. */
  lemma {:induction false} BitsSplit(a: nat, b: nat, x: nat)
    ensures Bits(a + b, x) == Bits(a, Shr(x, b)) + Bits(b, x)
    decreases b
  {
    if b > 0 {
      var low := [x % 2 == 1];
      BitsSplit(a, b - 1, x / 2);
      assert Bits(a + b, x) == Bits(a + b - 1, x / 2) + low;
      assert Bits(b, x) == Bits(b - 1, x / 2) + low;
    }
  }

  /** Left shift by `j`: append `j` zeros below the kept high part. */
  lemma {:induction false} BitsShl(k: nat, j: nat, x: nat)
    requires j <= k
    ensures Bits(k, Shl(x, j)) == Bits(k - j, x) + Zeros(j)
    decreases j
  {
    if j > 0 {
      BitsShl(k - 1, j - 1, x);
      assert Zeros(j) == Zeros(j - 1) + [false];
    }
  }

  /** Left shift within a `k`-bit word: drop the top `j` bits, append zeros. */
  lemma BitsShlWord(k: nat, j: nat, x: nat)
    requires j <= k
    ensures Bits(k, Low(k, Shl(x, j))) == Bits(k, x)[j..] + Zeros(j)
  {
    hide Bits, Shl, Shr, Low;
    BitsLow(k, Shl(x, j));
    BitsShl(k, j, x);
    BitsSplit(j, k - j, x);
  }

  /** Right shift by `j` of a `k`-bit value: `j` zeros, then the high part. */
  lemma {:induction false} BitsShr(k: nat, j: nat, x: nat)
    requires j <= k && x < Pow2(k)
    ensures Bits(k, Shr(x, j)) == Zeros(j) + Bits(k, x)[..k - j]
    decreases j
  {
    if j > 0 {
      BitsShr(k - 1, j - 1, x / 2);
      var y := Shr(x, j);
      assert y < Pow2(k - 1) by { ShrBound(x / 2, j - 1, k - 1); }
      BitsPad(k - 1, y);
      assert Bits(k, x)[..k - j] == Bits(k - 1, x / 2)[..k - j];
      assert Zeros(j) == [false] + Zeros(j - 1);
    }
  }

  lemma {:induction false} ShlShl(x: nat, j: nat, k: nat)
    ensures Shl(Shl(x, j), k) == Shl(x, j + k)
    decreases k
  {
    if k > 0 { ShlShl(x, j, k - 1); }
  }

  lemma {:induction false} ShrBound(x: nat, j: nat, k: nat)
    requires x < Pow2(k)
    ensures Shr(x, j) < Pow2(k)
    decreases j
  {
    if j > 0 { ShrBound(x / 2, j - 1, k); }
  }

  /** One more leading bit of a value that fits is zero. */
  lemma {:induction false} BitsPad(k: nat, x: nat)
    requires x < Pow2(k)
    ensures Bits(k + 1, x) == [false] + Bits(k, x)
  {
    if k > 0 { BitsPad(k - 1, x / 2); }
  }

  /** Bits of a value reduced to the word width. */
  lemma {:induction false} BitsLow(k: nat, x: nat)
    ensures Bits(k, Low(k, x)) == Bits(k, x)
  {
    if k > 0 { BitsLow(k - 1, x / 2); }
  }

  lemma BitsInjective(k: nat, x: nat, y: nat)
    requires x < Pow2(k) && y < Pow2(k) && Bits(k, x) == Bits(k, y)
    ensures x == y
  {
    ValBits(k, x);
    ValBits(k, y);
  }
}
