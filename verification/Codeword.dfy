/**
 What the parity bits are for: data followed by its parity is a word of the BCH
 code, that is, a binary polynomial vanishing at the first 2t powers of the
 primitive element.
 */
module Codeword {
  import opened BitVectors
  import opened Gf2Poly
  import opened GaloisField
  import opened RootPoly
  import opened Cosets

  /** The value of a binary polynomial, most significant bit first, at `x`. */
  function Horner(f: Field, s: seq<bool>, x: nat): (v: nat)
    requires f.DegreeOk() && f.Elem(x)
    ensures f.Elem(v)
  {
    if s == [] then 0
    else
      var n := |s| - 1;
      var hi := Mul(f, x, Horner(f, s[..n], x));
      Pow2Mono(1, f.m);
      XorBound(hi, Bit(s[n]), f.m);
      Xor(hi, Bit(s[n]))
  }

  function Bit(b: bool): (r: nat) {
    if b then 1 else 0
  }

  /** The bit string of a polynomial with 0/1 coefficients. */
  function ToBits(p: seq<nat>): (s: seq<bool>)
    ensures |s| == |p|
  {
    seq(|p|, j requires 0 <= j < |p| => p[|p| - 1 - j] != 0)
  }

  /** The generator polynomial of the code as the encoder stores it. */
  ghost function GeneratorBits(f: Field, t: nat): (g: seq<bool>)
    requires f.DegreeOk()
  {
    ToBits(Product(f, Roots(f, t)))
  }

  lemma HornerSnoc(f: Field, s: seq<bool>, b: bool, x: nat)
    requires f.DegreeOk() && f.Elem(x)
    ensures Horner(f, [], x) == 0
    ensures Horner(f, s + [b], x) == Xor(Mul(f, x, Horner(f, s, x)), Bit(b))
  {
    hide Mul, Xor;
    assert (s + [b])[..|s + [b]| - 1] == s;
  }

  /** Reading off the bits keeps the value at every point. */
  lemma {:induction false} HornerEval(f: Field, p: seq<nat>, x: nat)
    requires Primitive(f) && f.Elem(x) && IsPoly(f, p)
    requires forall j :: 0 <= j < |p| ==> p[j] == 0 || p[j] == 1
    ensures Horner(f, ToBits(p), x) == Eval(f, p, x)
    decreases |p|
  {
    hide Mul, Xor, Horner, NoEarlyOne, Pow2;
    if p == [] {
      HornerSnoc(f, [], true, x);
    } else {
      var c, t := p[0], p[1..];
      HornerEval(f, t, x);
      assert ToBits(p) == ToBits(t) + [c != 0];
      HornerSnoc(f, ToBits(t), c != 0, x);
      XorComm(c, Mul(f, x, Eval(f, t, x)));
    }
  }

  lemma {:induction false} HornerXor(f: Field, a: seq<bool>, b: seq<bool>, x: nat)
    requires Primitive(f) && f.Elem(x) && |a| == |b|
    ensures Horner(f, XorBits(a, b), x) == Xor(Horner(f, a, x), Horner(f, b, x))
    decreases |a|
  {
    hide Mul, Xor, Horner, NoEarlyOne, Pow2;
    HornerSnoc(f, [], true, x);
    if a == [] {
      XorZero(0);
    } else {
      var n := |a| - 1;
      var s, u := a[..n], b[..n];
      HornerXor(f, s, u, x);
      assert a == s + [a[n]] && b == u + [b[n]];
      assert XorBits(a, b) == XorBits(s, u) + [a[n] != b[n]];
      HornerSnoc(f, s, a[n], x);
      HornerSnoc(f, u, b[n], x);
      HornerSnoc(f, XorBits(s, u), a[n] != b[n], x);
      var h, k := Horner(f, s, x), Horner(f, u, x);
      MulDistrib(f, h, k, x);
      XorSwap(Mul(f, x, h), Bit(a[n]), Mul(f, x, k), Bit(b[n]));
      XorBit(a[n], b[n]);
    }
  }

  lemma XorBit(a: bool, b: bool)
    ensures Xor(Bit(a), Bit(b)) == Bit(a != b)
  {}

  lemma {:induction false} HornerZeros(f: Field, k: nat, x: nat)
    requires Primitive(f) && f.Elem(x)
    ensures Horner(f, Zeros(k), x) == 0
  {
    hide Mul, Xor, Horner, NoEarlyOne, Pow2;
    HornerSnoc(f, [], true, x);
    if k > 0 {
      HornerZeros(f, k - 1, x);
      assert Zeros(k) == Zeros(k - 1) + [false];
      HornerSnoc(f, Zeros(k - 1), false, x);
      MulZero(f, x);
      XorZero(0);
    } else {
      assert Zeros(k) == [];
    }
  }

  lemma {:induction false} HornerLead(f: Field, k: nat, s: seq<bool>, x: nat)
    requires Primitive(f) && f.Elem(x)
    ensures Horner(f, Zeros(k) + s, x) == Horner(f, s, x)
    decreases |s|
  {
    hide Mul, Xor, Horner, NoEarlyOne, Pow2;
    if s == [] {
      assert Zeros(k) + s == Zeros(k);
      HornerZeros(f, k, x);
      HornerSnoc(f, [], true, x);
    } else {
      var n := |s| - 1;
      HornerLead(f, k, s[..n], x);
      assert Zeros(k) + s == (Zeros(k) + s[..n]) + [s[n]];
      assert s == s[..n] + [s[n]];
      HornerSnoc(f, Zeros(k) + s[..n], s[n], x);
      HornerSnoc(f, s[..n], s[n], x);
    }
  }

  /** Evaluation is multiplicative. */
  lemma {:induction false} HornerTimes(f: Field, q: seq<bool>, g: seq<bool>, x: nat)
    requires Primitive(f) && f.Elem(x) && |g| >= 1
    ensures Horner(f, Times(q, g), x) == Mul(f, Horner(f, q, x), Horner(f, g, x))
    decreases |q|
  {
    hide Mul, Xor, Horner, Times, NoEarlyOne, Pow2;
    var hg := Horner(f, g, x);
    HornerSnoc(f, [], true, x);
    TimesSnoc(g, [], true);
    if q == [] {
      HornerZeros(f, |g| - 1, x);
      MulZero(f, hg);
    } else {
      var n := |q| - 1;
      var t, b := q[..n], q[n];
      assert q == t + [b];
      HornerTimes(f, t, g, x);
      TimesSnoc(g, t, b);
      HornerSnoc(f, t, b, x);
      var add := if b then g else Zeros(|g|);
      HornerXor(f, Times(t, g) + [false], Zeros(|t|) + add, x);
      HornerLead(f, |t|, add, x);
      HornerZeros(f, |g|, x);
      HornerSnoc(f, Times(t, g), false, x);
      TimesAlgebra(f, x, Horner(f, t, x), hg, b);
    }
  }

  lemma TimesAlgebra(f: Field, x: nat, hq: nat, hg: nat, b: bool)
    requires Primitive(f) && f.Elem(x) && f.Elem(hq) && f.Elem(hg)
    ensures f.Elem(Xor(Mul(f, x, hq), Bit(b)))
    ensures Xor(Xor(Mul(f, x, Mul(f, hq, hg)), Bit(false)), if b then hg else 0)
         == Mul(f, Xor(Mul(f, x, hq), Bit(b)), hg)
  {
    hide Mul, Xor, NoEarlyOne, Pow2;
    MulOne(f, hg);
    MulComm(f, 1, hg);
    MulZero(f, hg);
    MulDistrib(f, Mul(f, x, hq), Bit(b), hg);
    MulAssoc(f, x, hq, hg);
    XorZero(Mul(f, x, Mul(f, hq, hg)));
  }

  /** The generator is a proper polynomial of degree at most m*t. */
  lemma GeneratorShape(f: Field, t: nat)
    requires Primitive(f) && 1 <= t && 2 * t < f.N()
    ensures IsGenerator(GeneratorBits(f, t)) && |GeneratorBits(f, t)| <= f.m * t + 1
  {
    hide Mul, Product, MarkedList, Marked, NoEarlyOne, Pow2, Eval;
    GeneratorPolynomial(f, t);
    MarkedConsecutive(f.N(), f.m, t, 1);
    assert 1 in MarkedList(f.N(), f.m, t, f.N());
  }

  /** The generator vanishes at the first 2t powers. */
  lemma GeneratorVanishes(f: Field, t: nat, s: nat)
    requires Primitive(f) && 1 <= s <= 2 * t < f.N()
    ensures Horner(f, GeneratorBits(f, t), Power(f, s)) == 0
  {
    hide Mul, Product, Eval, Horner, MarkedList, Marked, Power, NoEarlyOne, Pow2;
    GeneratorPolynomial(f, t);
    HornerEval(f, Product(f, Roots(f, t)), Power(f, s));
  }

  /** Data followed by its parity is a BCH codeword. */
  lemma CodewordVanishes(f: Field, t: nat, data: seq<bool>, s: nat)
    requires Primitive(f) && 1 <= s <= 2 * t < f.N()
    ensures IsGenerator(GeneratorBits(f, t))
    ensures Horner(f, data + Parity(GeneratorBits(f, t), data), Power(f, s)) == 0
  {
    hide Mul, Product, Horner, Times, Quotient, Run, Roots, Power, NoEarlyOne, Pow2;
    var g, x := GeneratorBits(f, t), Power(f, s);
    GeneratorShape(f, t);
    GeneratorVanishes(f, t, s);
    CodewordIsMultiple(g, data);
    var q := Quotient(g, data);
    HornerTimes(f, q, g, x);
    MulZero(f, Horner(f, q, x));
  }
}
