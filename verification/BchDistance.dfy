/**
 What the strength of the code is worth: a nonzero word that vanishes at the
 first 2t powers has more than 2t ones, so any t wrong bits can be corrected.
 */
module BchDistance {
  import opened BitVectors
  import opened Gf2Poly
  import opened GaloisField
  import opened RootPoly
  import opened Cosets
  import opened Codeword

  // ----- weight and distance

  /** The number of ones. */
  function Weight(s: seq<bool>): nat {
    if s == [] then 0 else Weight(s[..|s| - 1]) + if s[|s| - 1] then 1 else 0
  }

  function Distance(a: seq<bool>, b: seq<bool>): nat
    requires |a| == |b|
  {
    Weight(XorBits(a, b))
  }

  lemma WeightSnoc(s: seq<bool>, b: bool)
    ensures Weight(s + [b]) == Weight(s) + if b then 1 else 0
  {
    assert (s + [b])[..|s|] == s;
  }

  lemma {:induction false} WeightXor(a: seq<bool>, b: seq<bool>)
    requires |a| == |b|
    ensures Weight(XorBits(a, b)) <= Weight(a) + Weight(b)
    decreases |a|
  {
    hide Weight;
    if a == [] {
      assert XorBits(a, b) == [];
      NoWeight();
    } else {
      var n := |a| - 1;
      WeightXor(a[..n], b[..n]);
      assert a == a[..n] + [a[n]] && b == b[..n] + [b[n]];
      assert XorBits(a, b) == XorBits(a[..n], b[..n]) + [a[n] != b[n]];
      WeightSnoc(a[..n], a[n]);
      WeightSnoc(b[..n], b[n]);
      WeightSnoc(XorBits(a[..n], b[..n]), a[n] != b[n]);
    }
  }

  lemma NoWeight()
    ensures Weight([]) == 0
  {}

  // ----- a word as the set of its exponents

  function Raised(es: seq<nat>): (r: seq<nat>)
    ensures |r| == |es|
    ensures forall i :: 0 <= i < |es| ==> r[i] == es[i] + 1
  {
    seq(|es|, i requires 0 <= i < |es| => es[i] + 1)
  }

  /** The exponents of the ones, the last bit having exponent zero. */
  function Exponents(s: seq<bool>): (es: seq<nat>)
    ensures forall i :: 0 <= i < |es| ==> es[i] < |s|
    ensures forall i, j :: 0 <= i < j < |es| ==> es[i] != es[j]
  {
    if s == [] then []
    else Raised(Exponents(s[..|s| - 1])) + if s[|s| - 1] then [0] else []
  }

  lemma {:induction false} ExponentCount(s: seq<bool>)
    ensures |Exponents(s)| == Weight(s)
    decreases |s|
  {
    if s != [] { ExponentCount(s[..|s| - 1]); }
  }

  lemma ExponentsSnoc(s: seq<bool>, b: bool)
    ensures Exponents(s + [b]) == Raised(Exponents(s)) + if b then [0] else []
  {
    assert (s + [b])[..|s|] == s;
  }

  /** The sum of the k-th powers of the listed elements. */
  function PowSum(f: Field, es: seq<nat>, k: nat): (r: nat)
    requires f.DegreeOk()
    ensures f.Elem(r)
  {
    if es == [] then 0
    else
      var rest := PowSum(f, es[..|es| - 1], k);
      XorBound(rest, Power(f, es[|es| - 1] * k), f.m);
      Xor(rest, Power(f, es[|es| - 1] * k))
  }

  lemma PowSumSnoc(f: Field, es: seq<nat>, e: nat, k: nat)
    requires f.DegreeOk()
    ensures PowSum(f, es + [e], k) == Xor(PowSum(f, es, k), Power(f, e * k))
    ensures PowSum(f, [], k) == 0
  {
    hide Xor, Power;
    assert (es + [e])[..|es|] == es;
  }

  lemma {:induction false} PowSumRaised(f: Field, es: seq<nat>, k: nat)
    requires Primitive(f)
    ensures PowSum(f, Raised(es), k) == Mul(f, Power(f, k), PowSum(f, es, k))
    decreases |es|
  {
    hide Xor, Power, Mul, PowSum, NoEarlyOne, Pow2;
    PowSumSnoc(f, [], 0, k);
    if es == [] {
      assert Raised(es) == [];
      MulZero(f, Power(f, k));
    } else {
      var n := |es| - 1;
      var init, e := es[..n], es[n];
      PowSumRaised(f, init, k);
      assert es == init + [e] && Raised(es) == Raised(init) + [e + 1];
      PowSumSnoc(f, init, e, k);
      PowSumSnoc(f, Raised(init), e + 1, k);
      MulDistrib(f, PowSum(f, init, k), Power(f, e * k), Power(f, k));
      PowerMul(f, k, e * k);
      assert (e + 1) * k == k + e * k;
    }
  }

  /** The value of a word at a power is the sum over its exponents. */
  lemma {:induction false} HornerIsPowSum(f: Field, s: seq<bool>, k: nat)
    requires Primitive(f)
    ensures Horner(f, s, Power(f, k)) == PowSum(f, Exponents(s), k)
    decreases |s|
  {
    hide Xor, Power, Mul, PowSum, Horner, NoEarlyOne, Pow2;
    HornerSnoc(f, [], true, Power(f, k));
    PowSumSnoc(f, [], 0, k);
    if s != [] {
      var n := |s| - 1;
      var init, b := s[..n], s[n];
      HornerIsPowSum(f, init, k);
      assert s == init + [b];
      HornerSnoc(f, init, b, Power(f, k));
      ExponentsSnoc(init, b);
      var es := Exponents(init);
      PowSumRaised(f, es, k);
      if b {
        PowSumSnoc(f, Raised(es), 0, k);
        PowerStart(f);
      } else {
        assert Raised(es) + [] == Raised(es);
        XorZero(Mul(f, Power(f, k), PowSum(f, es, k)));
      }
    }
  }

  // ----- weighted sums of a polynomial's values

  /** The sum over the listed elements x of x^k times the value of `p` at x. */
  function ValueSum(f: Field, es: seq<nat>, p: seq<nat>, k: nat): (r: nat)
    requires f.DegreeOk() && IsPoly(f, p)
    ensures f.Elem(r)
  {
    if es == [] then 0
    else
      var e := es[|es| - 1];
      var rest, term := ValueSum(f, es[..|es| - 1], p, k), Mul(f, Power(f, e * k), Eval(f, p, Power(f, e)));
      XorBound(rest, term, f.m);
      Xor(rest, term)
  }

  lemma ValueSumSnoc(f: Field, es: seq<nat>, e: nat, p: seq<nat>, k: nat)
    requires f.DegreeOk() && IsPoly(f, p)
    ensures ValueSum(f, es + [e], p, k) == Xor(ValueSum(f, es, p, k), Mul(f, Power(f, e * k), Eval(f, p, Power(f, e))))
    ensures ValueSum(f, [], p, k) == 0
  {
    hide Xor, Power, Mul, Eval;
    assert (es + [e])[..|es|] == es;
  }

  /** One term: splitting off the constant coefficient raises the power. */
  lemma TermCons(f: Field, e: nat, c: nat, p: seq<nat>, k: nat)
    requires Primitive(f) && IsPoly(f, p) && f.Elem(c)
    ensures IsPoly(f, [c] + p)
    ensures Mul(f, Power(f, e * k), Eval(f, [c] + p, Power(f, e)))
         == Xor(Mul(f, Power(f, e * k), c), Mul(f, Power(f, e * (k + 1)), Eval(f, p, Power(f, e))))
  {
    hide Xor, Power, Mul, Eval, NoEarlyOne, Pow2;
    var x, y, v := Power(f, e), Power(f, e * k), Eval(f, p, Power(f, e));
    EvalCons(f, c, p, x);
    MulDistrib(f, c, Mul(f, x, v), y);
    MulAssoc(f, y, x, v);
    PowerMul(f, e * k, e);
    assert e * (k + 1) == e * k + e;
  }

  lemma {:induction false} ValueSumCons(f: Field, es: seq<nat>, c: nat, p: seq<nat>, k: nat)
    requires Primitive(f) && IsPoly(f, p) && f.Elem(c)
    ensures IsPoly(f, [c] + p)
    ensures ValueSum(f, es, [c] + p, k) == Xor(Mul(f, PowSum(f, es, k), c), ValueSum(f, es, p, k + 1))
    decreases |es|
  {
    hide Xor, Power, Mul, Eval, PowSum, ValueSum, NoEarlyOne, Pow2;
    TermCons(f, 0, c, p, k);
    ValueSumSnoc(f, [], 0, p, k + 1);
    ValueSumSnoc(f, [], 0, [c] + p, k);
    PowSumSnoc(f, [], 0, k);
    if es == [] {
      MulComm(f, 0, c);
      MulZero(f, c);
      XorZero(0);
    } else {
      var n := |es| - 1;
      ValueSumCons(f, es[..n], c, p, k);
      ValueSumStep(f, es[..n], es[n], c, p, k);
      assert es == es[..n] + [es[n]];
    }
  }

  lemma ValueSumStep(f: Field, init: seq<nat>, e: nat, c: nat, p: seq<nat>, k: nat)
    requires Primitive(f) && IsPoly(f, p) && f.Elem(c) && IsPoly(f, [c] + p)
    requires ValueSum(f, init, [c] + p, k) == Xor(Mul(f, PowSum(f, init, k), c), ValueSum(f, init, p, k + 1))
    ensures ValueSum(f, init + [e], [c] + p, k)
         == Xor(Mul(f, PowSum(f, init + [e], k), c), ValueSum(f, init + [e], p, k + 1))
  {
    hide Xor, Power, Mul, Eval, PowSum, ValueSum, NoEarlyOne, Pow2;
    var y, v := Power(f, e * k), Mul(f, Power(f, e * (k + 1)), Eval(f, p, Power(f, e)));
    TermCons(f, e, c, p, k);
    ValueSumSnoc(f, init, e, [c] + p, k);
    ValueSumSnoc(f, init, e, p, k + 1);
    PowSumSnoc(f, init, e, k);
    MulDistrib(f, PowSum(f, init, k), y, c);
    XorSwap(Mul(f, PowSum(f, init, k), c), ValueSum(f, init, p, k + 1), Mul(f, y, c), v);
  }

  /** Vanishing power sums make every such sum vanish. */
  lemma {:induction false} ValueSumVanishes(f: Field, es: seq<nat>, p: seq<nat>, k: nat)
    requires Primitive(f) && IsPoly(f, p)
    requires forall j :: k <= j < k + |p| ==> PowSum(f, es, j) == 0
    ensures ValueSum(f, es, p, k) == 0
    decreases |p|
  {
    hide Xor, Power, Mul, Eval, PowSum, ValueSum, NoEarlyOne, Pow2;
    if p == [] {
      NoValues(f, es, k);
    } else {
      var c, t := p[0], p[1..];
      assert p == [c] + t;
      ValueSumVanishes(f, es, t, k + 1);
      ValueSumCons(f, es, c, t, k);
      MulComm(f, 0, c);
      MulZero(f, c);
      XorZero(0);
    }
  }

  lemma {:induction false} NoValues(f: Field, es: seq<nat>, k: nat)
    requires Primitive(f)
    ensures ValueSum(f, es, [], k) == 0
    decreases |es|
  {
    hide Xor, Power, Mul, ValueSum, NoEarlyOne, Pow2;
    ValueSumSnoc(f, [], 0, [], k);
    if es != [] {
      var n := |es| - 1;
      NoValues(f, es[..n], k);
      assert es == es[..n] + [es[n]];
      ValueSumSnoc(f, es[..n], es[n], [], k);
      MulZero(f, Power(f, es[n] * k));
      XorZero(0);
    }
  }

  /** At a product's own roots all values are zero. */
  lemma {:induction false} RootValues(f: Field, es: seq<nat>, rs: seq<nat>, k: nat)
    requires Primitive(f) && IsPoly(f, rs) && forall i :: 0 <= i < |es| ==> Power(f, es[i]) in rs
    ensures ValueSum(f, es, Product(f, rs), k) == 0
    decreases |es|
  {
    hide Xor, Power, Mul, Eval, Product, ValueSum, NoEarlyOne, Pow2;
    var p := Product(f, rs);
    ValueSumSnoc(f, [], 0, p, k);
    if es != [] {
      var n := |es| - 1;
      RootValues(f, es[..n], rs, k);
      assert es == es[..n] + [es[n]];
      ValueSumSnoc(f, es[..n], es[n], p, k);
      ProductRoots(f, rs, Power(f, es[n]));
      MulZero(f, Power(f, es[n] * k));
      XorZero(0);
    }
  }

  /** The product over all elements but the last has a value at the last one only. */
  lemma LastValue(f: Field, init: seq<nat>, e: nat)
    requires Primitive(f) && e < f.N() && forall i :: 0 <= i < |init| ==> init[i] < f.N() && init[i] != e
    ensures ValueSum(f, init + [e], Product(f, Powers(f, init)), 1) != 0
  {
    hide Xor, Power, Mul, Eval, Product, ValueSum, NoEarlyOne, Pow2;
    var rs := Powers(f, init);
    var p := Product(f, rs);
    ValueSumSnoc(f, init, e, p, 1);
    RootValues(f, init, rs, 1);
    forall i | 0 <= i < |init| ensures rs[i] != Power(f, e) {
      if init[i] < e { PowerDistinct(f, init[i], e); } else { PowerDistinct(f, e, init[i]); }
    }
    ProductRoots(f, rs, Power(f, e));
    var v := Eval(f, p, Power(f, e));
    PowerNonzero(f, e * 1);
    NoZeroDivisors(f, Power(f, e * 1), v);
    XorZero(Mul(f, Power(f, e * 1), v));
  }

  /** At most d different elements do not have d vanishing power sums. */
  lemma PowSumsDiffer(f: Field, es: seq<nat>, d: nat)
    requires Primitive(f) && 0 < |es| <= d
    requires forall i :: 0 <= i < |es| ==> es[i] < f.N()
    requires forall i, j :: 0 <= i < j < |es| ==> es[i] != es[j]
    ensures exists k :: 1 <= k <= d && PowSum(f, es, k) != 0
  {
    hide Xor, Power, Product, PowSum, ValueSum, NoEarlyOne, Pow2;
    var n := |es| - 1;
    assert es == es[..n] + [es[n]];
    LastValue(f, es[..n], es[n]);
    if forall k :: 1 <= k <= d ==> PowSum(f, es, k) == 0 {
      ValueSumVanishes(f, es, Product(f, Powers(f, es[..n])), 1);
    }
  }

  // ----- the bound

  /** The word vanishes at the first 2t powers. */
  ghost predicate Vanishes(f: Field, t: nat, s: seq<bool>)
    requires f.DegreeOk()
  {
    forall k :: 1 <= k <= 2 * t ==> Horner(f, s, Power(f, k)) == 0
  }

  /** The BCH bound. */
  lemma MinimumWeight(f: Field, t: nat, s: seq<bool>)
    requires Primitive(f) && |s| <= f.N() && Vanishes(f, t, s) && Weight(s) > 0
    ensures Weight(s) > 2 * t
  {
    hide Horner, Power, Exponents, PowSum, NoEarlyOne, Pow2, Weight;
    ExponentCount(s);
    var es := Exponents(s);
    forall k | 1 <= k <= 2 * t ensures PowSum(f, es, k) == 0 {
      HornerIsPowSum(f, s, k);
    }
    if Weight(s) <= 2 * t { PowSumsDiffer(f, es, 2 * t); }
  }

  lemma {:induction false} WeightZero(s: seq<bool>)
    ensures Weight(s) == 0 ==> s == Zeros(|s|)
    decreases |s|
  {
    if s != [] && Weight(s) == 0 {
      var n := |s| - 1;
      WeightZero(s[..n]);
      assert s == s[..n] + [s[n]];
    }
  }

  /** Different words of the code differ in more than 2t bits. */
  lemma MinimumDistance(f: Field, t: nat, a: seq<bool>, b: seq<bool>)
    requires Primitive(f) && |a| == |b| <= f.N() && a != b && Vanishes(f, t, a) && Vanishes(f, t, b)
    ensures Distance(a, b) > 2 * t
  {
    hide Horner, Power, NoEarlyOne, Pow2, Weight, Xor;
    var s := XorBits(a, b);
    forall k | 1 <= k <= 2 * t ensures Horner(f, s, Power(f, k)) == 0 {
      HornerXor(f, a, b, Power(f, k));
      XorZero(0);
    }
    WeightZero(s);
    if Weight(s) == 0 { SameBits(a, b); }
    MinimumWeight(f, t, s);
  }

  lemma SameBits(a: seq<bool>, b: seq<bool>)
    requires |a| == |b| && XorBits(a, b) == Zeros(|a|)
    ensures a == b
  {
    forall i | 0 <= i < |a| ensures a[i] == b[i] {
      assert XorBits(a, b)[i] == Zeros(|a|)[i];
    }
  }

  /** Two blocks of the encoder differ, with their parity, in more than 2t bits. */
  lemma EncodedDistance(f: Field, t: nat, x: seq<bool>, y: seq<bool>)
    requires Primitive(f) && 1 <= t && 2 * t < f.N() && IsGenerator(GeneratorBits(f, t))
    requires |x| == |y| && x != y && |x| + |GeneratorBits(f, t)| - 1 <= f.N()
    ensures Distance(x + Parity(GeneratorBits(f, t), x), y + Parity(GeneratorBits(f, t), y)) > 2 * t
  {
    hide Horner, Power, NoEarlyOne, Pow2, Weight, Parity, GeneratorBits;
    var g := GeneratorBits(f, t);
    var a, b := x + Parity(g, x), y + Parity(g, y);
    forall k | 1 <= k <= 2 * t ensures Horner(f, a, Power(f, k)) == 0 && Horner(f, b, Power(f, k)) == 0 {
      CodewordVanishes(f, t, x, k);
      CodewordVanishes(f, t, y, k);
    }
    assert a[..|x|] == x && b[..|x|] == y;
    MinimumDistance(f, t, a, b);
  }

  /** So up to t wrong bits are correctable: at most one word of the code is that near. */
  lemma UniqueCorrection(f: Field, t: nat, w: seq<bool>, a: seq<bool>, b: seq<bool>)
    requires Primitive(f) && |w| == |a| == |b| <= f.N() && Vanishes(f, t, a) && Vanishes(f, t, b)
    requires Distance(w, a) <= t && Distance(w, b) <= t
    ensures a == b
  {
    hide Vanishes, Weight, NoEarlyOne, Pow2;
    if a != b {
      MinimumDistance(f, t, a, b);
      assert XorBits(a, b) == XorBits(XorBits(w, a), XorBits(w, b));
      WeightXor(XorBits(w, a), XorBits(w, b));
    }
  }
}
