/**
 Polynomials over GF(2^m), constant coefficient first, built as products of
 linear factors (X + r).  The facts here are what makes it sound to read the
 generator polynomial off as a string of bits.
 */
module RootPoly {
  import opened BitVectors
  import opened GaloisField

  predicate IsPoly(f: Field, p: seq<nat>) {
    forall i :: 0 <= i < |p| ==> f.Elem(p[i])
  }

  /** Coefficient `j`, zero outside the stored range. */
  function At(p: seq<nat>, j: int): nat {
    if 0 <= j < |p| then p[j] else 0
  }

  function LinCoef(f: Field, p: seq<nat>, r: nat, j: int): (c: nat)
    requires f.DegreeOk() && IsPoly(f, p) && f.Elem(r)
    ensures f.Elem(c)
  {
    XorBound(At(p, j - 1), Mul(f, At(p, j), r), f.m);
    Xor(At(p, j - 1), Mul(f, At(p, j), r))
  }

  /** `p * (X + r)`. */
  function MulLin(f: Field, p: seq<nat>, r: nat): (q: seq<nat>)
    requires f.DegreeOk() && IsPoly(f, p) && f.Elem(r)
    ensures IsPoly(f, q) && |q| == |p| + 1
  {
    seq(|p| + 1, j requires 0 <= j <= |p| && f.DegreeOk() && IsPoly(f, p) && f.Elem(r) => LinCoef(f, p, r, j))
  }

  /** The value of `p` at `x`. */
  function Eval(f: Field, p: seq<nat>, x: nat): (v: nat)
    requires f.DegreeOk() && IsPoly(f, p) && f.Elem(x)
    ensures f.Elem(v)
  {
    if p == [] then 0
    else
      var rest := Mul(f, x, Eval(f, p[1..], x));
      XorBound(p[0], rest, f.m);
      Xor(p[0], rest)
  }

  /** The product of (X + r) over the listed roots. */
  function Product(f: Field, rs: seq<nat>): (p: seq<nat>)
    requires f.DegreeOk() && IsPoly(f, rs)
    ensures IsPoly(f, p) && |p| == |rs| + 1
  {
    if rs == [] then
      Pow2Mono(1, f.m);
      [1]
    else MulLin(f, Product(f, rs[..|rs| - 1]), rs[|rs| - 1])
  }

  function Squares(f: Field, p: seq<nat>): (q: seq<nat>)
    requires f.DegreeOk() && IsPoly(f, p)
    ensures IsPoly(f, q) && |q| == |p|
    ensures forall i :: 0 <= i < |p| ==> q[i] == Mul(f, p[i], p[i])
  {
    seq(|p|, i requires 0 <= i < |p| && f.DegreeOk() && IsPoly(f, p) => Mul(f, p[i], p[i]))
  }

  lemma ProductSnoc(f: Field, rs: seq<nat>, r: nat)
    requires f.DegreeOk() && IsPoly(f, rs) && f.Elem(r)
    ensures IsPoly(f, rs + [r]) && Product(f, rs + [r]) == MulLin(f, Product(f, rs), r)
  {
    hide MulLin;
    assert (rs + [r])[..|rs + [r]| - 1] == rs;
  }

  // ----- evaluation

  lemma EvalCons(f: Field, c: nat, p: seq<nat>, x: nat)
    requires f.DegreeOk() && IsPoly(f, p) && f.Elem(x) && f.Elem(c)
    ensures IsPoly(f, [c] + p)
    ensures Eval(f, [c] + p, x) == Xor(c, Mul(f, x, Eval(f, p, x)))
  {
    hide Mul, Xor;
    assert ([c] + p)[1..] == p;
  }

  /** Adding a constant to a polynomial adds it to every value. */
  lemma EvalAddConst(f: Field, p: seq<nat>, c: nat, x: nat)
    requires f.DegreeOk() && IsPoly(f, p) && p != [] && f.Elem(x) && f.Elem(c)
    ensures f.Elem(Xor(c, p[0])) && IsPoly(f, [Xor(c, p[0])] + p[1..])
    ensures Eval(f, [Xor(c, p[0])] + p[1..], x) == Xor(c, Eval(f, p, x))
  {
    hide Mul, Xor, Eval;
    XorBound(c, p[0], f.m);
    EvalCons(f, Xor(c, p[0]), p[1..], x);
    EvalCons(f, p[0], p[1..], x);
    assert [p[0]] + p[1..] == p;
    XorAssoc(c, p[0], Mul(f, x, Eval(f, p[1..], x)));
  }

  lemma MulLinCons(f: Field, c: nat, p: seq<nat>, r: nat)
    requires Primitive(f) && IsPoly(f, [c] + p) && IsPoly(f, p) && f.Elem(r)
    ensures var q := MulLin(f, p, r);
            MulLin(f, [c] + p, r) == [Mul(f, c, r)] + ([Xor(c, q[0])] + q[1..])
  {
    hide Mul, Xor, LinCoef, NoEarlyOne, Pow2;
    var q, cp := MulLin(f, p, r), [c] + p;
    var rhs := [Mul(f, c, r)] + ([Xor(c, q[0])] + q[1..]);
    forall j | 0 <= j <= |cp| ensures LinCoef(f, cp, r, j) == rhs[j] {
      LinCoefCons(f, c, p, r, j);
      if j > 1 { assert rhs[j] == q[j - 1]; }
    }
  }

  lemma LinCoefCons(f: Field, c: nat, p: seq<nat>, r: nat, j: nat)
    requires Primitive(f) && IsPoly(f, [c] + p) && IsPoly(f, p) && f.Elem(r)
    ensures f.Elem(c)
    ensures j == 0 ==> LinCoef(f, [c] + p, r, j) == Mul(f, c, r)
    ensures j == 1 ==> LinCoef(f, [c] + p, r, j) == Xor(c, LinCoef(f, p, r, 0))
    ensures j > 1 ==> LinCoef(f, [c] + p, r, j) == LinCoef(f, p, r, j - 1)
  {
    hide Mul, Xor, NoEarlyOne, Pow2;
    assert ([c] + p)[0] == c;
    XorZero(Mul(f, c, r));
    XorZero(Mul(f, At(p, 0), r));
  }

  /** Evaluation turns the linear factor into a factor of the value. */
  lemma {:induction false} EvalMulLin(f: Field, p: seq<nat>, r: nat, x: nat)
    requires Primitive(f) && IsPoly(f, p) && f.Elem(r) && f.Elem(x)
    ensures f.Elem(Xor(x, r))
    ensures Eval(f, MulLin(f, p, r), x) == Mul(f, Xor(x, r), Eval(f, p, x))
    decreases |p|
  {
    hide Mul, Xor, MulLin, Eval, NoEarlyOne, Pow2;
    XorBound(x, r, f.m);
    if p == [] {
      EvalEmpty(f, r, x);
    } else {
      var c, t := p[0], p[1..];
      EvalMulLin(f, t, r, x);
      assert p == [c] + t;
      MulLinCons(f, c, t, r);
      var q := MulLin(f, t, r);
      EvalAddConst(f, q, c, x);
      EvalCons(f, Mul(f, c, r), [Xor(c, q[0])] + q[1..], x);
      EvalCons(f, c, t, x);
      EvalAlgebra(f, c, r, x, Eval(f, t, x));
    }
  }

  lemma EvalEmpty(f: Field, r: nat, x: nat)
    requires Primitive(f) && f.Elem(r) && f.Elem(x) && f.Elem(Xor(x, r))
    ensures Eval(f, [], x) == 0 && Mul(f, Xor(x, r), 0) == 0
    ensures Eval(f, MulLin(f, [], r), x) == 0
  {
    hide Mul, NoEarlyOne, Pow2;
    MulZero(f, Xor(x, r));
    MulZero(f, x);
    MulZero(f, r);
    assert MulLin(f, [], r) == [0];
    EvalCons(f, 0, [], x);
    assert [0] + [] == [0];
  }

  /** c*r + x*(c + (x+r)*e) == (x+r)*(c + x*e). */
  lemma EvalAlgebra(f: Field, c: nat, r: nat, x: nat, e: nat)
    requires Primitive(f) && f.Elem(c) && f.Elem(r) && f.Elem(x) && f.Elem(e)
    ensures f.Elem(Xor(x, r)) && f.Elem(Xor(c, Mul(f, Xor(x, r), e))) && f.Elem(Xor(c, Mul(f, x, e)))
    ensures Xor(Mul(f, c, r), Mul(f, x, Xor(c, Mul(f, Xor(x, r), e))))
         == Mul(f, Xor(x, r), Xor(c, Mul(f, x, e)))
  {
    hide Mul, Xor, NoEarlyOne, Pow2;
    var s := Xor(x, r);
    XorBound(x, r, f.m);
    var se, xe := Mul(f, s, e), Mul(f, x, e);
    XorBound(c, se, f.m);
    XorBound(c, xe, f.m);
    MulDistrib(f, c, se, x);
    MulDistrib(f, c, xe, s);
    MulDistrib(f, x, r, c);
    MulComm(f, c, r);
    var cr, cx, t := Mul(f, r, c), Mul(f, x, c), Mul(f, x, se);
    assert t == Mul(f, s, xe) by {
      MulAssoc(f, x, s, e);
      MulAssoc(f, s, x, e);
      MulComm(f, x, s);
    }
    XorAssoc(cr, cx, t);
    XorComm(cr, cx);
  }

  /** The product vanishes exactly at its listed roots. */
  lemma {:induction false} ProductRoots(f: Field, rs: seq<nat>, x: nat)
    requires Primitive(f) && IsPoly(f, rs) && f.Elem(x)
    ensures Eval(f, Product(f, rs), x) == 0 <==> x in rs
    decreases |rs|
  {
    hide Mul, Xor, MulLin, Eval, NoEarlyOne, Pow2;
    if rs == [] {
      EvalOne(f, x);
    } else {
      var n := |rs| - 1;
      var t, r := rs[..n], rs[n];
      assert rs == t + [r];
      ProductRoots(f, t, x);
      ProductSnoc(f, t, r);
      EvalMulLin(f, Product(f, t), r, x);
      NoZeroDivisors(f, Xor(x, r), Eval(f, Product(f, t), x));
      XorZeroIff(x, r);
    }
  }

  lemma XorZeroIff(a: nat, b: nat)
    ensures Xor(a, b) == 0 <==> a == b
  {
    hide Xor;
    XorSelf(b);
    XorCancel(a, b, b);
  }

  lemma EvalOne(f: Field, x: nat)
    requires Primitive(f) && f.Elem(x)
    ensures IsPoly(f, [1]) && Eval(f, [1], x) == 1
  {
    hide Mul, NoEarlyOne, Pow2;
    MulOne(f, x);
    EvalCons(f, 1, [], x);
    assert [1] + [] == [1];
    MulZero(f, x);
    XorZero(1);
  }

  // ----- the product does not depend on the order of its factors

  lemma AtMulLin(f: Field, p: seq<nat>, r: nat, j: int)
    requires Primitive(f) && IsPoly(f, p) && f.Elem(r)
    ensures At(MulLin(f, p, r), j) == LinCoef(f, p, r, j)
  {
    hide Mul, Xor, NoEarlyOne, Pow2;
    MulZero(f, r);
    XorZero(0);
  }

  lemma MulLinSwap(f: Field, p: seq<nat>, x: nat, y: nat)
    requires Primitive(f) && IsPoly(f, p) && f.Elem(x) && f.Elem(y)
    ensures MulLin(f, MulLin(f, p, x), y) == MulLin(f, MulLin(f, p, y), x)
  {
    hide Mul, Xor, LinCoef, NoEarlyOne, Pow2;
    var q, q' := MulLin(f, p, x), MulLin(f, p, y);
    forall j | 0 <= j <= |p| + 1 ensures LinCoef(f, q, y, j) == LinCoef(f, q', x, j) {
      LinCoefSwap(f, p, x, y, j);
    }
  }

  lemma LinCoefSwap(f: Field, p: seq<nat>, x: nat, y: nat, j: int)
    requires Primitive(f) && IsPoly(f, p) && f.Elem(x) && f.Elem(y)
    ensures LinCoef(f, MulLin(f, p, x), y, j) == LinCoef(f, MulLin(f, p, y), x, j)
  {
    hide Mul, Xor, MulLin, NoEarlyOne, Pow2;
    AtMulLin(f, p, x, j);
    AtMulLin(f, p, x, j - 1);
    AtMulLin(f, p, y, j);
    AtMulLin(f, p, y, j - 1);
    SwapAlgebra(f, At(p, j - 2), At(p, j - 1), At(p, j), x, y);
  }

  /** (a + b*x) + (b + c*x)*y is symmetric in x and y. */
  lemma SwapAlgebra(f: Field, a: nat, b: nat, c: nat, x: nat, y: nat)
    requires Primitive(f) && f.Elem(a) && f.Elem(b) && f.Elem(c) && f.Elem(x) && f.Elem(y)
    ensures f.Elem(Xor(b, Mul(f, c, x))) && f.Elem(Xor(b, Mul(f, c, y)))
    ensures Xor(Xor(a, Mul(f, b, x)), Mul(f, Xor(b, Mul(f, c, x)), y))
         == Xor(Xor(a, Mul(f, b, y)), Mul(f, Xor(b, Mul(f, c, y)), x))
  {
    hide Mul, Xor, NoEarlyOne, Pow2;
    var u, v, cu, cv := Mul(f, b, x), Mul(f, b, y), Mul(f, c, x), Mul(f, c, y);
    MulDistrib(f, b, cu, y);
    MulDistrib(f, b, cv, x);
    assert Mul(f, cu, y) == Mul(f, cv, x) by {
      MulAssoc(f, c, x, y);
      MulAssoc(f, c, y, x);
      MulComm(f, x, y);
    }
    XorSwap(a, u, v, Mul(f, cu, y));
    XorComm(u, v);
    XorSwap(a, v, u, Mul(f, cu, y));
  }

  /** A root may be pulled out of the middle of the list. */
  lemma {:induction false} ProductPull(f: Field, a: seq<nat>, r: nat, b: seq<nat>)
    requires Primitive(f) && IsPoly(f, a) && IsPoly(f, b) && f.Elem(r)
    ensures IsPoly(f, a + [r] + b) && IsPoly(f, a + b)
    ensures Product(f, a + [r] + b) == MulLin(f, Product(f, a + b), r)
    decreases |b|
  {
    hide MulLin, Product, NoEarlyOne, Pow2;
    if b == [] {
      assert a + [r] + b == a + [r] && a + b == a;
      ProductSnoc(f, a, r);
    } else {
      var n := |b| - 1;
      var t, x := b[..n], b[n];
      ProductPull(f, a, r, t);
      assert a + [r] + b == (a + [r] + t) + [x];
      assert a + b == (a + t) + [x];
      ProductSnoc(f, a + [r] + t, x);
      ProductSnoc(f, a + t, x);
      MulLinSwap(f, Product(f, a + t), r, x);
    }
  }

  /** The last element of `a` occurs in its permutation `b`; cut it out there. */
  lemma CutOut(a: seq<nat>, b: seq<nat>) returns (u: seq<nat>, v: seq<nat>)
    requires a != [] && multiset(a) == multiset(b)
    ensures b == u + [a[|a| - 1]] + v
    ensures multiset(a[..|a| - 1]) == multiset(u + v)
  {
    var n := |a| - 1;
    var r := a[n];
    assert a == a[..n] + [r];
    assert r in multiset(a);
    var k :| 0 <= k < |b| && b[k] == r;
    u, v := b[..k], b[k + 1..];
    assert b == u + [r] + v;
    assert multiset(b) == multiset(u + v) + multiset{r};
    assert multiset(a) == multiset(a[..n]) + multiset{r};
    assert multiset(a[..n]) == multiset(a) - multiset{r} == multiset(u + v);
  }

  lemma {:induction false} ProductPermutes(f: Field, a: seq<nat>, b: seq<nat>)
    requires Primitive(f) && IsPoly(f, a) && IsPoly(f, b)
    requires multiset(a) == multiset(b)
    ensures Product(f, a) == Product(f, b)
    decreases |a|
  {
    hide MulLin, Product, NoEarlyOne, Pow2;
    if a == [] {
      assert |multiset(b)| == 0;
    } else {
      var n := |a| - 1;
      var u, v := CutOut(a, b);
      PolyParts(f, u, a[n], v);
      ProductPermutes(f, a[..n], u + v);
      ProductPull(f, u, a[n], v);
      ProductSnoc(f, a[..n], a[n]);
      assert a == a[..n] + [a[n]];
    }
  }

  lemma PolyParts(f: Field, u: seq<nat>, r: nat, v: seq<nat>)
    requires IsPoly(f, u + [r] + v)
    ensures IsPoly(f, u) && f.Elem(r) && IsPoly(f, v) && IsPoly(f, u + v)
  {
    hide Pow2;
    var s := u + [r] + v;
    forall i | 0 <= i < |u| ensures f.Elem(u[i]) { assert u[i] == s[i]; }
    forall i | 0 <= i < |v| ensures f.Elem(v[i]) { assert v[i] == s[|u| + 1 + i]; }
    assert s[|u|] == r;
  }

  // ----- closed under squaring: the coefficients are bits

  lemma SquareLin(f: Field, p: seq<nat>, r: nat)
    requires Primitive(f) && IsPoly(f, p) && f.Elem(r)
    ensures Squares(f, MulLin(f, p, r)) == MulLin(f, Squares(f, p), Mul(f, r, r))
  {
    hide Mul, Xor, LinCoef, NoEarlyOne, Pow2;
    var q := MulLin(f, p, r);
    forall j | 0 <= j < |q| ensures Mul(f, q[j], q[j]) == LinCoef(f, Squares(f, p), Mul(f, r, r), j) {
      SquareCoef(f, p, r, j);
    }
  }

  lemma SquareCoef(f: Field, p: seq<nat>, r: nat, j: int)
    requires Primitive(f) && IsPoly(f, p) && f.Elem(r)
    ensures var c := LinCoef(f, p, r, j);
            Mul(f, c, c) == LinCoef(f, Squares(f, p), Mul(f, r, r), j)
  {
    hide Mul, Xor, NoEarlyOne, Pow2;
    var a, b := At(p, j - 1), At(p, j);
    MulZero(f, 0);
    assert At(Squares(f, p), j - 1) == Mul(f, a, a);
    assert At(Squares(f, p), j) == Mul(f, b, b);
    Frobenius(f, a, Mul(f, b, r));
    MulFour(f, b, r);
  }

  /** (b*r)^2 == b^2 * r^2. */
  lemma MulFour(f: Field, b: nat, r: nat)
    requires Primitive(f) && f.Elem(b) && f.Elem(r)
    ensures Mul(f, Mul(f, b, r), Mul(f, b, r)) == Mul(f, Mul(f, b, b), Mul(f, r, r))
  {
    hide Mul, NoEarlyOne, Pow2;
    var br := Mul(f, b, r);
    MulAssoc(f, b, r, br);
    MulComm(f, r, br);
    MulAssoc(f, b, r, r);
    MulAssoc(f, b, b, Mul(f, r, r));
  }

  lemma {:induction false} SquareProduct(f: Field, rs: seq<nat>)
    requires Primitive(f) && IsPoly(f, rs)
    ensures Squares(f, Product(f, rs)) == Product(f, Squares(f, rs))
    decreases |rs|
  {
    hide Mul, MulLin, NoEarlyOne, Pow2;
    if rs == [] {
      ProductEmpty(f);
      MulOne(f, 1);
      assert Squares(f, [1]) == [1];
    } else {
      var n := |rs| - 1;
      var t, r := rs[..n], rs[n];
      assert rs == t + [r];
      SquareProduct(f, t);
      ProductSnoc(f, t, r);
      SquareLin(f, Product(f, t), r);
      assert Squares(f, rs) == Squares(f, t) + [Mul(f, r, r)];
      ProductSnoc(f, Squares(f, t), Mul(f, r, r));
    }
  }

  /**
   If squaring only permutes the roots, every coefficient of the product equals
   its own square and is therefore 0 or 1.
   */
  lemma BinaryCoefficients(f: Field, rs: seq<nat>)
    requires Primitive(f) && IsPoly(f, rs)
    requires multiset(Squares(f, rs)) == multiset(rs)
    ensures forall j :: 0 <= j <= |rs| ==> Product(f, rs)[j] == 0 || Product(f, rs)[j] == 1
  {
    hide Mul, MulLin, Product, NoEarlyOne, Pow2;
    SquareProduct(f, rs);
    ProductPermutes(f, Squares(f, rs), rs);
    var p := Product(f, rs);
    forall j | 0 <= j <= |rs| ensures p[j] == 0 || p[j] == 1 {
      assert Squares(f, p)[j] == Mul(f, p[j], p[j]);
      IdempotentIsBit(f, p[j]);
    }
  }

  /** The leading coefficient of a product of monic factors is one. */
  lemma {:induction false} ProductMonic(f: Field, rs: seq<nat>)
    requires Primitive(f) && IsPoly(f, rs)
    ensures Product(f, rs)[|rs|] == 1
    decreases |rs|
  {
    hide Mul, Xor, Product, NoEarlyOne, Pow2;
    if rs == [] {
      ProductEmpty(f);
    } else {
      var n := |rs| - 1;
      ProductMonic(f, rs[..n]);
      assert rs == rs[..n] + [rs[n]];
      ProductSnoc(f, rs[..n], rs[n]);
      MulZero(f, rs[n]);
      XorZero(1);
    }
  }

  lemma ProductEmpty(f: Field)
    requires f.DegreeOk()
    ensures Product(f, []) == [1] && f.Elem(1)
  {
    Pow2Mono(1, f.m);
  }
}
