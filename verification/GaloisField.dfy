/**
 The field GF(2^m) as the C code represents it: an element is an unsigned value
 below 2^m, addition is exclusive-or, and `poly` is the reduction polynomial.

 `Mul` is carry-less multiplication reduced by `poly`, the reference that the
 log/antilog tables have to reproduce.
 */
module GaloisField {
  import opened BitVectors

  datatype Field = Field(m: nat, poly: nat) {

    function N(): nat {
      Pow2(m) - 1
    }

    /** The reduction polynomial has degree exactly `m`. */
    predicate DegreeOk() {
      m >= 1 && Pow2(m) <= poly < Pow2(m + 1)
    }

    predicate Elem(x: nat) {
      x < Pow2(m)
    }
  }

  /** Multiplication by X: shift left, subtract the polynomial on overflow. */
  function MulX(f: Field, x: nat): (r: nat)
    requires f.DegreeOk() && f.Elem(x)
    ensures f.Elem(r)
  {
    if 2 * x >= Pow2(f.m) then
      XorTop(2 * x, f.poly, f.m);
      Xor(2 * x, f.poly)
    else 2 * x
  }

  /** Multiplication by X^i. */
  function Iter(f: Field, i: nat, x: nat): (r: nat)
    requires f.DegreeOk() && f.Elem(x)
    ensures f.Elem(r)
  {
    if i == 0 then x else MulX(f, Iter(f, i - 1, x))
  }

  function Power(f: Field, i: nat): (r: nat)
    requires f.DegreeOk()
    ensures f.Elem(r)
  {
    Iter(f, i, 1)
  }

  /** What the table-building loop checks: 1 does not recur before X^n. */
  predicate NoEarlyOne(f: Field)
    requires f.DegreeOk()
  {
    forall i :: 0 < i < f.N() ==> Power(f, i) != 1
  }

  /** The polynomials for which the tables describe a field. */
  predicate Primitive(f: Field) {
    f.DegreeOk() && f.poly % 2 == 1 && NoEarlyOne(f)
  }

  /** Carry-less product of `a` and `b`, reduced by the polynomial. */
  function Mul(f: Field, a: nat, b: nat): (r: nat)
    requires f.DegreeOk() && f.Elem(b)
    ensures f.Elem(r)
    decreases a
  {
    if a == 0 then 0
    else
      var rest := MulX(f, Mul(f, a / 2, b));
      XorBound(b, rest, f.m);
      XorBound(0, rest, f.m);
      Xor(if a % 2 == 1 then b else 0, rest)
  }

  // ----- multiplication by X is linear and injective

  lemma {:induction false} XorTopIff(a: nat, b: nat, k: nat)
    requires a < Pow2(k + 1) && b < Pow2(k + 1)
    ensures Xor(a, b) >= Pow2(k) <==> (a >= Pow2(k)) != (b >= Pow2(k))
    decreases k
  {
    XorHalf(a, b);
    if k > 0 { XorTopIff(a / 2, b / 2, k - 1); }
  }

  lemma MulXLinear(f: Field, a: nat, b: nat)
    requires f.DegreeOk() && f.Elem(a) && f.Elem(b)
    ensures f.Elem(Xor(a, b)) && MulX(f, Xor(a, b)) == Xor(MulX(f, a), MulX(f, b))
  {
    hide Xor;
    XorBound(a, b, f.m);
    XorTopIff(a, b, f.m - 1);
    XorDouble(a, b);
    XorReduce(2 * a, 2 * b, f.poly);
    assert Pow2(f.m) == 2 * Pow2(f.m - 1);
    hide Pow2;
    if a >= Pow2(f.m - 1) {
      if b >= Pow2(f.m - 1) {} else {}
    } else {
      if b >= Pow2(f.m - 1) {} else {}
    }
  }

  lemma XorReduce(a: nat, b: nat, p: nat)
    ensures Xor(Xor(a, p), Xor(b, p)) == Xor(a, b)
    ensures Xor(a, Xor(b, p)) == Xor(Xor(a, b), p) == Xor(Xor(a, p), b)
  {
    hide Xor;
    XorSwap(a, p, b, p);
    XorSelf(p);
    XorZero(Xor(a, b));
    XorAssoc(a, b, p);
    XorAssoc(a, p, b);
    XorComm(b, p);
  }

  lemma MulXZero(f: Field)
    requires f.DegreeOk()
    ensures MulX(f, 0) == 0
  {}

  lemma MulXInjective(f: Field, a: nat, b: nat)
    requires f.DegreeOk() && f.poly % 2 == 1 && f.Elem(a) && f.Elem(b)
    requires MulX(f, a) == MulX(f, b)
    ensures a == b
  {
    hide Xor;
    XorHalf(2 * a, f.poly);
    XorHalf(2 * b, f.poly);
    XorCancel(2 * a, 2 * b, f.poly);
  }

  lemma {:induction false} IterAdd(f: Field, i: nat, j: nat, x: nat)
    requires f.DegreeOk() && f.Elem(x)
    ensures Iter(f, i + j, x) == Iter(f, i, Iter(f, j, x))
  {
    hide MulX;
    if i > 0 { IterAdd(f, i - 1, j, x); }
  }

  lemma {:induction false} IterInjective(f: Field, i: nat, a: nat, b: nat)
    requires f.DegreeOk() && f.poly % 2 == 1 && f.Elem(a) && f.Elem(b)
    requires Iter(f, i, a) == Iter(f, i, b)
    ensures a == b
  {
    hide MulX;
    if i > 0 {
      MulXInjective(f, Iter(f, i - 1, a), Iter(f, i - 1, b));
      IterInjective(f, i - 1, a, b);
    }
  }

  lemma {:induction false} IterZero(f: Field, i: nat)
    requires f.DegreeOk()
    ensures Iter(f, i, 0) == 0
  {
    if i > 0 { IterZero(f, i - 1); }
  }

  lemma {:induction false} IterLinear(f: Field, i: nat, a: nat, b: nat)
    requires f.DegreeOk() && f.Elem(a) && f.Elem(b)
    ensures f.Elem(Xor(a, b)) && Iter(f, i, Xor(a, b)) == Xor(Iter(f, i, a), Iter(f, i, b))
  {
    hide MulX, Xor;
    XorBound(a, b, f.m);
    if i > 0 {
      IterLinear(f, i - 1, a, b);
      MulXLinear(f, Iter(f, i - 1, a), Iter(f, i - 1, b));
    }
  }

  // ----- the powers of X enumerate the nonzero elements

  lemma PowerNonzero(f: Field, i: nat)
    requires Primitive(f)
    ensures Power(f, i) != 0
  {
    hide NoEarlyOne;
    if Power(f, i) == 0 {
      IterZero(f, i);
      IterInjective(f, i, 0, 1);
    }
  }

  lemma PowerDistinct(f: Field, i: nat, j: nat)
    requires Primitive(f) && i < j < f.N()
    ensures Power(f, i) != Power(f, j)
  {
    if Power(f, i) == Power(f, j) {
      IterAdd(f, i, j - i, 1);
      IterInjective(f, i, 1, Power(f, j - i));
      assert false;
    }
  }

  ghost function Elements(s: seq<nat>): (r: set<nat>)
    ensures forall x :: x in r <==> x in s
  {
    if s == [] then {} else Elements(s[..|s| - 1]) + {s[|s| - 1]}
  }

  ghost function Range(n: nat): (r: set<nat>)
    ensures forall x :: x in r <==> 1 <= x <= n
    ensures |r| == n
  {
    if n == 0 then {} else Range(n - 1) + {n}
  }

  lemma {:induction false} DistinctCount(s: seq<nat>)
    requires forall i, j :: 0 <= i < j < |s| ==> s[i] != s[j]
    ensures |Elements(s)| == |s|
  {
    if s != [] { DistinctCount(s[..|s| - 1]); }
  }

  lemma {:induction false} SubsetCount<T>(a: set<T>, b: set<T>)
    requires a <= b
    ensures |a| <= |b|
  {
    if a != {} {
      var x :| x in a;
      SubsetCount(a - {x}, b - {x});
    }
  }

  /** An injection of n values into 1..n is onto. */
  lemma Pigeonhole(s: seq<nat>, v: nat)
    requires forall i :: 0 <= i < |s| ==> 1 <= s[i] <= |s|
    requires forall i, j :: 0 <= i < j < |s| ==> s[i] != s[j]
    requires 1 <= v <= |s|
    ensures v in s
  {
    hide Elements, Range;
    DistinctCount(s);
    if v !in s {
      SubsetCount(Elements(s), Range(|s|) - {v});
    }
  }

  lemma PowerOnto(f: Field, x: nat)
    requires Primitive(f) && f.Elem(x) && x != 0
    ensures exists i: nat :: i < f.N() && Power(f, i) == x
  {
    hide Power, NoEarlyOne;
    var s := seq(f.N(), (i: nat) requires f.DegreeOk() => Power(f, i));
    forall i | 0 <= i < |s| ensures 1 <= s[i] <= |s| { PowerNonzero(f, i); }
    forall i, j | 0 <= i < j < |s| ensures s[i] != s[j] { PowerDistinct(f, i, j); }
    Pigeonhole(s, x);
    var i :| 0 <= i < |s| && s[i] == x;
    assert i < f.N() && Power(f, i) == x;
  }

  /** X^n is one, so exponents count modulo n. */
  lemma PowerPeriod(f: Field, i: nat)
    requires Primitive(f)
    ensures Power(f, f.N()) == 1 && Power(f, i + f.N()) == Power(f, i)
  {
    var n := f.N();
    PowerNonzero(f, n);
    PowerOnto(f, Power(f, n));
    var k: nat :| k < n && Power(f, k) == Power(f, n);
    IterAdd(f, k, n - k, 1);
    IterInjective(f, k, 1, Power(f, n - k));
    assert n - k == n;
    IterAdd(f, i, n, 1);
  }

  /** The discrete logarithm of a nonzero element. */
  ghost function Log(f: Field, x: nat): (i: nat)
    requires Primitive(f) && f.Elem(x) && x != 0
    ensures i < f.N() && Power(f, i) == x
  {
    PowerOnto(f, x);
    var i: nat :| i < f.N() && Power(f, i) == x;
    i
  }

  // ----- field laws

  lemma {:induction false} MulByX(f: Field, a: nat, b: nat)
    requires f.DegreeOk() && f.Elem(b)
    ensures Mul(f, a, MulX(f, b)) == MulX(f, Mul(f, a, b))
    decreases a
  {
    hide MulX, Xor;
    if a == 0 {
      MulXZero(f);
    } else {
      MulByX(f, a / 2, b);
      var r := MulX(f, Mul(f, a / 2, b));
      MulXLinear(f, b, r);
      XorZero(r);
      XorZero(MulX(f, r));
    }
  }

  lemma {:induction false} MulOne(f: Field, a: nat)
    requires f.DegreeOk() && f.Elem(a)
    ensures f.Elem(1) && Mul(f, a, 1) == a
    decreases a
  {
    hide Xor;
    Pow2Mono(1, f.m);
    if a > 0 {
      MulOne(f, a / 2);
      XorCons(0, a % 2, a / 2, 0);
      XorZero(a / 2);
    }
  }

  lemma {:induction false} MulPower(f: Field, a: nat, j: nat)
    requires f.DegreeOk() && f.Elem(a)
    ensures Mul(f, a, Power(f, j)) == Iter(f, j, a)
    decreases j
  {
    hide Mul, MulX;
    if j == 0 {
      MulOne(f, a);
    } else {
      MulPower(f, a, j - 1);
      MulByX(f, a, Power(f, j - 1));
    }
  }

  /** Multiplying powers adds exponents. */
  lemma PowerMul(f: Field, i: nat, j: nat)
    requires f.DegreeOk()
    ensures Mul(f, Power(f, i), Power(f, j)) == Power(f, i + j)
  {
    hide Mul, MulX;
    MulPower(f, Power(f, i), j);
    IterAdd(f, j, i, 1);
  }

  lemma {:induction false} MulZero(f: Field, a: nat)
    requires f.DegreeOk() && f.Elem(a)
    ensures Mul(f, a, 0) == 0 && Mul(f, 0, a) == 0
    decreases a
  {
    if a > 0 {
      MulZero(f, a / 2);
      MulXZero(f);
    }
  }

  lemma MulComm(f: Field, a: nat, b: nat)
    requires Primitive(f) && f.Elem(a) && f.Elem(b)
    ensures Mul(f, a, b) == Mul(f, b, a)
  {
    hide Mul, Power, Log, NoEarlyOne, Pow2;
    MulZero(f, a);
    MulZero(f, b);
    if a != 0 && b != 0 {
      PowerMul(f, Log(f, a), Log(f, b));
      PowerMul(f, Log(f, b), Log(f, a));
    }
  }

  lemma MulAssoc(f: Field, a: nat, b: nat, c: nat)
    requires Primitive(f) && f.Elem(a) && f.Elem(b) && f.Elem(c)
    ensures Mul(f, Mul(f, a, b), c) == Mul(f, a, Mul(f, b, c))
  {
    hide Mul, Power, Log, NoEarlyOne, Pow2;
    if a == 0 || b == 0 || c == 0 {
      MulZero(f, a);
      MulZero(f, b);
      MulZero(f, c);
      MulZero(f, Mul(f, a, b));
      MulZero(f, Mul(f, b, c));
    } else {
      PowerAssoc(f, Log(f, a), Log(f, b), Log(f, c));
    }
  }

  lemma PowerAssoc(f: Field, i: nat, j: nat, k: nat)
    requires f.DegreeOk()
    ensures Mul(f, Mul(f, Power(f, i), Power(f, j)), Power(f, k))
         == Mul(f, Power(f, i), Mul(f, Power(f, j), Power(f, k)))
  {
    hide Mul, Power, Pow2;
    PowerMul(f, i, j);
    PowerMul(f, i + j, k);
    PowerMul(f, j, k);
    PowerMul(f, i, j + k);
  }

  /** (a + b) * c == a * c + b * c, and the same on the other side. */
  lemma MulDistrib(f: Field, a: nat, b: nat, c: nat)
    requires Primitive(f) && f.Elem(a) && f.Elem(b) && f.Elem(c)
    ensures f.Elem(Xor(a, b))
    ensures Mul(f, Xor(a, b), c) == Xor(Mul(f, a, c), Mul(f, b, c))
    ensures Mul(f, c, Xor(a, b)) == Xor(Mul(f, c, a), Mul(f, c, b))
  {
    hide Mul, Xor, Iter, Log, NoEarlyOne;
    XorBound(a, b, f.m);
    if c == 0 {
      MulZero(f, a);
      MulZero(f, b);
      MulZero(f, Xor(a, b));
      XorZero(0);
    } else {
      var k := Log(f, c);
      MulPower(f, a, k);
      MulPower(f, b, k);
      MulPower(f, Xor(a, b), k);
      IterLinear(f, k, a, b);
    }
    MulComm(f, a, c);
    MulComm(f, b, c);
    MulComm(f, Xor(a, b), c);
  }

  lemma NoZeroDivisors(f: Field, a: nat, b: nat)
    requires Primitive(f) && f.Elem(a) && f.Elem(b)
    ensures Mul(f, a, b) == 0 <==> a == 0 || b == 0
  {
    hide Mul, Power, Log, NoEarlyOne, Pow2;
    MulZero(f, a);
    MulZero(f, b);
    if a != 0 && b != 0 {
      PowerMul(f, Log(f, a), Log(f, b));
      PowerNonzero(f, Log(f, a) + Log(f, b));
    }
  }

  /** Squaring is additive in characteristic two. */
  lemma Frobenius(f: Field, a: nat, b: nat)
    requires Primitive(f) && f.Elem(a) && f.Elem(b)
    ensures f.Elem(Xor(a, b))
    ensures Mul(f, Xor(a, b), Xor(a, b)) == Xor(Mul(f, a, a), Mul(f, b, b))
  {
    hide Mul, Xor, NoEarlyOne;
    var c := Xor(a, b);
    XorBound(a, b, f.m);
    MulDistrib(f, a, b, c);
    MulDistrib(f, a, b, a);
    MulDistrib(f, a, b, b);
    MulComm(f, a, b);
    var x, y, z := Mul(f, a, a), Mul(f, a, b), Mul(f, b, b);
    assert Mul(f, c, c) == Xor(Xor(x, y), Xor(y, z));
    XorAssoc(x, y, Xor(y, z));
    XorAssoc(y, y, z);
    XorSelf(y);
    XorZero(z);
  }

  /** The elements equal to their own square are 0 and 1. */
  lemma IdempotentIsBit(f: Field, c: nat)
    requires Primitive(f) && f.Elem(c) && Mul(f, c, c) == c
    ensures c == 0 || c == 1
  {
    hide Mul, Log, NoEarlyOne;
    if c != 0 {
      var k := Log(f, c);
      MulPower(f, c, k);
      IterAdd(f, k, k, 1);
      IterInjective(f, k, c, 1);
    }
  }

  // ----- reduction polynomials with an even constant term

  lemma {:induction false} EvenPower(f: Field, i: nat)
    requires f.DegreeOk() && f.poly % 2 == 0 && i > 0
    ensures Power(f, i) % 2 == 0
  {
    EvenMulX(f, Iter(f, i - 1, 1));
    hide MulX;
  }

  lemma EvenMulX(f: Field, x: nat)
    requires f.DegreeOk() && f.poly % 2 == 0 && f.Elem(x)
    ensures MulX(f, x) % 2 == 0
  {
    hide Xor;
    XorHalf(2 * x, f.poly);
    assert (2 * x + f.poly) % 2 == 0;
  }

  /** The check of the table loop never rejects them. */
  lemma EvenPolynomialPasses(f: Field)
    requires f.DegreeOk() && f.poly % 2 == 0
    ensures NoEarlyOne(f)
  {
    hide Power;
    forall i | 0 < i < f.N() ensures Power(f, i) != 1 { EvenPower(f, i); }
  }

  ghost predicate Listed(f: Field, x: nat)
    requires f.DegreeOk()
  {
    exists i: nat :: i < f.N() && Power(f, i) == x
  }

  /** The antilog table lists every nonzero element. */
  ghost predicate Onto(f: Field)
    requires f.DegreeOk()
  {
    forall x: nat :: f.Elem(x) && x != 0 ==> Listed(f, x)
  }

  /** Among the polynomials that pass, exactly the odd ones give a full table. */
  lemma OntoIffOdd(f: Field)
    requires f.DegreeOk() && NoEarlyOne(f) && f.m >= 2
    ensures Onto(f) <==> f.poly % 2 == 1
  {
    hide Power, NoEarlyOne;
    Pow2Mono(2, f.m);
    if f.poly % 2 == 1 {
      forall x: nat | f.Elem(x) && x != 0 ensures Listed(f, x) { PowerOnto(f, x); }
    } else {
      forall i: nat | i < f.N() ensures Power(f, i) != 3 {
        if i > 0 { EvenPower(f, i); } else { PowerStart(f); }
      }
      assert !Listed(f, 3);
    }
  }

  lemma PowerStart(f: Field)
    requires f.DegreeOk()
    ensures Power(f, 0) == 1
  {}
}
