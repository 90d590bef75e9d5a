/**
 The exponents whose powers are roots of the generator: the cyclotomic cosets of
 1, 3, 5, ... under doubling modulo n = 2^m - 1.
 */
module Cosets {
  import opened BitVectors
  import opened GaloisField
  import opened RootPoly

  /** `mod_s`: reduction of a value below 2n. */
  function ModS(n: nat, v: nat): nat {
    if v < n then v else v - n
  }

  /** `r` doubled `j` times modulo n. */
  function Coset(n: nat, r: nat, j: nat): (c: nat)
    requires r < n
    ensures c < n
  {
    if j == 0 then r else ModS(n, 2 * Coset(n, r, j - 1))
  }

  /** Exponent `k` is reached from the odd number 2i+1 in j doublings. */
  predicate Reaches(n: nat, i: nat, j: nat, k: nat) {
    2 * i + 1 < n && Coset(n, 2 * i + 1, j) == k
  }

  /** Exponent `k` is marked: it lies in the coset of 2i+1 for some i < t. */
  ghost predicate Marked(n: nat, m: nat, t: nat, k: nat) {
    exists i: nat, j: nat :: i < t && j < m && Reaches(n, i, j, k)
  }

  /** The marked exponents below `k`, increasing. */
  ghost function MarkedList(n: nat, m: nat, t: nat, k: nat): (r: seq<nat>)
    ensures forall e: nat :: e in r <==> e < k && Marked(n, m, t, e)
    ensures forall i :: 0 <= i < |r| ==> r[i] < k
    ensures forall i, j :: 0 <= i < j < |r| ==> r[i] < r[j]
  {
    if k == 0 then []
    else if Marked(n, m, t, k - 1) then MarkedList(n, m, t, k - 1) + [k - 1]
    else MarkedList(n, m, t, k - 1)
  }

  // ----- doubling

  lemma MulDouble(n: nat, p: nat)
    ensures n * (2 * p) == 2 * (n * p) && n * (2 * p + 1) == 2 * (n * p) + n
  {}

  lemma MulAdd(n: nat, p: nat, q: nat)
    ensures n * (p + q) == n * p + n * q
    ensures q > 0 ==> n * q >= n
  {}

  lemma {:induction false} CosetShl(n: nat, r: nat, j: nat) returns (q: nat)
    requires r < n
    ensures Shl(r, j) == Coset(n, r, j) + n * q
  {
    if j == 0 {
      q := 0;
    } else {
      var p := CosetShl(n, r, j - 1);
      q := 2 * p + (if 2 * Coset(n, r, j - 1) < n then 0 else 1);
      MulDouble(n, p);
    }
  }

  lemma {:induction false} ShlMul(r: nat, j: nat)
    ensures Shl(r, j) == r * Pow2(j)
  {
    if j > 0 {
      ShlMul(r, j - 1);
      MulDouble(r, Pow2(j - 1));
    }
  }

  lemma UniqueRemainder(n: nat, a: nat, p: nat, b: nat, q: nat)
    requires a < n && b < n && a + n * p == b + n * q
    ensures a == b
  {
    if p > q {
      MulAdd(n, q, p - q);
    } else if p < q {
      MulAdd(n, p, q - p);
    }
  }

  /** m doublings return to the start, because 2^m == n + 1. */
  lemma CosetCycle(n: nat, m: nat, r: nat)
    requires r < n && n + 1 == Pow2(m)
    ensures Coset(n, r, m) == r
  {
    hide Coset, Shl, Pow2;
    var q := CosetShl(n, r, m);
    ShlMul(r, m);
    assert r * (n + 1) == r + n * r;
    UniqueRemainder(n, Coset(n, r, m), q, r, r);
  }

  /** Marked exponents are closed under doubling. */
  lemma MarkedDouble(n: nat, m: nat, t: nat, k: nat)
    requires n + 1 == Pow2(m) && Marked(n, m, t, k)
    ensures k < n && Marked(n, m, t, ModS(n, 2 * k))
  {
    hide Pow2;
    var i: nat, j: nat :| i < t && j < m && Reaches(n, i, j, k);
    if j + 1 < m {
      assert Reaches(n, i, j + 1, ModS(n, 2 * k));
    } else {
      CosetCycle(n, m, 2 * i + 1);
      assert Reaches(n, i, 0, ModS(n, 2 * k));
    }
  }

  /** The first 2t exponents are all marked: even ones are doubles of marked ones. */
  lemma {:induction false} MarkedConsecutive(n: nat, m: nat, t: nat, s: nat)
    requires n + 1 == Pow2(m) && 1 <= s <= 2 * t < n && m >= 1
    ensures Marked(n, m, t, s)
  {
    hide Pow2;
    if s % 2 == 1 {
      assert Reaches(n, s / 2, 0, s);
    } else {
      MarkedConsecutive(n, m, t, s / 2);
      MarkedDouble(n, m, t, s / 2);
    }
  }

  /** There are at most m*t marked exponents. */
  lemma MarkedCount(n: nat, m: nat, t: nat)
    ensures |MarkedList(n, m, t, n)| <= m * t
  {
    var s := MarkedList(n, m, t, n);
    var a := Reachable(n, m, t);
    DistinctCount(s);
    ReachableCount(n, m, t);
    SubsetCount(Elements(s), a);
  }

  ghost function ReachableFrom(n: nat, m: nat, i: nat): (r: set<nat>)
    ensures forall j: nat, k: nat :: j < m && Reaches(n, i, j, k) ==> k in r
    ensures |r| <= m
  {
    if m == 0 then {}
    else if 2 * i + 1 < n then ReachableFrom(n, m - 1, i) + {Coset(n, 2 * i + 1, m - 1)}
    else ReachableFrom(n, m - 1, i)
  }

  ghost function Reachable(n: nat, m: nat, t: nat): (r: set<nat>)
    ensures forall k :: Marked(n, m, t, k) ==> k in r
  {
    if t == 0 then {} else Reachable(n, m, t - 1) + ReachableFrom(n, m, t - 1)
  }

  lemma {:induction false} ReachableCount(n: nat, m: nat, t: nat)
    ensures |Reachable(n, m, t)| <= m * t
    decreases t
  {
    if t > 0 {
      ReachableCount(n, m, t - 1);
      UnionCount(Reachable(n, m, t - 1), ReachableFrom(n, m, t - 1));
      assert m * (t - 1) + m == m * t;
    }
  }

  lemma UnionCount<T>(a: set<T>, b: set<T>)
    ensures |a + b| <= |a| + |b|
  {
    assert a + b == a + (b - a);
    SubsetCount(b - a, b);
  }

  // ----- the roots themselves

  ghost function Powers(f: Field, es: seq<nat>): (rs: seq<nat>)
    requires f.DegreeOk()
    ensures IsPoly(f, rs) && |rs| == |es|
    ensures forall i :: 0 <= i < |es| ==> rs[i] == Power(f, es[i])
  {
    seq(|es|, i requires 0 <= i < |es| && f.DegreeOk() => Power(f, es[i]))
  }

  ghost function Roots(f: Field, t: nat): (rs: seq<nat>)
    requires f.DegreeOk()
    ensures IsPoly(f, rs)
  {
    Powers(f, MarkedList(f.N(), f.m, t, f.N()))
  }

  lemma PowerSquare(f: Field, k: nat)
    requires Primitive(f) && k < f.N()
    ensures Mul(f, Power(f, k), Power(f, k)) == Power(f, ModS(f.N(), 2 * k))
  {
    hide Mul, Power, NoEarlyOne, Pow2;
    PowerMul(f, k, k);
    if 2 * k >= f.N() { PowerPeriod(f, 2 * k - f.N()); }
  }

  lemma PowersDistinct(f: Field, es: seq<nat>)
    requires Primitive(f)
    requires forall i :: 0 <= i < |es| ==> es[i] < f.N()
    requires forall i, j :: 0 <= i < j < |es| ==> es[i] != es[j]
    ensures forall i, j :: 0 <= i < j < |es| ==> Powers(f, es)[i] != Powers(f, es)[j]
  {
    hide Power, NoEarlyOne, Pow2;
    forall i, j | 0 <= i < j < |es| ensures Powers(f, es)[i] != Powers(f, es)[j] {
      if es[i] < es[j] { PowerDistinct(f, es[i], es[j]); } else { PowerDistinct(f, es[j], es[i]); }
    }
  }

  lemma {:induction false} DistinctMultiset(s: seq<nat>, x: nat)
    requires forall i, j :: 0 <= i < j < |s| ==> s[i] != s[j]
    ensures multiset(s)[x] == if x in s then 1 else 0
  {
    if s != [] {
      var n := |s| - 1;
      DistinctMultiset(s[..n], x);
      assert s == s[..n] + [s[n]];
    }
  }

  /** Two lists without repetition, one inside the other and equally long. */
  lemma SameMultiset(a: seq<nat>, b: seq<nat>)
    requires forall i, j :: 0 <= i < j < |a| ==> a[i] != a[j]
    requires forall i, j :: 0 <= i < j < |b| ==> b[i] != b[j]
    requires |a| == |b| && forall x :: x in a ==> x in b
    ensures multiset(a) == multiset(b)
  {
    hide Elements;
    DistinctCount(a);
    DistinctCount(b);
    forall x ensures multiset(a)[x] == multiset(b)[x] {
      DistinctMultiset(a, x);
      DistinctMultiset(b, x);
      if x in b && x !in a { SubsetCount(Elements(a), Elements(b) - {x}); }
    }
  }

  /** Squaring permutes the roots. */
  lemma RootsClosed(f: Field, t: nat)
    requires Primitive(f)
    ensures multiset(Squares(f, Roots(f, t))) == multiset(Roots(f, t))
  {
    hide Mul, Power, MarkedList, Marked, Squares, NoEarlyOne, Pow2;
    var n := f.N();
    var es := MarkedList(n, f.m, t, n);
    var ds := Doubles(n, es);
    forall i | 0 <= i < |es| ensures ds[i] in es {
      assert es[i] in es;
      MarkedDouble(n, f.m, t, es[i]);
    }
    OddModulus(f);
    DoublesDistinct(n, es, ds);
    PowersDistinct(f, es);
    PowersDistinct(f, ds);
    SquaresOfPowers(f, es);
    PowersInside(f, ds, es);
    SameMultiset(Powers(f, ds), Powers(f, es));
  }

  ghost function Doubles(n: nat, es: seq<nat>): (ds: seq<nat>)
    ensures |ds| == |es| && forall i :: 0 <= i < |es| ==> ds[i] == ModS(n, 2 * es[i])
  {
    seq(|es|, i requires 0 <= i < |es| => ModS(n, 2 * es[i]))
  }

  lemma SquaresOfPowers(f: Field, es: seq<nat>)
    requires Primitive(f) && forall i :: 0 <= i < |es| ==> es[i] < f.N()
    ensures Squares(f, Powers(f, es)) == Powers(f, Doubles(f.N(), es))
  {
    hide Mul, Power, NoEarlyOne, Pow2;
    var n := f.N();
    forall i | 0 <= i < |es| ensures Mul(f, Power(f, es[i]), Power(f, es[i])) == Power(f, ModS(n, 2 * es[i])) {
      PowerSquare(f, es[i]);
    }
  }

  lemma PowersInside(f: Field, ds: seq<nat>, es: seq<nat>)
    requires f.DegreeOk() && forall i :: 0 <= i < |ds| ==> ds[i] in es
    ensures forall x :: x in Powers(f, ds) ==> x in Powers(f, es)
  {
    hide Power, Pow2;
    var a, b := Powers(f, ds), Powers(f, es);
    forall x | x in a ensures x in b {
      var i :| 0 <= i < |a| && a[i] == x;
      var j :| 0 <= j < |es| && es[j] == ds[i];
      assert b[j] == x;
    }
  }

  lemma OddModulus(f: Field)
    requires f.DegreeOk()
    ensures f.N() % 2 == 1
  {}

  lemma DoublesDistinct(n: nat, es: seq<nat>, ds: seq<nat>)
    requires n % 2 == 1 && |ds| == |es|
    requires forall i :: 0 <= i < |es| ==> es[i] < n && ds[i] == ModS(n, 2 * es[i])
    requires forall i, j :: 0 <= i < j < |es| ==> es[i] < es[j]
    ensures forall i, j :: 0 <= i < j < |ds| ==> ds[i] != ds[j]
  {}

  /**
   The generator of the code: its coefficients are bits, it is monic, and it
   vanishes at the first 2t powers of the primitive element.
   */
  lemma GeneratorPolynomial(f: Field, t: nat)
    requires Primitive(f)
    ensures var g := Product(f, Roots(f, t));
            && (forall j :: 0 <= j < |g| ==> g[j] == 0 || g[j] == 1)
            && |g| <= f.m * t + 1
            && g[|g| - 1] == 1
            && forall s :: 1 <= s <= 2 * t < f.N() ==> Eval(f, g, Power(f, s)) == 0
  {
    hide Mul, Power, Product, Eval, MarkedList, Marked, Squares, NoEarlyOne, Pow2;
    RootsClosed(f, t);
    BinaryCoefficients(f, Roots(f, t));
    ProductMonic(f, Roots(f, t));
    var n := f.N();
    MarkedCount(n, f.m, t);
    var es := MarkedList(n, f.m, t, n);
    forall s | 1 <= s <= 2 * t < n ensures Eval(f, Product(f, Roots(f, t)), Power(f, s)) == 0 {
      MarkedConsecutive(n, f.m, t, s);
      assert s in es;
      var j :| 0 <= j < |es| && es[j] == s;
      assert Roots(f, t)[j] == Power(f, s);
      ProductRoots(f, Roots(f, t), Power(f, s));
    }
  }
}
