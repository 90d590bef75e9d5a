/**
 The BCH control structure: field tables, generator polynomial and remainder
 tables, filled in place at initialisation.
 */
module BchControl {
  import opened BitVectors
  import opened Words
  import opened Gf2Poly
  import opened GaloisField
  import opened RootPoly
  import opened Cosets
  import opened Codeword
  import opened TableSteps
  import opened Reduction

  function DivRoundUp(n: nat, d: nat): nat
    requires d > 0
  {
    (n + d - 1) / d
  }

  function EccWords(m: nat, t: nat): nat {
    DivRoundUp(m * t, 32)
  }

  function EccBytes(m: nat, t: nat): nat {
    DivRoundUp(m * t, 8)
  }

  lemma EccSizes(m: nat, t: nat)
    ensures EccWords(m, t) >= 1 ==> 4 * (EccWords(m, t) - 1) < EccBytes(m, t) <= 4 * EccWords(m, t)
    ensures m * t <= 8 * EccBytes(m, t) && m * t <= 32 * EccWords(m, t)
    ensures EccBytes(m, t) <= 4 * EccWords(m, t)
  {
    RoundingUp(m * t);
  }

  lemma RoundingUp(b: nat)
    ensures b <= 32 * DivRoundUp(b, 32) < b + 32 && b <= 8 * DivRoundUp(b, 8) < b + 8
  {}

  // ----- find last set bit

  lemma {:induction false} ShlLess(x: nat, k: nat, e: nat)
    ensures Shl(x, k) < Pow2(k + e) <==> x < Pow2(e)
    decreases k
  {
    if k > 0 { ShlLess(x, k - 1, e); }
  }

  lemma {:induction false} ShlMono(x: nat, k: nat, e: nat)
    requires x >= Pow2(e)
    ensures Shl(x, k) >= Pow2(k + e)
    decreases k
  {
    if k > 0 { ShlMono(x, k - 1, e); }
  }

  /** One halving of the search: move the value up if its top `e` bits are clear. */
  method FlsStep(ghost x0: u32, x: nat, r: nat, e: nat) returns (x': nat, r': nat)
    requires 1 <= e <= 16 && 2 * e <= r <= 32
    requires x == Shl(x0, 32 - r) && x0 < Pow2(r) && x >= Pow2(32 - 2 * e)
    ensures e <= r' <= r && x' == Shl(x0, 32 - r') && x0 < Pow2(r') && x' >= Pow2(32 - e)
  {
    hide Shl, Pow2;
    x', r' := x, r;
    if x < Pow2(32 - e) {
      ShlLess(x0, 32 - r, r - e);
      assert 32 - r + (r - e) == 32 - e;
      ShlShl(x0, 32 - r, e);
      ShlMono(x, e, 32 - 2 * e);
      x', r' := Shl(x, e), r - e;
    }
  }

  /** `fls`: one more than the index of the highest set bit, 0 for 0. */
  method Fls(x0: u32) returns (r: nat)
    ensures r == if x0 == 0 then 0 else Deg(x0) + 1
  {
    hide Deg, Shl, Pow2;
    if x0 == 0 { return 0; }
    Pow2Values();
    FlsStart(x0);
    var x: nat := x0;
    r := 32;
    x, r := FlsStep(x0, x, r, 16);
    x, r := FlsStep(x0, x, r, 8);
    x, r := FlsStep(x0, x, r, 4);
    x, r := FlsStep(x0, x, r, 2);
    x, r := FlsStep(x0, x, r, 1);
    FlsEnd(x0, x, r);
  }

  lemma FlsEnd(x0: u32, x: nat, r: nat)
    requires x0 > 0 && 1 <= r <= 32 && x == Shl(x0, 32 - r) && x0 < Pow2(r) && x >= Pow2(31)
    ensures r == Deg(x0) + 1
  {
    hide Deg, Shl, Pow2;
    ShlLess(x0, 32 - r, r - 1);
    assert 32 - r + (r - 1) == 31;
    DegUnique(x0, r - 1);
  }

  lemma FlsStart(x: u32)
    requires x > 0
    ensures Shl(x, 0) == x >= Pow2(0)
  {}

  // ----- remainder modulo 2^m - 1

  lemma {:induction false} LowShr(v: nat, k: nat)
    ensures v == Low(k, v) + Pow2(k) * Shr(v, k)
    decreases k
  {
    if k > 0 {
      LowShr(v / 2, k - 1);
      Unfolded(v, k);
      hide Low, Pow2, Shr;
      Doubled(Pow2(k - 1), Shr(v / 2, k - 1));
    }
  }

  lemma Doubled(p: nat, h: nat)
    ensures 2 * p * h == 2 * (p * h)
  {}

  lemma Unfolded(v: nat, k: nat)
    requires k > 0
    ensures Low(k, v) == 2 * Low(k - 1, v / 2) + v % 2 && Pow2(k) == 2 * Pow2(k - 1) && Shr(v, k) == Shr(v / 2, k - 1)
  {}

  lemma ModFold(n: nat, v: nat, lo: nat, hi: nat)
    requires n > 0 && v == lo + (n + 1) * hi
    ensures v % n == (lo + hi) % n
  {
    assert v == (lo + hi) + n * hi;
    ModAddMultiple(n, lo + hi, hi);
  }

  lemma ModAddMultiple(n: nat, a: nat, q: nat)
    requires n > 0
    ensures (a + n * q) % n == a % n
  {
    var x := a + n * q;
    MulAdd(n, a / n, q);
    UniqueRemainder(n, x % n, x / n, a % n, a / n + q);
  }

  lemma FoldShrinks(n: nat, lo: nat, hi: nat)
    ensures lo + hi <= lo + (n + 1) * hi
  {
    assert (n + 1) * hi == n * hi + hi;
  }

  /** `modulo`: fold the high part onto the low part until the value is below n. */
  method Modulo(m: nat, v0: nat) returns (v: nat)
    requires m >= 1
    ensures v == v0 % (Pow2(m) - 1)
  {
    hide Pow2, Low, Shr;
    var n := Pow2(m) - 1;
    PositiveOrder(m);
    v := v0;
    while v >= n
      invariant v % n == v0 % n
      decreases v
    {
      var w := v - n;
      ModAddMultiple(n, w, 1);
      LowShr(w, m);
      ModFold(n, w, Low(m, w), Shr(w, m));
      FoldShrinks(n, Low(m, w), Shr(w, m));
      v := Low(m, w) + Shr(w, m);
    }
    ModSmall(n, v);
  }

  lemma PositiveOrder(m: nat)
    requires m >= 1
    ensures Pow2(m) - 1 >= 1
  {}

  lemma ModSmall(n: nat, v: nat)
    requires v < n
    ensures v % n == v
  {}

  class BchControl {
    const m: nat
    const t: nat
    const n: nat
    var eccBits: nat
    const aPow: array<nat>
    const aLog: array<nat>
    /** Row 256*b + i holds the remainder of i * X^(8b + eccBits). */
    const mod8: array2<u32>
    const eccBuf: array<u32>

    constructor (m: nat, t: nat)
      requires m >= 1
      ensures this.m == m && this.t == t && Shape()
      ensures fresh(aPow) && fresh(aLog) && fresh(mod8) && fresh(eccBuf)
    {
      this.m, this.t := m, t;
      n := Pow2(m) - 1;
      eccBits := 0;
      aPow := new nat[Pow2(m)];
      aLog := new nat[Pow2(m)];
      mod8 := new u32[1024, EccWords(m, t)];
      eccBuf := new u32[EccWords(m, t)];
      EccSizes(m, t);
    }

    ghost predicate Shape() {
      && m >= 1
      && n + 1 == Pow2(m)
      && aPow.Length == aLog.Length == n + 1
      && aPow != aLog
      && mod8.Length0 == 1024
      && mod8.Length1 == eccBuf.Length == EccWords(m, t)
      && EccBytes(m, t) <= 4 * eccBuf.Length
    }

    /** The log and antilog tables of the field `f`. */
    ghost predicate Tables(f: Field)
      reads aPow, aLog
    {
      && Shape()
      && f.m == m
      && Primitive(f)
      && (forall i :: 0 <= i < n ==> aPow[i] == Power(f, i))
      && aPow[n] == 1
      && (forall i :: 0 <= i < n ==> aLog[Power(f, i)] == i)
    }

    /**
     `build_gf_tables`: list the powers of X, failing if 1 recurs too early.
     The test of bit m after the shift is a comparison with 2^m here, since the
     shifted value is below 2^(m+1).
     */
    method BuildGfTables(poly: u32) returns (ok: bool)
      requires Shape() && poly > 0
      modifies aPow, aLog
      ensures ok <==> Field(m, poly).DegreeOk() && NoEarlyOne(Field(m, poly))
      ensures ok ==> forall i :: 0 <= i < n ==> aPow[i] == Power(Field(m, poly), i)
      ensures ok && poly % 2 == 1 ==> Tables(Field(m, poly))
    {
      hide Pow2, Xor, Deg, Power, NoEarlyOne, EccBytes, EccWords;
      var f := Field(m, poly);
      var d := Fls(poly);
      if d - 1 != m {
        if f.DegreeOk() { DegUnique(poly, m); }
        return false;
      }
      ok := ListPowers(f);
      if !ok { return; }
      aPow[n] := 1;
      NoneZero(f);
      aLog[0] := 0;
    }

    /** The loop over the powers: stops when 1 recurs. */
    method ListPowers(f: Field) returns (ok: bool)
      requires Shape() && f.m == m && f.DegreeOk()
      modifies aPow, aLog
      ensures ok <==> NoEarlyOne(f)
      ensures ok ==> forall j :: 0 <= j < n ==> aPow[j] == Power(f, j)
      ensures ok && Primitive(f) ==> forall j :: 0 <= j < n ==> aLog[Power(f, j)] == j
    {
      hide Pow2, Xor, MulX, Primitive, EccBytes, EccWords;
      var x: nat, k := 1, Pow2(m);
      OneIsElem(m);
      PowerStart(f);
      hide Power;
      for i := 0 to n
        invariant f.Elem(x) && x == Power(f, i)
        invariant forall j :: 0 <= j < i ==> aPow[j] == Power(f, j)
        invariant forall j :: 0 < j < i ==> Power(f, j) != 1
        invariant Primitive(f) ==> forall j :: 0 <= j < i ==> aLog[Power(f, j)] == j
      {
        NotBefore(f, i);
        aPow[i] := x;
        aLog[x] := i;
        if i > 0 && x == 1 {
          return false;
        }
        PowerNext(f, i);
        x := 2 * x;
        if x >= k { x := Xor(x, f.poly); }
      }
      return true;
    }

    /** `gf_mul`: multiply through the tables. */
    function GfMul(ghost f: Field, a: nat, b: nat): (r: nat)
      requires Tables(f) && a <= n && b <= n
      reads aPow, aLog
      ensures r == Mul(f, a, b)
    {
      if a != 0 && b != 0 then
        LogSum(f, a, b);
        assert aLog[Power(f, Log(f, a))] == Log(f, a);
        assert aLog[Power(f, Log(f, b))] == Log(f, b);
        aPow[ModS(n, aLog[a] + aLog[b])]
      else
        MulZero(f, a);
        MulZero(f, b);
        0
    }

    // ----- generator polynomial

    /** Enumerate the roots: the cosets of 1, 3, ..., 2t-1. */
    method MarkRoots() returns (roots: array<bool>)
      requires Shape() && 2 * t < n
      ensures fresh(roots) && roots.Length == n + 1
      ensures forall k :: 0 <= k < n ==> (roots[k] <==> Marked(n, m, t, k))
    {
      hide Pow2, Coset, Marked, MarkedBy;
      BoundariesOfMarks(n, m);
      roots := new bool[n + 1](_ => false);
      for i := 0 to t
        invariant forall k :: 0 <= k < n ==> (roots[k] <==> Marked(n, m, i, k))
      {
        var r: nat := 2 * i + 1;
        CosetStart(n, r);
        BoundariesOfMarkedBy(n, i);
        for j := 0 to m
          invariant r < n && r == Coset(n, 2 * i + 1, j)
          invariant forall k :: 0 <= k < n ==> (roots[k] <==> Marked(n, m, i, k) || MarkedBy(n, i, j, k))
        {
          roots[r] := true;
          CosetNext(n, 2 * i + 1, j);
          forall k | 0 <= k < n
            ensures MarkedBy(n, i, j + 1, k) <==> MarkedBy(n, i, j, k) || k == r
          {
            MarkedByNext(n, i, j, k);
          }
          r := ModS(n, 2 * r);
        }
        forall k | 0 <= k < n
          ensures Marked(n, m, i + 1, k) <==> Marked(n, m, i, k) || MarkedBy(n, i, m, k)
        {
          MarkedNext(n, m, i, k);
        }
      }
    }

    /** Multiply out (X + a^i) over the marked exponents, in place. */
    method MultiplyOut(ghost f: Field, roots: array<bool>, c: array<nat>) returns (deg: nat)
      requires Tables(f) && roots.Length == n + 1 && c.Length == m * t + 1
      requires c != aPow && c != aLog
      requires forall k :: 0 <= k < n ==> (roots[k] <==> Marked(n, m, t, k))
      modifies c
      ensures deg <= m * t && c[..deg + 1] == Product(f, Roots(f, t))
    {
      hide Pow2, Marked, MarkedList, Power, Product, NoEarlyOne;
      deg := 0;
      c[0] := 1;
      ProductEmpty(f);
      ghost var es: seq<nat> := [];
      MarkedListStart(n, m, t);
      for i := 0 to n
        invariant Tables(f)
        invariant es == MarkedList(n, m, t, i) && deg == |es| <= m * t
        invariant c[..deg + 1] == Product(f, Powers(f, es))
      {
        MarkedListNext(n, m, t, i);
        if roots[i] {
          MarkedCapacity(n, m, t, i);
          PowersSnoc(f, es, i);
          MulInPlace(f, aPow[i], c, deg, Powers(f, es));
          es := es + [i];
          deg := deg + 1;
        }
      }
    }

    /** One factor: c := c * (X + r), from the top coefficient down. */
    method MulInPlace(ghost f: Field, r: nat, c: array<nat>, deg: nat, ghost rs: seq<nat>)
      requires Tables(f) && f.Elem(r) && IsPoly(f, rs) && deg == |rs| && deg + 1 < c.Length
      requires c != aPow && c != aLog && c[..deg + 1] == Product(f, rs)
      modifies c
      ensures c[..deg + 2] == Product(f, rs + [r])
    {
      hide Pow2, Product, NoEarlyOne, Power, Mul, Xor, LinCoef;
      ghost var p := c[..deg + 1];
      c[deg + 1] := 1;
      ProductMonic(f, rs);
      TopCoef(f, p, r);
      var j := deg;
      while j > 0
        invariant 0 <= j <= deg
        invariant Tables(f)
        invariant forall k :: j < k <= deg + 1 ==> c[k] == LinCoef(f, p, r, k)
        invariant forall k :: 0 <= k <= j ==> c[k] == p[k]
      {
        InnerCoef(f, p, r, j);
        c[j] := Xor(GfMul(f, c[j], r), c[j - 1]);
        j := j - 1;
      }
      InnerCoef(f, p, r, 0);
      c[0] := GfMul(f, c[0], r);
      ProductSnoc(f, rs, r);
      assert c[..deg + 2] == MulLin(f, p, r);
    }

    /** `compute_generator_polynomial`: mark, multiply out, pack. */
    method ComputeGeneratorPolynomial(ghost f: Field) returns (genpoly: array<u32>)
      requires Tables(f) && 1 <= t && 2 * t < n
      modifies this`eccBits
      ensures fresh(genpoly) && genpoly.Length == DivRoundUp(m * t + 1, 32)
      ensures eccBits == |GeneratorBits(f, t)| - 1 && eccBits <= m * t
      ensures DivRoundUp(eccBits + 1, 32) <= genpoly.Length
      ensures GeneratorWords(genpoly[..DivRoundUp(eccBits + 1, 32)], GeneratorBits(f, t))
    {
      hide Pow2, Product, NoEarlyOne, Marked, Roots, Flat;
      var c := new nat[m * t + 1];
      var roots := MarkRoots();
      var deg := MultiplyOut(f, roots, c);
      genpoly := new u32[DivRoundUp(m * t + 1, 32)];
      Pack(c, deg, genpoly);
      GeneratorShape(f, t);
      eccBits := deg;
    }

    // ----- remainder tables

    ghost function Row(k: nat): (r: seq<u32>)
      requires Shape() && k < 1024
      reads mod8
      ensures |r| == mod8.Length1 && forall j :: 0 <= j < |r| ==> r[j] == mod8[k, j]
    {
      seq(mod8.Length1, j requires 0 <= j < mod8.Length1 && k < mod8.Length0 reads mod8 => mod8[k, j])
    }

    /** Every row holds the remainder it stands for. */
    ghost predicate RemainderTables(taps: seq<bool>)
      requires Shape() && |taps| >= 1
      reads mod8
    {
      forall k :: 0 <= k < 1024 ==> RowDone(taps, k)
    }

    ghost predicate RowDone(taps: seq<bool>, k: nat)
      requires Shape() && |taps| >= 1 && k < 1024
      reads mod8
    {
      Flat(Row(k)) == Entry(taps, k / 256, k % 256)
    }

    /** Divide one data word, adding the remainder into its row. */
    method FillRow(k: nat, data0: u32, genpoly: array<u32>, ghost g: seq<bool>)
      requires Shape() && k < 1024 && mod8.Length1 >= 1 && IsGenerator(g)
      requires eccBits == |g| - 1 <= 32 * mod8.Length1 && DivRoundUp(eccBits + 1, 32) <= genpoly.Length
      requires GeneratorWords(genpoly[..DivRoundUp(eccBits + 1, 32)], g)
      requires forall j :: 0 <= j < mod8.Length1 ==> mod8[k, j] == 0
      modifies mod8
      ensures Flat(Row(k)) == Run(Taps(g, mod8.Length1), Zeros(32 * mod8.Length1), Word(data0))
      ensures forall k', j :: 0 <= k' < 1024 && k' != k && 0 <= j < mod8.Length1 ==> mod8[k', j] == old(mod8[k', j])
      ensures forall k' :: 0 <= k' < 1024 && k' != k ==> Row(k') == old(Row(k'))
    {
      hide Word, Run, Taps, Flat, GenWord, Deg, Shl32, Shr32, Or32, Xor32, Pow2;
      var plen, ecclen := DivRoundUp(eccBits + 1, 32), DivRoundUp(eccBits, 32);
      ghost var l, gw := mod8.Length1, genpoly[..plen];
      ghost var taps, z := Taps(g, l), Zeros(32 * l);
      ghost var goal := Run(taps, z, Word(data0));
      var data := data0;
      StartRow(Row(k), taps, data0);
      while data != 0
        invariant genpoly[..plen] == gw
        invariant XorBits(Flat(Row(k)), Run(taps, z, Word(data))) == goal
        invariant forall k', j :: 0 <= k' < 1024 && k' != k && 0 <= j < l ==> mod8[k', j] == old(mod8[k', j])
        decreases data
      {
        var fls := Fls(data);
        var d := fls - 1;
        DegBelow32(data);
        ghost var row, was := Row(k), data;
        ghost var ws := ShiftedGenerator(gw, d, ecclen, l);
        data := Xor32(data, Shr32(genpoly[0], 31 - d));
        SubtractShifted(k, d, genpoly, gw, plen, ecclen);
        ReduceStep(gw, g, l, was, row, ws, Row(k));
      }
      FinishRow(Row(k), taps);
    }

    /** The inner loop: one shifted copy of the generator off a row. */
    method SubtractShifted(k: nat, d: nat, genpoly: array<u32>, ghost gw: seq<u32>, plen: nat, ecclen: nat)
      requires k < mod8.Length0 && d < 32 && 0 < |gw| == plen <= genpoly.Length && genpoly[..plen] == gw && ecclen <= plen
      requires ecclen <= mod8.Length1
      modifies mod8
      ensures forall j :: 0 <= j < mod8.Length1 ==>
                mod8[k, j] == Xor32(old(mod8[k, j]), ShiftedGenerator(gw, d, ecclen, mod8.Length1)[j])
      ensures forall k', j :: 0 <= k' < mod8.Length0 && k' != k && 0 <= j < mod8.Length1 ==> mod8[k', j] == old(mod8[k', j])
    {
      hide Shl32, Shr32, Or32, Xor32, GenWord;
      ghost var l := mod8.Length1;
      ghost var ws := ShiftedGenerator(gw, d, ecclen, l);
      for j := 0 to ecclen
        invariant forall j' :: 0 <= j' < j ==> mod8[k, j'] == Xor32(old(mod8[k, j']), ws[j'])
        invariant forall j' :: j <= j' < l ==> mod8[k, j'] == old(mod8[k, j'])
        invariant forall k', j' :: 0 <= k' < mod8.Length0 && k' != k && 0 <= j' < l ==> mod8[k', j'] == old(mod8[k', j'])
      {
        var hi := if d < 31 then Shl32(genpoly[j], d + 1) else 0;
        var lo := if j + 1 < plen then Shr32(genpoly[j + 1], 31 - d) else 0;
        GenWordIs(gw, d, j, hi, lo);
        mod8[k, j] := Xor32(mod8[k, j], Or32(hi, lo));
      }
      forall j | ecclen <= j < l ensures mod8[k, j] == Xor32(old(mod8[k, j]), ws[j]) { Xor32Zero(mod8[k, j]); }
    }

    /** `build_mod8_tables`: all 4 * 256 remainders. */
    method BuildMod8Tables(genpoly: array<u32>, ghost g: seq<bool>)
      requires Shape() && mod8.Length1 >= 1 && IsGenerator(g)
      requires eccBits == |g| - 1 <= 32 * mod8.Length1 && DivRoundUp(eccBits + 1, 32) <= genpoly.Length
      requires GeneratorWords(genpoly[..DivRoundUp(eccBits + 1, 32)], g)
      modifies mod8
      ensures RemainderTables(Taps(g, mod8.Length1))
    {
      hide Word, Run, Taps, Flat, Shl32, Pow2, GeneratorWords, Before;
      ghost var l, taps := mod8.Length1, Taps(g, mod8.Length1);
      ClearMod8();
      BeforeEnds();
      for i := 0 to 256
        invariant forall k :: 0 <= k < 1024 && Before(k, i, 0) ==> RowDone(taps, k)
        invariant forall k, j :: 0 <= k < 1024 && 0 <= j < l && !Before(k, i, 0) ==> mod8[k, j] == 0
      {
        for b := 0 to 4
          invariant forall k :: 0 <= k < 1024 && Before(k, i, b) ==> RowDone(taps, k)
          invariant forall k, j :: 0 <= k < 1024 && 0 <= j < l && !Before(k, i, b) ==> mod8[k, j] == 0
        {
          var k := 256 * b + i;
          RowNumber(i, b);
          label before:
          FillRow(k, Shl32(i, 8 * b), genpoly, g);
          assert RowDone(taps, k);
          forall k' | 0 <= k' < 1024 && Before(k', i, b + 1) ensures RowDone(taps, k') {
            if k' != k { assert old@before(RowDone(taps, k')); }
          }
        }
        BeforeNext(i);
      }
    }

    method ClearMod8()
      requires Shape()
      modifies mod8
      ensures forall k, j :: 0 <= k < 1024 && 0 <= j < mod8.Length1 ==> mod8[k, j] == 0
    {
      for k := 0 to 1024
        invariant forall k', j :: 0 <= k' < k && 0 <= j < mod8.Length1 ==> mod8[k', j] == 0
      {
        for j := 0 to mod8.Length1
          invariant forall k', j' :: 0 <= k' < k && 0 <= j' < mod8.Length1 ==> mod8[k', j'] == 0
          invariant forall j' :: 0 <= j' < j ==> mod8[k, j'] == 0
        {
          mod8[k, j] := 0;
        }
      }
    }

    // ----- encoding

    ghost predicate Encoder(taps: seq<bool>)
      reads mod8
    {
      && Shape()
      && eccBuf.Length >= 1
      && |taps| == 32 * eccBuf.Length
      && RemainderTables(taps)
    }

    /** One byte through the first table, in place. */
    method EncodeByte(ghost taps: seq<bool>, d: byte, ecc: array<u32>)
      requires Encoder(taps) && ecc.Length == eccBuf.Length
      modifies ecc
      ensures Flat(ecc[..]) == Run(taps, Flat(old(ecc[..])), Bits(8, d))
    {
      hide Word, Run, Flat, Bits, Entry, ByteIndex, Byte, Shifted, Xor32, Or32, Shl32, Shr32, Pow2, EccWords;
      var l := ecc.Length - 1;
      ghost var was := ecc[..];
      var k := Byte(Xor32(Shr32(ecc[0], 24), d));
      assert k == ByteIndex(was[0], d) by { IndexIs(was[0], d); }
      ghost var p := Row(k);
      assert RowDone(taps, k);
      for i := 0 to l
        invariant forall i' :: 0 <= i' < i ==> ecc[i'] == Xor32(Shifted(was, i'), p[i'])
        invariant forall i' :: i <= i' <= l ==> ecc[i'] == was[i']
      {
        ShiftedIs(was, i);
        ecc[i] := Xor32(Or32(Shl32(ecc[i], 8), Shr32(ecc[i + 1], 24)), mod8[k, i]);
      }
      ShiftedIs(was, l);
      ecc[l] := Xor32(Shl32(ecc[l], 8), mod8[k, l]);
      ByteStep(taps, was, d, p, ecc[..]);
    }

    /** `encode_bch_unaligned`: byte by byte. */
    method EncodeUnaligned(ghost taps: seq<bool>, data: seq<byte>, ecc: array<u32>)
      requires Encoder(taps) && ecc.Length == eccBuf.Length
      modifies ecc
      ensures Flat(ecc[..]) == Run(taps, Flat(old(ecc[..])), FlatBytes(data))
    {
      hide Word, Run, Flat, FlatBytes, Bits, Pow2;
      ghost var s := Flat(ecc[..]);
      RunNothing(taps, s);
      for q := 0 to |data|
        invariant Flat(ecc[..]) == Run(taps, s, FlatBytes(data[..q]))
      {
        EncodeByte(taps, data[q], ecc);
        RunOneByte(taps, s, data[..q], data[q]);
        assert data[..q + 1] == data[..q] + [data[q]];
      }
      assert data[..|data|] == data;
    }

    /** One big-endian word through the four tables, in place. */
    method EncodeWord(ghost taps: seq<bool>, d: u32, r: array<u32>)
      requires Encoder(taps) && r.Length == eccBuf.Length
      modifies r
      ensures Flat(r[..]) == Run(taps, Flat(old(r[..])), Word(d))
    {
      hide Word, Run, Flat, Bits, Entry, Xor32, Shr32, Byte, Pow2;
      var l := r.Length - 1;
      ghost var was := r[..];
      var w := Xor32(r[0], d);
      var k0: nat, k1: nat := Byte(Shr32(w, 0)), 256 + Byte(Shr32(w, 8)) as nat;
      var k2: nat, k3: nat := 512 + Byte(Shr32(w, 16)) as nat, 768 + Byte(Shr32(w, 24)) as nat;
      ghost var p0, p1, p2, p3 := Row(k0), Row(k1), Row(k2), Row(k3);
      RowDoneAt(taps, 0, ByteOf(w, 0));
      RowDoneAt(taps, 1, ByteOf(w, 1));
      RowDoneAt(taps, 2, ByteOf(w, 2));
      RowDoneAt(taps, 3, ByteOf(w, 3));
      for i := 0 to l
        invariant forall i' :: 0 <= i' < i ==> r[i'] == WordOut(was, p0, p1, p2, p3, i')
        invariant forall i' :: i <= i' <= l ==> r[i'] == was[i']
      {
        r[i] := Xor32(Xor32(Xor32(Xor32(r[i + 1], mod8[k0, i]), mod8[k1, i]), mod8[k2, i]), mod8[k3, i]);
      }
      r[l] := Xor32(Xor32(Xor32(mod8[k0, l], mod8[k1, l]), mod8[k2, l]), mod8[k3, l]);
      WordStep(taps, was, d, p0, p1, p2, p3, r[..]);
    }

    lemma RowDoneAt(taps: seq<bool>, b: nat, i: byte)
      requires Encoder(taps) && b < 4
      ensures 256 * b + (i as nat) < 1024 && Flat(Row(256 * b + (i as nat))) == Entry(taps, b, i)
    {
      hide Flat, Entry, Pow2;
      var k := 256 * b + (i as nat);
      assert k / 256 == b && k % 256 == i;
      assert RowDone(taps, k);
    }

    /** The aligned middle of the block, word by word. */
    method EncodeAligned(ghost taps: seq<bool>, data: seq<byte>, r: array<u32>)
      requires Encoder(taps) && r.Length == eccBuf.Length && |data| % 4 == 0
      modifies r
      ensures Flat(r[..]) == Run(taps, Flat(old(r[..])), FlatBytes(data))
    {
      hide Word, Run, Flat, FlatBytes, Bits, Pow2, BigEndian;
      ghost var s := Flat(r[..]);
      RunNothing(taps, s);
      var mlen: nat, q: nat := |data| / 4, 0;
      while mlen > 0
        invariant 0 <= q && q + 4 * mlen == |data|
        invariant Flat(r[..]) == Run(taps, s, FlatBytes(data[..q]))
        decreases mlen
      {
        EncodeWord(taps, BigEndian(data[q..q + 4]), r);
        RunOneWord(taps, s, data[..q], data[q..q + 4]);
        assert data[..q + 4] == data[..q] + data[q..q + 4];
        mlen, q := mlen - 1, q + 4;
      }
      assert data[..|data|] == data;
    }

    /** `load_ecc8`: parity bytes to zero-padded words. */
    method LoadEcc8(src: seq<byte>)
      requires Shape() && eccBuf.Length >= 1 && |src| == EccBytes(m, t)
      modifies eccBuf
      ensures Flat(eccBuf[..]) == FlatBytes(src) + Zeros(32 * eccBuf.Length - 8 * |src|)
    {
      hide Word, Pow2, BigEndian, Flat, FlatBytes, EccBytes, EccWords, Padded;
      EccSizes(m, t);
      var nwords := eccBuf.Length - 1;
      ghost var l, all := eccBuf.Length, Padded(src, 4 * eccBuf.Length);
      for i := 0 to nwords
        invariant forall i' :: 0 <= i' < i ==> eccBuf[i'] == BigEndian(all[4 * i'..4 * i' + 4])
      {
        PaddedSlice(src, 4 * l, 4 * i);
        eccBuf[i] := BigEndian(src[4 * i..4 * i + 4]);
      }
      var pad := Padded(src[4 * nwords..], 4);
      PaddedSlice(src, 4 * l, 4 * nwords);
      eccBuf[nwords] := BigEndian(pad);
      LoadedBits(eccBuf[..], all);
      PaddedBits(src, 4 * l);
    }

    /** `store_ecc8`: words back to parity bytes. */
    method StoreEcc8(dst: array<byte>)
      requires Shape() && eccBuf.Length >= 1 && dst.Length >= EccBytes(m, t) && dst as object != eccBuf
      modifies dst
      ensures FlatBytes(dst[..EccBytes(m, t)]) == Flat(eccBuf[..])[..8 * EccBytes(m, t)]
      ensures dst[EccBytes(m, t)..] == old(dst[EccBytes(m, t)..])
    {
      hide Word, Pow2, ByteOf, Flat, FlatBytes, EccBytes, EccWords;
      EccSizes(m, t);
      var nwords, bytes := eccBuf.Length - 1, EccBytes(m, t);
      ghost var ws := eccBuf[..];
      for i := 0 to nwords
        invariant forall q :: 0 <= q < 4 * i ==> dst[q] == ByteOf(ws[q / 4], 3 - q % 4)
        invariant forall q :: bytes <= q < dst.Length ==> dst[q] == old(dst[q])
      {
        StoreBytes(dst, i, eccBuf[i], 4);
      }
      StoreBytes(dst, nwords, eccBuf[nwords], bytes - 4 * nwords);
      StoredBits(ws, dst[..bytes]);
    }

    /** Initialised for the code of the field `f`. */
    ghost predicate Ready(f: Field)
      reads this`eccBits, aPow, aLog, mod8
    {
      && Tables(f)
      && 1 <= t && 2 * t < n
      && IsGenerator(GeneratorBits(f, t))
      && eccBits == |GeneratorBits(f, t)| - 1 <= m * t
      && m * t <= 32 * eccBuf.Length
      && Encoder(Taps(GeneratorBits(f, t), eccBuf.Length))
    }

    /**
     `encode_bch`: load the parity so far, take the bytes up to a word boundary
     (`align` is the block address modulo 4), then words, then the rest.
     */
    method EncodeBch(ghost taps: seq<bool>, data: seq<byte>, align: nat, ecc: array?<byte>)
      requires Encoder(taps) && align < 4
      requires ecc != null ==> ecc.Length >= EccBytes(m, t) && ecc as object != eccBuf
      modifies eccBuf, ecc
      ensures Flat(eccBuf[..]) == Run(taps,
                if ecc == null then Zeros(|taps|)
                else FlatBytes(old(ecc[..EccBytes(m, t)])) + Zeros(|taps| - 8 * EccBytes(m, t)),
                FlatBytes(data))
      ensures ecc != null ==> FlatBytes(ecc[..EccBytes(m, t)]) == Flat(eccBuf[..])[..8 * EccBytes(m, t)]
      ensures ecc != null ==> ecc[EccBytes(m, t)..] == old(ecc[EccBytes(m, t)..])
    {
      hide Word, Run, Flat, FlatBytes, RemainderTables, Pow2, EccBytes, EccWords;
      StartRegister(ecc);
      EncodeParts(taps, data, align);
      EccSizes(m, t);
      if ecc != null { StoreEcc8(ecc); }
    }

    /** The bytes up to a word boundary, then words, then the rest. */
    method EncodeParts(ghost taps: seq<bool>, data: seq<byte>, align: nat)
      requires Encoder(taps) && align < 4
      modifies eccBuf
      ensures Flat(eccBuf[..]) == Run(taps, Flat(old(eccBuf[..])), FlatBytes(data))
    {
      hide Word, Run, Flat, FlatBytes, RemainderTables, Pow2, EccBytes, EccWords;
      ghost var s := Flat(eccBuf[..]);
      var mlen := if align == 0 then 0 else if |data| < 4 - align then |data| else 4 - align;
      EncodeUnaligned(taps, data[..mlen], eccBuf);
      var rest := data[mlen..];
      var words := |rest| / 4 * 4;
      EncodeMiddle(taps, rest[..words]);
      EncodeUnaligned(taps, rest[words..], eccBuf);
      RunThreeParts(taps, s, data[..mlen], rest[..words], rest[words..]);
      assert data == data[..mlen] + rest[..words] + rest[words..];
    }

    /** Load the parity so far, or clear the register. */
    method StartRegister(ecc: array?<byte>)
      requires Shape() && eccBuf.Length >= 1
      requires ecc != null ==> ecc.Length >= EccBytes(m, t) && ecc as object != eccBuf
      modifies eccBuf
      ensures EccBytes(m, t) <= 4 * eccBuf.Length
      ensures Flat(eccBuf[..]) ==
              if ecc == null then Zeros(32 * eccBuf.Length)
              else FlatBytes(ecc[..EccBytes(m, t)]) + Zeros(32 * eccBuf.Length - 8 * EccBytes(m, t))
    {
      hide Word, Flat, FlatBytes, Pow2, EccBytes, EccWords;
      EccSizes(m, t);
      if ecc != null {
        LoadEcc8(ecc[..EccBytes(m, t)]);
      } else {
        for i := 0 to eccBuf.Length
          invariant forall j :: 0 <= j < i ==> eccBuf[j] == 0
        {
          eccBuf[i] := 0;
        }
        FlatZero(eccBuf[..]);
      }
    }

    /** Whole words, in a local copy of the register. */
    method EncodeMiddle(ghost taps: seq<bool>, data: seq<byte>)
      requires Encoder(taps) && |data| % 4 == 0
      modifies eccBuf
      ensures Flat(eccBuf[..]) == Run(taps, Flat(old(eccBuf[..])), FlatBytes(data))
    {
      hide Word, Run, Flat, FlatBytes, RemainderTables, Pow2, EccBytes, EccWords;
      var r := new u32[eccBuf.Length];
      CopyWords(eccBuf, r);
      EncodeAligned(taps, data, r);
      CopyWords(r, eccBuf);
    }

    /**
     Parity of a block in the form callers rely on: if `ecc` held the parity of
     `prev` (all zero for an empty `prev`), it now holds that of `prev + data`,
     and block and parity together form a codeword of the 2t-root BCH code.
     */
    method Encode(ghost f: Field, ghost prev: seq<byte>, data: seq<byte>, align: nat, ecc: array<byte>)
      requires Ready(f) && align < 4 && ecc.Length >= EccBytes(m, t) && ecc as object != eccBuf
      requires FlatBytes(ecc[..EccBytes(m, t)])
            == Parity(GeneratorBits(f, t), FlatBytes(prev)) + Zeros(8 * EccBytes(m, t) - eccBits)
      modifies eccBuf, ecc
      ensures Ready(f)
      ensures FlatBytes(ecc[..EccBytes(m, t)])
           == Parity(GeneratorBits(f, t), FlatBytes(prev + data)) + Zeros(8 * EccBytes(m, t) - eccBits)
      ensures ecc[EccBytes(m, t)..] == old(ecc[EccBytes(m, t)..])
      ensures forall s :: 1 <= s <= 2 * t ==>
                Horner(f, FlatBytes(prev + data) + FlatBytes(ecc[..EccBytes(m, t)])[..eccBits], Power(f, s)) == 0
    {
      hide Word, Run, Flat, FlatBytes, Horner, GeneratorBits, Taps, RemainderTables, Power, NoEarlyOne, Pow2,
           EccBytes, EccWords, Parity;
      EccSizes(m, t);
      ghost var g, l, bytes := GeneratorBits(f, t), eccBuf.Length, EccBytes(m, t);
      EncodeBch(Taps(g, l), data, align, ecc);
      ContinueParity(g, l, bytes, prev, data);
      forall s | 1 <= s <= 2 * t
        ensures Horner(f, FlatBytes(prev + data) + FlatBytes(ecc[..bytes])[..eccBits], Power(f, s)) == 0
      {
        CodewordVanishes(f, t, FlatBytes(prev + data), s);
        var r := Parity(g, FlatBytes(prev + data));
        assert (r + Zeros(8 * bytes - eccBits))[..eccBits] == r;
      }
    }
  }

  /** The first `cnt` bytes of a word, high byte first, to their place. */
  method StoreBytes(dst: array<byte>, i: nat, w: u32, cnt: nat)
    requires cnt <= 4 && 4 * i + cnt <= dst.Length
    modifies dst
    ensures forall q :: 4 * i <= q < 4 * i + cnt ==> dst[q] == ByteOf(w, 3 - q % 4)
    ensures forall q :: 0 <= q < dst.Length && !(4 * i <= q < 4 * i + cnt) ==> dst[q] == old(dst[q])
  {
    hide ByteOf;
    for j := 0 to cnt
      invariant forall q :: 4 * i <= q < 4 * i + j ==> dst[q] == ByteOf(w, 3 - q % 4)
      invariant forall q :: 0 <= q < dst.Length && !(4 * i <= q < 4 * i + j) ==> dst[q] == old(dst[q])
    {
      assert (4 * i + j) % 4 == j;
      dst[4 * i + j] := ByteOf(w, 3 - j);
    }
  }

  method CopyWords(src: array<u32>, dst: array<u32>)
    requires src.Length == dst.Length && src != dst
    modifies dst
    ensures dst[..] == src[..]
  {
    for i := 0 to src.Length
      invariant forall j :: 0 <= j < i ==> dst[j] == src[j]
    {
      dst[i] := src[i];
    }
  }

  lemma RunThreeParts(taps: seq<bool>, s: seq<bool>, a: seq<byte>, b: seq<byte>, c: seq<byte>)
    requires |s| == |taps| >= 1
    ensures Run(taps, s, FlatBytes(a + b + c))
         == Run(taps, Run(taps, Run(taps, s, FlatBytes(a)), FlatBytes(b)), FlatBytes(c))
  {
    hide Run, FlatBytes;
    FlatBytesConcat(a + b, c);
    FlatBytesConcat(a, b);
    RunConcat(taps, s, FlatBytes(a) + FlatBytes(b), FlatBytes(c));
    RunConcat(taps, s, FlatBytes(a), FlatBytes(b));
  }

  /** The register resumed from stored parity bytes ends with the whole parity. */
  lemma ContinueParity(g: seq<bool>, l: nat, bytes: nat, prev: seq<byte>, data: seq<byte>)
    requires IsGenerator(g) && |g| - 1 <= 8 * bytes <= 32 * l
    ensures Parity(g, FlatBytes(prev)) + Zeros(8 * bytes - (|g| - 1)) + Zeros(32 * l - 8 * bytes)
         == Parity(g, FlatBytes(prev)) + Zeros(32 * l - (|g| - 1))
    ensures Run(Taps(g, l), Parity(g, FlatBytes(prev)) + Zeros(32 * l - (|g| - 1)), FlatBytes(data))
         == Parity(g, FlatBytes(prev + data)) + Zeros(32 * l - (|g| - 1))
    ensures (Parity(g, FlatBytes(prev + data)) + Zeros(32 * l - (|g| - 1)))[..8 * bytes]
         == Parity(g, FlatBytes(prev + data)) + Zeros(8 * bytes - (|g| - 1))
  {
    hide Run, FlatBytes;
    var e := 32 * l - (|g| - 1);
    RunPad(g[1..], Parity(g, FlatBytes(prev)), e, FlatBytes(data));
    RunConcat(g[1..], Zeros(|g| - 1), FlatBytes(prev), FlatBytes(data));
    FlatBytesConcat(prev, data);
  }

  lemma ShiftedIs(ecc: seq<u32>, i: nat)
    requires i < |ecc|
    ensures i + 1 < |ecc| ==> Shifted(ecc, i) == Or32(Shl32(ecc[i], 8), Shr32(ecc[i + 1], 24))
    ensures i + 1 == |ecc| ==> Shifted(ecc, i) == Shl32(ecc[i], 8)
  {}

  lemma IndexIs(top: u32, d: byte)
    ensures ByteIndex(top, d) == Byte(Xor32(Shr32(top, 24), d))
  {}

  lemma RunNothing(taps: seq<bool>, s: seq<bool>)
    requires |s| == |taps| >= 1
    ensures Run(taps, s, FlatBytes([])) == s
  {
    assert FlatBytes([]) == [];
  }

  lemma RunOneByte(taps: seq<bool>, s: seq<bool>, a: seq<byte>, d: byte)
    requires |s| == |taps| >= 1
    ensures Run(taps, s, FlatBytes(a + [d])) == Run(taps, Run(taps, s, FlatBytes(a)), Bits(8, d))
  {
    hide Run, FlatBytes, Bits;
    FlatBytesConcat(a, [d]);
    FlatBytesOne(d);
    RunConcat(taps, s, FlatBytes(a), Bits(8, d));
  }

  lemma RunOneWord(taps: seq<bool>, s: seq<bool>, a: seq<byte>, b: seq<byte>)
    requires |s| == |taps| >= 1 && |b| == 4
    ensures Run(taps, s, FlatBytes(a + b)) == Run(taps, Run(taps, s, FlatBytes(a)), Word(BigEndian(b)))
  {
    hide Run, FlatBytes, Bits, Word, BigEndian;
    FlatBytesConcat(a, b);
    RunConcat(taps, s, FlatBytes(a), FlatBytes(b));
    WordIsFourBytes(taps, Run(taps, s, FlatBytes(a)), b);
  }

  function Padded(src: seq<byte>, k: nat): (r: seq<byte>)
    requires |src| <= k
    ensures |r| == k && r[..|src|] == src
  {
    src + seq(k - |src|, _ => 0)
  }

  lemma PaddedSlice(src: seq<byte>, k: nat, i: nat)
    requires |src| <= k && i + 4 <= k && i <= |src|
    ensures i + 4 <= |src| ==> src[i..i + 4] == Padded(src, k)[i..i + 4]
    ensures |src| <= i + 4 ==> Padded(src[i..], 4) == Padded(src, k)[i..i + 4]
  {}

  lemma PaddedBits(src: seq<byte>, k: nat)
    requires |src| <= k
    ensures FlatBytes(Padded(src, k)) == FlatBytes(src) + Zeros(8 * (k - |src|))
  {
    hide Bits;
    var z: seq<byte> := seq(k - |src|, _ => 0);
    FlatBytesConcat(src, z);
    BitsZero(8);
  }

  lemma LoadedBits(ws: seq<u32>, all: seq<byte>)
    requires |all| == 4 * |ws|
    requires forall i :: 0 <= i < |ws| ==> ws[i] == BigEndian(all[4 * i..4 * i + 4])
    ensures Flat(ws) == FlatBytes(all)
  {
    hide Word, BigEndian, Bits;
    forall q | 0 <= q < 32 * |ws| ensures Flat(ws)[q] == FlatBytes(all)[q] {
      var i, b := q / 32, q % 32;
      BigEndianBits(all[4 * i..4 * i + 4]);
      assert q / 8 == 4 * i + b / 8 && q % 8 == b % 8;
      assert all[q / 8] == all[4 * i..4 * i + 4][b / 8];
    }
  }

  lemma StoredBits(ws: seq<u32>, bs: seq<byte>)
    requires |bs| <= 4 * |ws|
    requires forall q :: 0 <= q < |bs| ==> bs[q] == ByteOf(ws[q / 4], 3 - q % 4)
    ensures FlatBytes(bs) == Flat(ws)[..8 * |bs|]
  {
    hide Word, ByteOf, Bits, Flat, FlatBytes;
    forall p | 0 <= p < 8 * |bs| ensures FlatBytes(bs)[p] == Flat(ws)[p] {
      StoredBit(ws, bs, p / 8, p % 8);
    }
  }

  lemma StoredBit(ws: seq<u32>, bs: seq<byte>, q: nat, b: nat)
    requires |bs| <= 4 * |ws| && q < |bs| && b < 8 && bs[q] == ByteOf(ws[q / 4], 3 - q % 4)
    ensures FlatBytes(bs)[8 * q + b] == Flat(ws)[8 * q + b]
  {
    hide Word, ByteOf, Bits, Flat, FlatBytes;
    var p := 8 * q + b;
    assert p / 8 == q && p % 8 == b;
    BitPlace(p);
    ByteOfBits(ws[q / 4], 3 - q % 4);
    FlatBytesBit(bs, p);
    FlatBit(ws, p);
  }

  /** Bit `p` of a byte string is in byte p / 8, and that in word p / 32. */
  lemma BitPlace(p: nat)
    ensures p / 32 == p / 8 / 4 && p % 32 == 8 * (p / 8 % 4) + p % 8
  {}

  lemma FlatBytesBit(bs: seq<byte>, p: nat)
    requires p < 8 * |bs|
    ensures FlatBytes(bs)[p] == Bits(8, bs[p / 8])[p % 8]
  {
    hide Bits;
  }

  lemma FlatBit(ws: seq<u32>, p: nat)
    requires p < 32 * |ws|
    ensures Flat(ws)[p] == Word(ws[p / 32])[p % 32]
  {
    hide Word;
  }

  /** Left-justified binary form of the first deg+1 coefficients. */
  method Pack(c: array<nat>, deg: nat, genpoly: array<u32>)
    requires deg < c.Length && DivRoundUp(deg + 1, 32) <= genpoly.Length && c as object != genpoly
    modifies genpoly
    ensures Flat(genpoly[..DivRoundUp(deg + 1, 32)])
         == ToBits(c[..deg + 1]) + Zeros(32 * DivRoundUp(deg + 1, 32) - (deg + 1))
  {
    hide Word;
    var n, i := deg + 1, 0;
    ghost var plen := DivRoundUp(deg + 1, 32);
    while n > 0
      invariant 0 <= n <= deg + 1 && 0 <= i <= plen
      invariant n > 0 ==> n == deg + 1 - 32 * i
      invariant n == 0 ==> i == plen
      invariant forall k, b :: 0 <= k < i && 0 <= b < 32 ==>
                  Word(genpoly[k])[b] == (32 * k + b <= deg && c[deg - (32 * k + b)] != 0)
    {
      var nbits := if n > 32 then 32 else n;
      var word := PackWord(c, n, nbits);
      genpoly[i] := word;
      n := n - nbits;
      i := i + 1;
    }
    ghost var flat := Flat(genpoly[..plen]);
    ghost var goal := ToBits(c[..deg + 1]) + Zeros(32 * plen - (deg + 1));
    forall q | 0 <= q < |goal| ensures flat[q] == goal[q] {
      assert q == 32 * (q / 32) + q % 32;
      assert Word(genpoly[q / 32])[q % 32] == (q <= deg && c[deg - q] != 0);
    }
  }

  method PackWord(c: array<nat>, n: nat, nbits: nat) returns (word: u32)
    requires 1 <= nbits <= 32 && nbits <= n <= c.Length
    ensures forall b :: 0 <= b < 32 ==> Word(word)[b] == (b < nbits && c[n - 1 - b] != 0)
  {
    hide Word, Or32, Shl32;
    word := 0;
    WordZero();
    for j := 0 to nbits
      invariant forall b :: 0 <= b < 32 ==> Word(word)[b] == (b < j && c[n - 1 - b] != 0)
    {
      if c[n - 1 - j] != 0 {
        var bit := Shl32(1, 31 - j);
        SingleBit(j, bit);
        forall b | 0 <= b < 32 ensures Word(Or32(word, bit))[b] == (Word(word)[b] || b == j) {
          WordOr(word, bit, b);
        }
        word := Or32(word, bit);
      }
    }
  }

  lemma SingleBit(j: nat, w: u32)
    requires j < 32 && w == Shl32(1, 31 - j)
    ensures forall b :: 0 <= b < 32 ==> Word(w)[b] == (b == j)
  {
    hide Shl32, Word;
    WordShl(1, 31 - j);
    WordOne();
  }

  lemma WordOne()
    ensures Word(1) == Zeros(31) + [true]
  {
    BitsZero(31);
  }

  // ----- facts behind the table loops

  /** Row `k` is filled before the loops reach column `i`, table `b`. */
  predicate Before(k: nat, i: nat, b: nat) {
    k % 256 < i || (k % 256 == i && k / 256 < b)
  }

  lemma BeforeEnds()
    ensures forall k: nat :: !Before(k, 0, 0) && Before(k, 256, 0)
  {}

  lemma BeforeNext(i: nat)
    ensures forall k: nat :: k < 1024 ==> (Before(k, i, 4) <==> Before(k, i + 1, 0))
  {}

  lemma RowNumber(i: nat, b: nat)
    requires i < 256 && b < 4
    ensures var k := 256 * b + i; k % 256 == i && k / 256 == b && k < 1024 && !Before(k, i, b)
    ensures forall k: nat :: Before(k, i, b + 1) <==> Before(k, i, b) || k == 256 * b + i
  {}

  ghost function ShiftedGenerator(gw: seq<u32>, d: nat, ecclen: nat, l: nat): (ws: seq<u32>)
    requires d < 32 && ecclen <= |gw|
    ensures |ws| == l
    ensures forall j :: 0 <= j < l ==> ws[j] == if j < ecclen then GenWord(gw, d, j) else 0
  {
    seq(l, j requires 0 <= j < l && d < 32 && ecclen <= |gw| => if j < ecclen then GenWord(gw, d, j) else 0)
  }

  lemma GenWordIs(gw: seq<u32>, d: nat, j: nat, hi: u32, lo: u32)
    requires d < 32 && j < |gw|
    requires hi == if d < 31 then Shl32(gw[j], d + 1) else 0
    requires lo == if j + 1 < |gw| then Shr32(gw[j + 1], 31 - d) else 0
    ensures GenWord(gw, d, j) == Or32(hi, lo)
  {}

  lemma Xor32Zero(a: u32)
    ensures Xor32(a, 0) == a
  {
    XorZero(a);
  }

  lemma StartRow(row: seq<u32>, taps: seq<bool>, data: u32)
    requires |taps| == 32 * |row| >= 1 && forall j :: 0 <= j < |row| ==> row[j] == 0
    ensures XorBits(Flat(row), Run(taps, Zeros(|taps|), Word(data))) == Run(taps, Zeros(|taps|), Word(data))
  {
    hide Run, Word, Flat;
    FlatZero(row);
  }

  lemma FinishRow(row: seq<u32>, taps: seq<bool>)
    requires |taps| == 32 * |row| >= 1
    ensures XorBits(Flat(row), Run(taps, Zeros(|taps|), Word(0))) == Flat(row)
  {
    hide Run, Word, Flat;
    WordZero();
    RunZero(taps, 32);
  }

  // ----- facts behind the generator loops

  ghost predicate MarkedBy(n: nat, i: nat, j: nat, k: nat) {
    exists j': nat :: j' < j && Reaches(n, i, j', k)
  }

  lemma BoundariesOfMarks(n: nat, m: nat)
    ensures forall k: nat :: !Marked(n, m, 0, k)
  {}

  lemma BoundariesOfMarkedBy(n: nat, i: nat)
    ensures forall k: nat :: !MarkedBy(n, i, 0, k)
  {}

  lemma CosetStart(n: nat, r: nat)
    requires r < n
    ensures Coset(n, r, 0) == r
  {}

  lemma CosetNext(n: nat, r: nat, j: nat)
    requires r < n
    ensures Coset(n, r, j + 1) == ModS(n, 2 * Coset(n, r, j))
  {}

  lemma MarkedByNext(n: nat, i: nat, j: nat, k: nat)
    requires 2 * i + 1 < n
    ensures MarkedBy(n, i, j + 1, k) <==> MarkedBy(n, i, j, k) || k == Coset(n, 2 * i + 1, j)
  {
    hide Coset;
    if MarkedBy(n, i, j + 1, k) {
      var j': nat :| j' < j + 1 && Reaches(n, i, j', k);
      if j' < j { assert MarkedBy(n, i, j, k); }
    }
    if k == Coset(n, 2 * i + 1, j) { assert Reaches(n, i, j, k); }
  }

  lemma MarkedNext(n: nat, m: nat, i: nat, k: nat)
    ensures Marked(n, m, i + 1, k) <==> Marked(n, m, i, k) || MarkedBy(n, i, m, k)
  {
    hide Coset, Reaches;
    if Marked(n, m, i + 1, k) {
      var i': nat, j': nat :| i' < i + 1 && j' < m && Reaches(n, i', j', k);
      if i' < i { assert Marked(n, m, i, k); }
    }
  }

  lemma MarkedListStart(n: nat, m: nat, t: nat)
    ensures MarkedList(n, m, t, 0) == []
  {}

  lemma MarkedListNext(n: nat, m: nat, t: nat, k: nat)
    ensures MarkedList(n, m, t, k + 1)
         == MarkedList(n, m, t, k) + (if Marked(n, m, t, k) then [k] else [])
  {
    hide Marked;
  }

  lemma {:induction false} MarkedListGrows(n: nat, m: nat, t: nat, k: nat, e: nat)
    requires k <= e
    ensures |MarkedList(n, m, t, k)| <= |MarkedList(n, m, t, e)|
    decreases e
  {
    hide Marked;
    if k < e { MarkedListGrows(n, m, t, k, e - 1); }
  }

  /** There is room for one more factor while a marked exponent is left. */
  lemma MarkedCapacity(n: nat, m: nat, t: nat, k: nat)
    requires k < n && Marked(n, m, t, k)
    ensures |MarkedList(n, m, t, k)| < m * t
  {
    hide Marked, MarkedList;
    MarkedListNext(n, m, t, k);
    MarkedListGrows(n, m, t, k + 1, n);
    MarkedCount(n, m, t);
  }

  lemma PowersSnoc(f: Field, es: seq<nat>, e: nat)
    requires f.DegreeOk()
    ensures Powers(f, es + [e]) == Powers(f, es) + [Power(f, e)]
  {
    hide Power;
  }

  lemma TopCoef(f: Field, p: seq<nat>, r: nat)
    requires Primitive(f) && IsPoly(f, p) && f.Elem(r) && p != [] && p[|p| - 1] == 1
    ensures LinCoef(f, p, r, |p|) == 1
  {
    hide Mul, Pow2, NoEarlyOne;
    MulZero(f, r);
    XorZero(1);
  }

  lemma InnerCoef(f: Field, p: seq<nat>, r: nat, j: nat)
    requires Primitive(f) && IsPoly(f, p) && f.Elem(r) && j < |p|
    ensures LinCoef(f, p, r, j) == if j == 0 then Mul(f, p[0], r) else Xor(Mul(f, p[j], r), p[j - 1])
  {
    hide Mul, Xor, Pow2, NoEarlyOne;
    XorZero(Mul(f, p[j], r));
    XorComm(At(p, j - 1), Mul(f, p[j], r));
  }

  lemma OneIsElem(m: nat)
    requires m >= 1
    ensures 1 < Pow2(m)
  {}

  lemma PowerNext(f: Field, i: nat)
    requires f.DegreeOk()
    ensures var x := Power(f, i);
      Power(f, i + 1) == if 2 * x >= Pow2(f.m) then Xor(2 * x, f.poly) else 2 * x
  {
    hide Pow2, Xor;
  }

  lemma NotBefore(f: Field, i: nat)
    requires f.DegreeOk() && i < f.N()
    ensures Primitive(f) ==> forall j :: 0 <= j < i ==> Power(f, j) != Power(f, i)
  {
    hide Primitive, Power;
    if Primitive(f) {
      forall j | 0 <= j < i ensures Power(f, j) != Power(f, i) { PowerDistinct(f, j, i); }
    }
  }

  lemma NoneZero(f: Field)
    requires f.DegreeOk()
    ensures Primitive(f) ==> forall j :: 0 <= j < f.N() ==> Power(f, j) != 0
  {
    hide Primitive, Power;
    if Primitive(f) {
      forall j | 0 <= j < f.N() ensures Power(f, j) != 0 { PowerNonzero(f, j); }
    }
  }

  /** The product of two nonzero elements has the summed logarithm. */
  lemma LogSum(f: Field, a: nat, b: nat)
    requires Primitive(f) && f.Elem(a) && f.Elem(b) && a != 0 && b != 0
    ensures ModS(f.N(), Log(f, a) + Log(f, b)) < f.N()
    ensures Power(f, ModS(f.N(), Log(f, a) + Log(f, b))) == Mul(f, a, b)
  {
    hide Mul, Power, Log, NoEarlyOne, Pow2;
    PowerMul(f, Log(f, a), Log(f, b));
    PowerWrap(f, Log(f, a) + Log(f, b));
  }

  lemma PowerWrap(f: Field, s: nat)
    requires Primitive(f)
    ensures Power(f, ModS(f.N(), s)) == Power(f, s)
  {
    hide Power, NoEarlyOne, Pow2;
    if s >= f.N() { PowerPeriod(f, s - f.N()); }
  }

  // ----- initialisation

  const PRIM_POLY_TAB: seq<u32> :=
    [0x25, 0x43, 0x83, 0x11d, 0x211, 0x409, 0x805, 0x1053, 0x201b, 0x402b, 0x8003]

  /** The parameters `init_bch` accepts. */
  predicate GoodParameters(m: int, t: int) {
    5 <= m <= 15 && t >= 1 && m * t < Pow2(m) - 1
  }

  function ChosenPoly(m: int, primPoly: u32): u32
    requires 5 <= m <= 15
  {
    if primPoly == 0 then PRIM_POLY_TAB[m - 5] else primPoly
  }

  /**
   `init_bch`: returns no structure exactly when the parameters are out of range
   or the polynomial fails the table check, and a structure ready to encode
   otherwise.  The caller provides a polynomial with constant term one, or 0 for
   the default of the field order.
   */
  method InitBch(m: int, t: int, primPoly: u32) returns (bch: BchControl?)
    requires primPoly == 0 || primPoly % 2 == 1
    ensures bch != null <==> GoodParameters(m, t) && Primitive(Field(m, ChosenPoly(m, primPoly)))
    ensures bch != null ==> fresh(bch) && bch.m == m && bch.t == t
    ensures bch != null ==> fresh(bch.aPow) && fresh(bch.aLog) && fresh(bch.mod8) && fresh(bch.eccBuf)
    ensures bch != null ==> bch.Ready(Field(m, ChosenPoly(m, primPoly)))
  {
    hide Pow2, NoEarlyOne, Power, Deg, GeneratorWords, GeneratorBits, Taps;
    if m < 5 || m > 15 { return null; }
    if t < 1 || m * t >= Pow2(m) - 1 { return null; }
    bch := new BchControl(m, t);
    var poly := ChosenPoly(m, primPoly);
    ghost var f := Field(m, poly);
    var ok := bch.BuildGfTables(poly);
    if !ok { return null; }
    SmallT(m, t);
    var genpoly := bch.ComputeGeneratorPolynomial(f);
    GeneratorShape(f, t);
    bch.BuildMod8Tables(genpoly, GeneratorBits(f, t));
  }

  /** Twice the correction capability stays below the code length. */
  lemma SmallT(m: nat, t: nat)
    requires GoodParameters(m, t)
    ensures 2 * t < Pow2(m) - 1
    ensures EccWords(m, t) >= 1 && m * t <= 32 * EccWords(m, t)
  {
    hide Pow2;
    assert m * t >= 5 * t;
  }
}
