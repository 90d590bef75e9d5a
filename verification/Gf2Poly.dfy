/**
 Polynomials over GF(2) as bit sequences, most significant coefficient first,
 and division by a fixed generator one bit at a time.

 `Parity` is the plain long division that every faster form of the encoder has
 to agree with; `Times` is the polynomial product that says what it means.
 */
module Gf2Poly {
  import opened BitVectors

  /** A generator polynomial: leading coefficient one and degree at least one. */
  predicate IsGenerator(g: seq<bool>) {
    |g| >= 2 && g[0]
  }

  /** Product of two polynomials, schoolbook, one bit of `q` at a time. */
  function Times(q: seq<bool>, g: seq<bool>): (r: seq<bool>)
    requires |g| >= 1
    ensures |r| == |q| + |g| - 1
  {
    if q == [] then Zeros(|g| - 1)
    else
      var n := |q| - 1;
      XorBits(Times(q[..n], g) + [false], Zeros(n) + (if q[n] then g else Zeros(|g|)))
  }

  // ----- the shift register

  /** One division step: shift in a zero, subtract the taps on feedback. */
  function Step(taps: seq<bool>, s: seq<bool>, b: bool): (r: seq<bool>)
    requires |s| == |taps| >= 1
    ensures |r| == |s|
  {
    XorBits(s[1..] + [false], if s[0] != b then taps else Zeros(|taps|))
  }

  function Run(taps: seq<bool>, s: seq<bool>, data: seq<bool>): (r: seq<bool>)
    requires |s| == |taps| >= 1
    ensures |r| == |s|
  {
    if data == [] then s
    else Step(taps, Run(taps, s, data[..|data| - 1]), data[|data| - 1])
  }

  /** The remainder of `data * X^d` by `g`, where `d` is the degree of `g`. */
  function Parity(g: seq<bool>, data: seq<bool>): (r: seq<bool>)
    requires IsGenerator(g)
    ensures |r| == |g| - 1
  {
    Run(g[1..], Zeros(|g| - 1), data)
  }

  function Quotient(g: seq<bool>, data: seq<bool>): (q: seq<bool>)
    requires IsGenerator(g)
    ensures |q| == |data|
  {
    if data == [] then []
    else
      var n := |data| - 1;
      Quotient(g, data[..n]) + [Parity(g, data[..n])[0] != data[n]]
  }

  // ----- unfolding by one bit

  lemma RunSnoc(taps: seq<bool>, s: seq<bool>, d: seq<bool>, b: bool)
    requires |s| == |taps| >= 1
    ensures Run(taps, s, []) == s
    ensures Run(taps, s, d + [b]) == Step(taps, Run(taps, s, d), b)
  {
    hide Step;
    assert (d + [b])[..|d + [b]| - 1] == d;
  }

  lemma TimesSnoc(g: seq<bool>, q: seq<bool>, b: bool)
    requires |g| >= 1
    ensures Times([], g) == Zeros(|g| - 1)
    ensures Times(q + [b], g)
         == XorBits(Times(q, g) + [false], Zeros(|q|) + (if b then g else Zeros(|g|)))
  {
    assert (q + [b])[..|q + [b]| - 1] == q;
  }

  lemma QuotientSnoc(g: seq<bool>, d: seq<bool>, b: bool)
    requires IsGenerator(g)
    ensures Quotient(g, d + [b]) == Quotient(g, d) + [Parity(g, d)[0] != b]
  {
    hide Run;
    assert (d + [b])[..|d + [b]| - 1] == d;
  }

  /** Data followed by its parity is a multiple of the generator. */
  lemma {:induction false} CodewordIsMultiple(g: seq<bool>, data: seq<bool>)
    requires IsGenerator(g)
    ensures data + Parity(g, data) == Times(Quotient(g, data), g)
    decreases |data|, 1
  {
    hide Run, Step, Times, Quotient;
    TimesSnoc(g, [], true);
    if data == [] {
      RunSnoc(g[1..], Zeros(|g| - 1), [], true);
      assert data + Parity(g, data) == Zeros(|g| - 1);
    } else {
      assert data == data[..|data| - 1] + [data[|data| - 1]];
      CodewordStep(g, data[..|data| - 1], data[|data| - 1]);
    }
  }

  lemma {:induction false} CodewordStep(g: seq<bool>, d: seq<bool>, b: bool)
    requires IsGenerator(g)
    ensures (d + [b]) + Parity(g, d + [b]) == Times(Quotient(g, d + [b]), g)
    decreases |d| + 1, 0
  {
    hide Run, Step, Times, Quotient;
    CodewordIsMultiple(g, d);
    var q, r := Quotient(g, d), Parity(g, d);
    var fb := r[0] != b;
    RunSnoc(g[1..], Zeros(|g| - 1), d, b);
    QuotientSnoc(g, d, b);
    TimesSnoc(g, q, fb);
    TimesStep(g, d, b, r, fb, Times(q, g));
  }

  lemma TimesStep(g: seq<bool>, d: seq<bool>, b: bool, r: seq<bool>, fb: bool, t: seq<bool>)
    requires IsGenerator(g) && |r| == |g| - 1
    requires t == d + r && fb == (r[0] != b)
    ensures XorBits(t + [false], Zeros(|d|) + (if fb then g else Zeros(|g|))) == d + [b] + Step(g[1..], r, b)
  {
    var x := t + [false];
    var y := Zeros(|d|) + (if fb then g else Zeros(|g|));
    var z := d + [b] + Step(g[1..], r, b);
    forall i | 0 <= i < |z| ensures z[i] == (x[i] != y[i]) {
      if i < |d| {
        assert x[i] == d[i];
      } else if i == |d| {
        assert x[i] == r[0];
      } else {
        assert x[i] == (r[1..] + [false])[i - |d| - 1];
      }
    }
  }

  /** Any way of completing `data` to a multiple of `g` is this parity. */
  lemma {:induction false} ParityUnique(g: seq<bool>, data: seq<bool>, r: seq<bool>, q: seq<bool>)
    requires IsGenerator(g) && |q| == |data| && |r| == |g| - 1
    requires data + r == Times(q, g)
    ensures q == Quotient(g, data) && r == Parity(g, data)
    decreases |data|
  {
    hide Run, Step, Times, Quotient;
    if data == [] {
      RunSnoc(g[1..], Zeros(|g| - 1), [], true);
      TimesSnoc(g, [], true);
      assert r == data + r;
    } else {
      var n := |data| - 1;
      var d, t := data[..n], Times(q[..n], g);
      assert q == q[..n] + [q[n]] && data == d + [data[n]];
      TimesSnoc(g, q[..n], q[n]);
      forall i | 0 <= i < n ensures t[i] == d[i] {
        assert (data + r)[i] == d[i];
      }
      assert t == d + t[n..];
      ParityUnique(g, d, t[n..], q[..n]);
      QuotientSnoc(g, d, data[n]);
      assert (data + r)[n] == data[n];
      assert q[n] == (t[n] != data[n]);
      CodewordIsMultiple(g, data);
      assert r == (data + r)[|data|..];
    }
  }

  // ----- running the register in pieces

  lemma {:induction false} RunConcat(taps: seq<bool>, s: seq<bool>, a: seq<bool>, b: seq<bool>)
    requires |s| == |taps| >= 1
    ensures Run(taps, s, a + b) == Run(taps, Run(taps, s, a), b)
    decreases |b|
  {
    hide Run, Step;
    if b == [] {
      assert a + b == a;
      RunSnoc(taps, Run(taps, s, a), [], true);
    } else {
      var n := |b| - 1;
      RunConcat(taps, s, a, b[..n]);
      RunSnoc(taps, s, a + b[..n], b[n]);
      RunSnoc(taps, Run(taps, s, a), b[..n], b[n]);
      assert a + b == (a + b[..n]) + [b[n]];
      assert b == b[..n] + [b[n]];
    }
  }

  lemma StepLinear(taps: seq<bool>, s: seq<bool>, b: bool, s': seq<bool>, b': bool)
    requires |s| == |s'| == |taps| >= 1
    ensures Step(taps, XorBits(s, s'), b != b') == XorBits(Step(taps, s, b), Step(taps, s', b'))
  {
    assert XorBits(s, s')[1..] + [false] == XorBits(s[1..] + [false], s'[1..] + [false]);
  }

  lemma {:induction false} RunLinear(taps: seq<bool>, s: seq<bool>, a: seq<bool>, s': seq<bool>, a': seq<bool>)
    requires |s| == |s'| == |taps| >= 1 && |a| == |a'|
    ensures Run(taps, XorBits(s, s'), XorBits(a, a')) == XorBits(Run(taps, s, a), Run(taps, s', a'))
    decreases |a|
  {
    hide Step;
    if a != [] {
      var n := |a| - 1;
      RunLinear(taps, s, a[..n], s', a'[..n]);
      assert XorBits(a, a')[..n] == XorBits(a[..n], a'[..n]);
      StepLinear(taps, Run(taps, s, a[..n]), a[n], Run(taps, s', a'[..n]), a'[n]);
    }
  }

  lemma StepZero(taps: seq<bool>)
    requires |taps| >= 1
    ensures Step(taps, Zeros(|taps|), false) == Zeros(|taps|)
    ensures Step(taps, Zeros(|taps|), true) == taps
  {}

  lemma {:induction false} RunZero(taps: seq<bool>, k: nat)
    requires |taps| >= 1
    ensures Run(taps, Zeros(|taps|), Zeros(k)) == Zeros(|taps|)
  {
    hide Run, Step;
    if k == 0 {
      RunSnoc(taps, Zeros(|taps|), [], true);
      assert Zeros(0) == [];
    } else {
      RunZero(taps, k - 1);
      assert Zeros(k) == Zeros(k - 1) + [false];
      RunSnoc(taps, Zeros(|taps|), Zeros(k - 1), false);
      StepZero(taps);
    }
  }

  /**
   Consuming `k` input bits shifts the register by `k` and adds the remainder of
   the `k` bits leaving it, exclusive-or the input: the identity behind every
   table-driven step.
   */
  lemma {:induction false} RunShift(taps: seq<bool>, s: seq<bool>, a: seq<bool>)
    requires |s| == |taps| >= 1 && |a| <= |s|
    ensures Run(taps, s, a)
         == XorBits(s[|a|..] + Zeros(|a|), Run(taps, Zeros(|s|), XorBits(s[..|a|], a)))
    decreases |a|
  {
    hide Run, Step;
    var w, k := |s|, |a|;
    if k == 0 {
      RunSnoc(taps, s, [], true);
      RunSnoc(taps, Zeros(w), [], true);
      assert a == [] && XorBits(s[..0], a) == [];
    } else {
      var n := k - 1;
      var x, y := s[n..] + Zeros(n), XorBits(s[..k], a);
      RunShift(taps, s, a[..n]);
      assert y[..n] == XorBits(s[..n], a[..n]);
      RunSnoc(taps, s, a[..n], a[n]);
      assert a == a[..n] + [a[n]];
      RunSnoc(taps, Zeros(w), y[..n], y[n]);
      assert y == y[..n] + [y[n]];
      StepLinear(taps, x, s[n], Run(taps, Zeros(w), y[..n]), y[n]);
      StepNoFeedback(taps, x, s[n]);
      assert x[1..] + [false] == s[k..] + Zeros(k);
    }
  }

  lemma StepNoFeedback(taps: seq<bool>, s: seq<bool>, b: bool)
    requires |s| == |taps| >= 1 && s[0] == b
    ensures Step(taps, s, b) == s[1..] + [false]
  {}

  /** Feeding the generator's own top bits leaves its remaining coefficients. */
  lemma RunTaps(taps: seq<bool>, p: nat, k: nat)
    requires 1 <= |taps| && k <= |taps|
    ensures Run(taps, Zeros(|taps|), Zeros(p) + ([true] + taps[..k])) == taps[k..] + Zeros(k)
  {
    hide Run, Step, XorBits, Zeros;
    var w := |taps|;
    RunConcat(taps, Zeros(w), Zeros(p), [true] + taps[..k]);
    RunZero(taps, p);
    RunConcat(taps, Zeros(w), [true], taps[..k]);
    RunSnoc(taps, Zeros(w), [], true);
    assert [] + [true] == [true];
    StepZero(taps);
    RunShift(taps, taps, taps[..k]);
    XorBitsSelf(taps[..k]);
    RunZero(taps, k);
    XorBitsZero(taps[k..] + Zeros(k));
  }

  /** A register padded with `e` unused low positions keeps them zero. */
  lemma {:induction false} RunPad(taps: seq<bool>, s: seq<bool>, e: nat, data: seq<bool>)
    requires |s| == |taps| >= 1
    ensures Run(taps + Zeros(e), s + Zeros(e), data) == Run(taps, s, data) + Zeros(e)
    decreases |data|
  {
    hide Step;
    if data != [] {
      var n := |data| - 1;
      RunPad(taps, s, e, data[..n]);
      StepPad(taps, Run(taps, s, data[..n]), e, data[n]);
    }
  }

  lemma StepPad(taps: seq<bool>, s: seq<bool>, e: nat, b: bool)
    requires |s| == |taps| >= 1
    ensures Step(taps + Zeros(e), s + Zeros(e), b) == Step(taps, s, b) + Zeros(e)
  {
    assert (s + Zeros(e))[1..] + [false] == s[1..] + [false] + Zeros(e);
  }
}
