/**
 How the remainder tables are filled: instead of shifting the register, the
 generator is shifted under the highest set bit of the data word and subtracted
 until nothing of the data word is left.
 */
module Reduction {
  import opened BitVectors
  import opened Words
  import opened Gf2Poly

  /** Index of the most significant set bit; what `fls` minus one computes. */
  function Deg(x: nat): (d: nat)
    requires x > 0
    ensures Pow2(d) <= x < Pow2(d + 1)
  {
    if x == 1 then 0 else 1 + Deg(x / 2)
  }

  lemma {:induction false} DegUnique(x: nat, d: nat)
    requires Pow2(d) <= x < Pow2(d + 1)
    ensures x > 0 && Deg(x) == d
  {
    if d > 0 { DegUnique(x / 2, d - 1); }
  }

  /** Generator words: the coefficients left-justified, zero-padded. */
  ghost predicate GeneratorWords(gw: seq<u32>, g: seq<bool>) {
    && IsGenerator(g)
    && |gw| == (|g| + 31) / 32
    && Flat(gw) == g + Zeros(32 * |gw| - |g|)
  }

  /** The feedback taps of a register of `l` words. */
  function Taps(g: seq<bool>, l: nat): (r: seq<bool>)
    requires IsGenerator(g) && |g| - 1 <= 32 * l
    ensures |r| == 32 * l
  {
    g[1..] + Zeros(32 * l - (|g| - 1))
  }

  /** Word `j` of the generator shifted so that its top bit falls off at bit `d`. */
  function GenWord(gw: seq<u32>, d: nat, j: nat): u32
    requires d < 32 && j < |gw|
  {
    Or32(if d < 31 then Shl32(gw[j], d + 1) else 0,
         if j + 1 < |gw| then Shr32(gw[j + 1], 31 - d) else 0)
  }

  lemma GenWordBit(gw: seq<u32>, d: nat, j: nat, b: nat)
    requires d < 32 && j < |gw| && b < 32
    ensures Word(GenWord(gw, d, j))[b]
         == (32 * j + d + 1 + b < 32 * |gw| && Flat(gw)[32 * j + d + 1 + b])
  {
    hide Word, Or32, Shl32, Shr32, Flat;
    var hi := if d < 31 then Shl32(gw[j], d + 1) else 0;
    var lo := if j + 1 < |gw| then Shr32(gw[j + 1], 31 - d) else 0;
    WordOr(hi, lo, b);
    WordShl(gw[j], d + 1);
    WordZero();
    if j + 1 < |gw| { WordShr(gw[j + 1], 31 - d); }
    if b < 31 - d {
      FlatAt(gw, j, d + 1 + b);
    } else if j + 1 < |gw| {
      FlatAt(gw, j + 1, b - (31 - d));
    }
  }

  /** The subtracted words are the taps shifted left by `d`. */
  lemma GenWordsAreTaps(gw: seq<u32>, g: seq<bool>, l: nat, d: nat, ws: seq<u32>)
    requires GeneratorWords(gw, g) && |g| - 1 <= 32 * l && |ws| == l && d < 32
    requires forall j :: 0 <= j < l ==> ws[j] == if j < (|g| + 30) / 32 then GenWord(gw, d, j) else 0
    ensures d <= 32 * l && Flat(ws) == Taps(g, l)[d..] + Zeros(d)
  {
    hide Word, GenWord;
    var r := Taps(g, l)[d..] + Zeros(d);
    forall q | 0 <= q < |r| ensures Flat(ws)[q] == r[q] {
      var j, b := q / 32, q % 32;
      if j < (|g| + 30) / 32 {
        GenWordBit(gw, d, j, b);
        assert 32 * j + d + 1 + b == q + d + 1;
      } else {
        WordZero();
      }
    }
  }

  lemma TopWord(gw: seq<u32>, g: seq<bool>, l: nat, d: nat)
    requires GeneratorWords(gw, g) && |g| - 1 <= 32 * l && d < 32
    ensures Word(Shr32(gw[0], 31 - d)) == Zeros(31 - d) + ([true] + Taps(g, l)[..d])
  {
    hide Word, Shr32, Flat;
    WordShr(gw[0], 31 - d);
    FlatSlice(gw, 0);
    var s := g + Zeros(32 * |gw| - |g|);
    assert Word(gw[0])[..d + 1] == s[..d + 1];
    assert s[..d + 1] == [true] + Taps(g, l)[..d];
  }

  /** The top set bit of the data word is cancelled. */
  lemma {:induction false} ShrTop(x: nat, k: nat, j: nat)
    requires j <= k && Pow2(k) <= x < Pow2(k + 1)
    ensures Pow2(k - j) <= Shr(x, j) < Pow2(k - j + 1)
    decreases j
  {
    if j > 0 { ShrTop(x / 2, k - 1, j - 1); }
  }

  lemma TopBitSet(w: u32)
    requires Word(w)[0]
    ensures Pow2(31) <= w < Pow2(32)
  {
    Pow2Values();
    if w < Pow2(31) { BitsPad(31, w); }
  }

  lemma DataShrinks(w: u32, data: u32)
    requires data > 0 && Deg(data) < 32 && Word(w)[0]
    ensures Xor32(data, Shr32(w, 31 - Deg(data))) < Pow2(Deg(data)) <= data
  {
    TopBitSet(w);
    ShrTop(w, 31, 31 - Deg(data));
    XorTop(data, Shr(w, 31 - Deg(data)), Deg(data));
  }

  lemma DegBelow32(data: u32)
    requires data > 0
    ensures Deg(data) < 32
  {
    Pow2Values();
    if Deg(data) >= 32 { Pow2Mono(32, Deg(data)); }
  }

  /** What one subtraction keeps: row plus remainder of the rest of the data. */
  lemma ReduceStep(gw: seq<u32>, g: seq<bool>, l: nat, data: u32, row: seq<u32>, ws: seq<u32>, row': seq<u32>)
    requires GeneratorWords(gw, g) && |g| - 1 <= 32 * l && data > 0 && Deg(data) < 32
    requires |row| == |ws| == |row'| == l
    requires forall j :: 0 <= j < l ==> ws[j] == if j < (|g| + 30) / 32 then GenWord(gw, Deg(data), j) else 0
    requires forall j :: 0 <= j < l ==> row'[j] == Xor32(row[j], ws[j])
    ensures var taps, data' := Taps(g, l), Xor32(data, Shr32(gw[0], 31 - Deg(data)));
            && data' < data
            && XorBits(Flat(row'), Run(taps, Zeros(32 * l), Word(data')))
            == XorBits(Flat(row), Run(taps, Zeros(32 * l), Word(data)))
  {
    hide Word, Shr32, Flat, Run, Xor32, GenWord, Deg, Taps;
    var d, taps, z := Deg(data), Taps(g, l), Zeros(32 * l);
    var sub := Shr32(gw[0], 31 - d);
    FlatSlice(gw, 0);
    DataShrinks(gw[0], data);
    GenWordsAreTaps(gw, g, l, d, ws);
    FlatXor(row, ws, row');
    TopWord(gw, g, l, d);
    RunTaps(taps, 31 - d, d);
    WordXor(data, sub);
    RunLinear(taps, z, Word(data), z, Word(sub));
    assert XorBits(z, z) == z;
  }
}
