/**
 What the checks on an SPL file amount to: the header says eGON.BT0, and the
 stated sum is the seed plus the sum of all other words.
 */
module SplChecksum {
  import opened BitVectors
  import opened Memory
  import opened SplThunk
  import opened SplSession

  /** Sum of the first `k` words, not reduced, leaving out the one that states the sum. */
  ghost function OtherWords(file: seq<byte>, k: nat): nat
    requires 4 * k <= |file|
  {
    if k == 0 then 0 else OtherWords(file, k - 1) + if k - 1 == 3 then 0 else WordAt(file, 4 * (k - 1))
  }

  /** The stated sum, if it is among the first `k` words. */
  ghost function StatedWithin(file: seq<byte>, k: nat): nat
    requires 4 * k <= |file|
  {
    if k <= 3 then 0 else WordAt(file, 12)
  }

  lemma {:induction false} SumSplits(file: seq<byte>, k: nat)
    requires 4 * k <= |file|
    ensures SumWords(file, 0, k) == (OtherWords(file, k) + StatedWithin(file, k)) % TWO32
    decreases k
  {
    hide WordAt;
    if k > 0 {
      SumSplits(file, k - 1);
      AddMod(OtherWords(file, k - 1) + StatedWithin(file, k - 1), WordAt(file, 4 * (k - 1)));
    }
  }

  lemma AddMod(x: nat, w: nat)
    ensures (x % TWO32 + w) % TWO32 == (x + w) % TWO32
  {}

  /**
   The files the host accepts.  For an image that contains its stated sum, the
   sum is that of the seed and all its other words; for a shorter one, seed and words add up to twice the stated sum.
   */
  lemma AcceptableMeans(file: seq<byte>)
    ensures Acceptable(file) <==>
              && |file| >= 32 && Reads(file, 4, "eGON.BT0")
              && var n, stated: nat := WordAt(file, 16), WordAt(file, 12);
                && n <= |file| && n % 4 == 0
                && if n >= 16 then (0x5F0A_6C39 + OtherWords(file, n / 4)) % TWO32 == stated
                   else (0x5F0A_6C39 + OtherWords(file, n / 4)) % TWO32 == (2 * stated) % TWO32
  {
    hide WordAt, SumWords, OtherWords;
    if |file| >= 32 {
      HeaderRead(file);
      var n: nat, stated: nat := WordAt(file, 16), WordAt(file, 12);
      if n <= |file| && n % 4 == 0 {
        SumSplits(file, n / 4);
        Halves(OtherWords(file, n / 4), stated);
      }
    }
  }

  lemma HeaderRead(file: seq<byte>)
    requires |file| >= 32
    ensures file[4..12] == MAGIC <==> Reads(file, 4, "eGON.BT0")
  {
    var x, text := file[4..12], "eGON.BT0";
    if x == MAGIC {
      forall i | 0 <= i < 8 ensures file[4 + i] as char == text[i] { assert file[4 + i] == x[i] == MAGIC[i]; }
    }
    if Reads(file, 4, text) {
      forall i | 0 <= i < 8 ensures x[i] == MAGIC[i] { assert file[4 + i] as char == text[i]; }
    }
  }

  /** Counting the stated sum on both sides. */
  lemma Halves(x: nat, stated: nat)
    requires stated < TWO32
    ensures (CHECKSUM_SEED + (x + stated) % TWO32) % TWO32 == (2 * stated) % TWO32 <==> (CHECKSUM_SEED + x) % TWO32 == stated
    ensures (CHECKSUM_SEED + x % TWO32) % TWO32 == (CHECKSUM_SEED + x) % TWO32
  {
    AddMod(x + stated, CHECKSUM_SEED);
    AddMod(x, CHECKSUM_SEED);
    var y := CHECKSUM_SEED + x;
    Shifted(y, stated);
  }

  lemma Shifted(y: nat, s: nat)
    requires s < TWO32
    ensures (y + s) % TWO32 == (2 * s) % TWO32 <==> y % TWO32 == s
  {
    var r := y % TWO32;
    AddMod(y, s);
    assert (r + s) % TWO32 == if r + s < TWO32 then r + s else r + s - TWO32;
    assert (s + s) % TWO32 == if s + s < TWO32 then s + s else s + s - TWO32;
  }

  /** Two files that agree except in word `j`. */
  predicate DifferAt(a: seq<byte>, b: seq<byte>, j: nat, k: nat)
    requires 4 * k <= |a| && 4 * k <= |b|
  {
    forall i :: 0 <= i < k && i != j ==> WordAt(a, 4 * i) == WordAt(b, 4 * i)
  }

  lemma {:induction false} SumsDiffer(a: seq<byte>, b: seq<byte>, j: nat, k: nat)
    requires 4 * k <= |a| && 4 * k <= |b| && DifferAt(a, b, j, k)
    ensures j >= k || j == 3 ==> OtherWords(a, k) == OtherWords(b, k)
    ensures j < k && j != 3 ==> OtherWords(a, k) + WordAt(b, 4 * j) == OtherWords(b, k) + WordAt(a, 4 * j)
    decreases k
  {
    hide WordAt;
    if k > 0 {
      assert DifferAt(a, b, j, k - 1);
      SumsDiffer(a, b, j, k - 1);
    }
  }

  /** No change of a single word goes unnoticed in an image that contains its stated sum. */
  lemma ChecksumDetects(a: seq<byte>, b: seq<byte>, j: nat)
    requires Acceptable(a) && Acceptable(b) && WordAt(a, 16) == WordAt(b, 16) >= 16
    requires DifferAt(a, b, j, WordAt(a, 16) / 4) && j < WordAt(a, 16) / 4
    ensures WordAt(a, 4 * j) == WordAt(b, 4 * j)
  {
    hide WordAt, OtherWords, DifferAt, Acceptable;
    AcceptableMeans(a);
    AcceptableMeans(b);
    var k := WordAt(a, 16) / 4;
    SumsDiffer(a, b, j, k);
    if j != 3 {
      SameStated(a, b, j, k);
      var v: nat, w: nat := WordAt(a, 4 * j), WordAt(b, 4 * j);
      SameRemainder(0x5F0A_6C39 + OtherWords(a, k), 0x5F0A_6C39 + OtherWords(b, k), v, w);
    }
  }

  lemma SameStated(a: seq<byte>, b: seq<byte>, j: nat, k: nat)
    requires 4 <= k && 4 * k <= |a| && 4 * k <= |b| && DifferAt(a, b, j, k) && j != 3
    ensures WordAt(a, 12) == WordAt(b, 12)
  {
    hide WordAt;
    assert 12 == 4 * 3;
    assert WordAt(a, 4 * 3) == WordAt(b, 4 * 3);
  }

  lemma SameRemainder(x: nat, y: nat, v: nat, w: nat)
    requires x % TWO32 == y % TWO32 && x + w == y + v && v < TWO32 && w < TWO32
    ensures v == w
  {}
}
