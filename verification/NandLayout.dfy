/**
 What a NAND image looks like byte by byte: the numbers behind the names of areas,
 parity lengths and keys.
 */
module NandLayout {
  import opened BitVectors
  import opened Memory
  import opened GaloisField
  import opened NandScrambler
  import opened NandPage
  import opened NandImage
  import B = BchControl

  // ----- numbers

  /** Parity bytes of every strength the program knows. */
  lemma ParityLengths()
    ensures EccLen(16) == 28 && EccLen(24) == 42 && EccLen(28) == 50 && EccLen(32) == 56 && EccLen(40) == 70
    ensures EccLen(48) == 84 && EccLen(56) == 98 && EccLen(60) == 106 && EccLen(64) == 112
  {}

  /** Out-of-band bytes a step takes at each strength: its parity and four spare bytes. */
  function StepRoom(strength: nat): nat {
    match strength
    case 16 => 32
    case 24 => 46
    case 28 => 54
    case 32 => 60
    case 40 => 74
    case 48 => 88
    case 56 => 102
    case 60 => 110
    case 64 => 116
    case _ => 0
  }

  lemma SpareIsRoom(g: Geometry)
    requires g.strength in STRENGTHS
    ensures StepRoom(g.strength) > 0 && Spare(g) == StepRoom(g.strength)
  {
    ParityLengths();
    hide EccLen;
    var k :| 0 <= k < |STRENGTHS| && STRENGTHS[k] == g.strength;
  }

  /** A geometry is accepted exactly if the out-of-band area has room for every step of the page. */
  lemma AcceptedIff(g: Geometry)
    ensures Accepted(g) <==>
              && g.pageSize > 0 && g.eraseblock > 0 && (g.step == 512 || g.step == 1024)
              && StepRoom(g.strength) > 0 && g.pageSize / g.step * StepRoom(g.strength) <= g.oobSize
  {
    hide Spare, StepRoom, STRENGTHS;
    if StepRoom(g.strength) > 0 { Listed(g.strength); }
    if g.strength in STRENGTHS { SpareIsRoom(g); }
  }

  lemma Listed(strength: nat)
    requires StepRoom(strength) > 0
    ensures strength in STRENGTHS
  {
    assert STRENGTHS[0] == 16 && STRENGTHS[1] == 24 && STRENGTHS[2] == 28 && STRENGTHS[3] == 32 && STRENGTHS[4] == 40;
    assert STRENGTHS[5] == 48 && STRENGTHS[6] == 56 && STRENGTHS[7] == 60 && STRENGTHS[8] == 64;
  }

  function Times(n: nat, k: nat): nat {
    n * k
  }

  /** Where the out-of-band bytes of the steps end. */
  function StepsEnd(g: Geometry): nat
    requires g.step > 0
  {
    g.pageSize + Times(g.pageSize / g.step, EccLen(g.strength) + 4)
  }

  /** Where the areas begin and end: data step by step, then spare bytes and parity step by step, then the rest. */
  lemma Places(g: Geometry, j: nat)
    requires Accepted(g)
    ensures From(g, Data(j)) == j * g.step && To(g, Data(j)) == j * g.step + g.step
    ensures From(g, Oob(j)) == g.pageSize + j * (EccLen(g.strength) + 4)
    ensures To(g, Oob(j)) == From(g, Oob(j)) + EccLen(g.strength) + 4
    ensures From(g, Tail) == StepsEnd(g)
    ensures To(g, Tail) == g.pageSize + g.oobSize
  {
    hide EccLen, Off;
    OffIs(j, g.step);
    OffIs(j, Spare(g));
    OffIs(Steps(g), Spare(g));
  }

  // ----- keys

  /** The pages of an erase block use the seeds in order, at most all 128 of them, and start again. */
  lemma PageSeed(g: Geometry, page: nat, q: nat, r: nat)
    requires 0 < g.pageSize <= g.eraseblock && g.scramble
    requires var n := g.eraseblock / g.pageSize;
      if n < 128 then r < n && page == q * n + r else r < 128 && page == 128 * q + r
    ensures r < |SEEDS| && PageMask(g, page) == Seeded(SEEDS[r])
  {
    hide SEEDS;
    var n := g.eraseblock / g.pageSize;
    DivZero(g.eraseblock, g.pageSize);
    SeedCount();
    Remainder(q, if n < 128 then n else 128, r);
  }

  lemma SeedCount()
    ensures |SEEDS| == 128
  {}

  lemma Remainder(q: nat, n: nat, r: nat)
    requires r < n
    ensures (q * n + r) % n == r
  {
    var x := q * n + r;
    var d, m := x / n, x % n;
    assert x == n * d + m && m < n;
    if d < q { Monotone(n, d + 1, q); } else if q < d { Monotone(n, q + 1, d); }
  }

  lemma Monotone(n: nat, a: nat, b: nat)
    requires a <= b
    ensures n * a <= n * b && n * (a - 1) == n * a - n
  {}

  /** Two seeds that give the same first two key bytes are one. */
  lemma KeyTellsSeed(a: u15, b: u15)
    requires Key(a, 0) == Key(b, 0) && Key(a, 1) == Key(b, 1)
    ensures a == b
  {
    hide Key, Stream, Lfsr, Bits, Pow2;
    var x, y := Lfsr(a, 15), Lfsr(b, 15);
    forall i | 0 <= i < 15 ensures Bits(15, x)[i] == Bits(15, y)[i] {
      SameOutput(a, b, 14 - i);
      LfsrStream(a, 15, 14 - i);
      LfsrStream(b, 15, 14 - i);
      StreamStart(x, i);
      StreamStart(y, i);
    }
    Fifteen();
    BitsInjective(15, x, y);
    LfsrInjective(a, b, 15);
  }

  lemma Fifteen()
    ensures Pow2(15) == 0x8000
  {
    ShlFourteen(0);
  }

  lemma SameOutput(a: u15, b: u15, k: nat)
    requires Key(a, 0) == Key(b, 0) && Key(a, 1) == Key(b, 1) && k < 15
    ensures Stream(a, 15 + k) == Stream(b, 15 + k)
  {
    hide Key, Stream, Bits;
    var i, j := k / 8, k % 8;
    KeyIsStream(a, i, j);
    KeyIsStream(b, i, j);
  }

  lemma StreamStart(s: u15, i: nat)
    requires i < 15
    ensures Stream(s, 14 - i) == Bits(15, s)[i]
  {
    hide Bits;
  }

  /** A byte under a page's key. */
  function Cipher(mask: Mask, k: nat, b: byte): byte {
    if mask.Seeded? then XorByte(b, Key(mask.seed, k)) else b
  }

  lemma MaskedAt(mask: Mask, bs: seq<byte>, k: nat)
    requires k < |bs|
    ensures Masked(mask, bs)[k] == Cipher(mask, k, bs[k])
  {
    hide Key, XorByte;
  }

  // ----- pages

  /** The source byte at `i`; behind the end of the file the flash stays erased. */
  function SourceByte(src: seq<byte>, i: nat): byte {
    if i < |src| then src[i] else 0xFF
  }

  /** The page that starts at `p` of the source takes no byte other than 0xFF from it. */
  predicate BlankPageAt(src: seq<byte>, p: nat, n: nat) {
    forall i :: p <= i < p + n ==> SourceByte(src, i) == 0xFF
  }

  lemma BlankPageIs(src: seq<byte>, p: nat, n: nat)
    ensures BlankPageAt(src, p, n) <==> Padded(src, p, n) == Ones(n)
  {
    if BlankPageAt(src, p, n) {
      forall k | 0 <= k < n ensures Padded(src, p, n)[k] == Ones(n)[k] { assert SourceByte(src, p + k) == 0xFF; }
    }
    if Padded(src, p, n) == Ones(n) {
      forall i | p <= i < p + n ensures SourceByte(src, i) == 0xFF { assert Padded(src, p, n)[i - p] == Ones(n)[i - p]; }
    }
  }

  lemma StepOf(g: Geometry, k: nat)
    requires Whole(g) && k < g.pageSize
    ensures k / g.step < Steps(g) && k == k / g.step * g.step + k % g.step && k % g.step < g.step
  {
    if g.step == 512 {} else {}
  }

  /**
   The main area of a written page, byte by byte: the source in order, each step
   under the key from its beginning.
   */
  lemma MainByte(out: seq<byte>, g: Geometry, f: Field, mask: Mask, src: seq<byte>, p: nat, k: nat)
    requires Whole(g) && PageHolds(out, g, f, mask, src, p) && k < g.pageSize
    ensures k < |out|
    ensures out[k] == if BlankPageAt(src, p, g.pageSize) then 0xFF else Cipher(mask, k % g.step, SourceByte(src, p + k))
  {
    hide Steps, Padded, Ones, Cipher, BlankPageAt, Readable, SEEDS, STRENGTHS, EccLen, Off;
    BlankPageIs(src, p, g.pageSize);
    StepOf(g, k);
    if BlankPageAt(src, p, g.pageSize) {
      OnesAt(Total(g), k);
    } else {
      StoredByte(out, g, f, mask, src, p, k / g.step, k % g.step);
    }
  }

  lemma StoredByte(out: seq<byte>, g: Geometry, f: Field, mask: Mask, src: seq<byte>, p: nat, j: nat, c: nat)
    requires Whole(g) && |out| == Total(g) && Readable(out, g, f, mask, src, p) && j < Steps(g) && c < g.step
    ensures j * g.step + c < |out| && out[j * g.step + c] == Cipher(mask, c, SourceByte(src, p + (j * g.step + c)))
  {
    hide Off, Steps, Spare, Masked, Padded, Ones, Cipher, Protects, OobHolds, STRENGTHS, EccLen, Part;
    StepPositive(g);
    assert StepReadable(out, g, f, mask, src, p, j);
    MainByteOf(Part(out, g, Data(j)), g, mask, src, StepPos(g, p, j), c);
    DataPart(out, g, j);
    OffIs(j, g.step);
  }

  lemma DataPart(out: seq<byte>, g: Geometry, j: nat)
    requires Whole(g) && |out| == Total(g) && j < Steps(g)
    ensures j * g.step + g.step <= |out| && Part(out, g, Data(j)) == out[j * g.step..j * g.step + g.step]
  {
    hide Off, Steps, Spare, STRENGTHS, EccLen;
    StepPositive(g);
    AreaInside(g, Data(j));
    Places(g, j);
  }

  lemma MainByteOf(d: seq<byte>, g: Geometry, mask: Mask, src: seq<byte>, q: nat, c: nat)
    requires Masked(mask, d) == Padded(src, q, g.step) && c < g.step
    ensures c < |d| && d[c] == Cipher(mask, c, SourceByte(src, q + c))
  {
    hide Masked, Padded, Cipher;
    MaskedTwice(mask, d);
    MaskedAt(mask, Padded(src, q, g.step), c);
    PaddedAt(src, q, g.step, c);
  }

  lemma OnesAt(n: nat, k: nat)
    requires k < n
    ensures Ones(n)[k] == 0xFF
  {}

  lemma PaddedAt(src: seq<byte>, p: nat, n: nat, k: nat)
    requires k < n
    ensures Padded(src, p, n)[k] == SourceByte(src, p + k)
  {}

  /** Byte `i` behind the main area's step `j`: four spare bytes 0xFF and the parity, under the same key. */
  predicate SpareByte(out: seq<byte>, g: Geometry, mask: Mask, j: nat, ecc: seq<byte>, i: nat) {
    var at := g.pageSize + j * (EccLen(g.strength) + 4) + i;
    i < |ecc| + 4 && at < |out| && out[at] == Cipher(mask, g.step + i, if i < 4 then 0xFF else ecc[i - 4])
  }

  ghost predicate SpareHolds(out: seq<byte>, g: Geometry, mask: Mask, j: nat, ecc: seq<byte>) {
    forall i :: 0 <= i < |ecc| + 4 && (j > 0 || i >= 2) ==> SpareByte(out, g, mask, j, ecc, i)
  }

  lemma SpareBytes(out: seq<byte>, g: Geometry, f: Field, mask: Mask, src: seq<byte>, p: nat, j: nat)
    requires Whole(g) && PageHolds(out, g, f, mask, src, p) && j < Steps(g) && !BlankPageAt(src, p, g.pageSize)
    ensures exists ecc :: |ecc| == EccLen(g.strength)
                          && Protects(f, g.strength, Plain(g, src, p + j * g.step), ecc) && SpareHolds(out, g, mask, j, ecc)
  {
    hide Off, Steps, Spare, Masked, Padded, Ones, Cipher, BlankPageAt, Protects, EccLen, SEEDS, STRENGTHS, SpareHolds, Part;
    StepPositive(g);
    BlankPageIs(src, p, g.pageSize);
    assert StepReadable(out, g, f, mask, src, p, j);
    OffIs(j, g.step);
    var q := StepPos(g, p, j);
    var ecc :| |ecc| == EccLen(g.strength) && Protects(f, g.strength, Plain(g, src, q), ecc)
               && OobHolds(out, g, mask, src, p, j, ecc);
    SpareOf(out, g, mask, src, p, j, ecc);
  }

  lemma SpareOf(out: seq<byte>, g: Geometry, mask: Mask, src: seq<byte>, p: nat, j: nat, ecc: seq<byte>)
    requires Whole(g) && |out| == Total(g) && j < Steps(g) && |ecc| == EccLen(g.strength)
    requires OobHolds(out, g, mask, src, p, j, ecc)
    ensures SpareHolds(out, g, mask, j, ecc)
  {
    hide Off, Steps, Spare, Masked, Padded, Ones, Cipher, EccLen, Whole, Accepted, SEEDS, STRENGTHS;
    StepPositive(g);
    Places(g, j);
    AreaInside(g, Oob(j));
    var q := StepPos(g, p, j);
    forall i | 0 <= i < |ecc| + 4 && (j > 0 || i >= 2) ensures SpareByte(out, g, mask, j, ecc, i) {
      SpareByteOf(Part(out, g, Oob(j)), g, mask, src, q, j, ecc, i);
      assert Part(out, g, Oob(j))[i] == out[From(g, Oob(j)) + i];
    }
  }

  lemma SpareByteOf(o: seq<byte>, g: Geometry, mask: Mask, src: seq<byte>, q: nat, j: nat, ecc: seq<byte>, i: nat)
    requires |ecc| == EccLen(g.strength) && |o| == |ecc| + 4 && i < |o| && (j > 0 || i >= 2)
    requires var s := StepBytes(g, mask, src, q, ecc)[g.step..]; o[2..] == s[2..] && (j > 0 ==> o == s)
    ensures o[i] == Cipher(mask, g.step + i, if i < 4 then 0xFF else ecc[i - 4])
  {
    hide Masked, Padded, Ones, Cipher, EccLen;
    var x := Plain(g, src, q) + ecc;
    var s := Masked(mask, x)[g.step..];
    assert o[i] == s[i] by {
      if j == 0 { assert o[2..][i - 2] == o[i] && s[2..][i - 2] == s[i]; }
    }
    MaskedAt(mask, x, g.step + i);
    if i < 4 { OnesAt(4, i); }
    assert x[g.step + i] == if i < 4 then 0xFF else ecc[i - 4];
  }

  /** What is left of the out-of-band area is 0xFF under the key from its beginning. */
  lemma TailByte(out: seq<byte>, g: Geometry, f: Field, mask: Mask, src: seq<byte>, p: nat, k: nat)
    requires Whole(g) && PageHolds(out, g, f, mask, src, p)
    requires g.step > 0 && StepsEnd(g) + k < g.pageSize + g.oobSize
    ensures StepsEnd(g) + k < |out|
    ensures out[StepsEnd(g) + k] == if BlankPageAt(src, p, g.pageSize) then 0xFF else Cipher(mask, k, 0xFF)
  {
    hide Off, Steps, Spare, Masked, Padded, Ones, Cipher, BlankPageAt, Protects, EccLen, SEEDS, StepReadable, STRENGTHS;
    StepPositive(g);
    BlankPageIs(src, p, g.pageSize);
    Places(g, 0);
    AreaInside(g, Tail);
    var at := From(g, Tail) + k;
    if BlankPageAt(src, p, g.pageSize) {
      OnesAt(Total(g), at);
    } else {
      var t := Part(out, g, Tail);
      assert t[k] == out[at];
      MaskedAt(mask, Ones(|t|), k);
      OnesAt(|t|, k);
    }
  }

  // ----- images

  /** Byte `c` of the main area of page `n`, in the whole image. */
  lemma ImageByte(image: seq<byte>, g: Geometry, f: Field, src: seq<byte>, first: nat, pages: nat, n: nat, c: nat)
    requires Whole(g) && g.step > 0 && ImageHolds(image, g, f, src, first, pages) && n < pages && c < g.pageSize
    ensures var at, from := Times(n, g.pageSize + g.oobSize) + c, Times(n, g.pageSize);
      && at < |image|
      && image[at] == if BlankPageAt(src, from, g.pageSize) then 0xFF
                      else Cipher(PageMask(g, first + n), c % g.step, SourceByte(src, from + c))
  {
    hide Off, PageHolds, PageMask, Cipher, BlankPageAt, Whole;
    PagePositive(g);
    InImage(image, g, f, src, first, pages, n);
    OffIs(n, Total(g));
    OffIs(n, g.pageSize);
    MainByte(PageAt(image, g, n), g, f, PageMask(g, first + n), src, Off(n, g.pageSize), c);
  }

  /** And its bad block marker, never set. */
  lemma ImageMarker(image: seq<byte>, g: Geometry, f: Field, src: seq<byte>, first: nat, pages: nat, n: nat)
    requires Whole(g) && ImageHolds(image, g, f, src, first, pages) && n < pages
    ensures var at := Times(n, g.pageSize + g.oobSize) + g.pageSize;
      at + 2 <= |image| && image[at] == 0xFF && image[at + 1] == 0xFF
  {
    hide Off, PageMask, Readable, Padded, Ones, Whole;
    PagePositive(g);
    InImage(image, g, f, src, first, pages, n);
    OffIs(n, Total(g));
  }

  lemma InImage(image: seq<byte>, g: Geometry, f: Field, src: seq<byte>, first: nat, pages: nat, n: nat)
    requires Whole(g) && g.pageSize > 0 && ImageHolds(image, g, f, src, first, pages) && n < pages
    ensures Off(n, Total(g)) + Total(g) <= |image|
    ensures PageHolds(PageAt(image, g, n), g, f, PageMask(g, first + n), src, Off(n, g.pageSize))
  {
    hide Off, PageHolds, PageMask, Whole;
    OffMono(n, pages, Total(g));
  }
}
