/**
 Building raw NAND pages: every ECC step becomes data in the main area and spare
 bytes plus parity in the out-of-band area, all scrambled.
 */
module NandPage {
  import opened BitVectors
  import opened Words
  import opened Memory
  import opened Gf2Poly
  import opened GaloisField
  import opened Codeword
  import opened NandScrambler
  import B = BchControl

  /** The geometry of an ordinary image, whose usable page is the whole page. */
  datatype Geometry = Geometry(pageSize: nat, oobSize: nat, eraseblock: nat, step: nat, strength: nat, scramble: bool)

  const STRENGTHS: seq<nat> := [16, 24, 28, 32, 40, 48, 56, 60, 64]

  /** Parity bytes of a step, rounded to an even number. */
  function EccLen(strength: nat): (r: nat)
    ensures r >= B.EccBytes(14, strength)
  {
    var e := B.EccBytes(14, strength);
    if e % 2 == 1 then e + 1 else e
  }

  /** Out-of-band bytes of one step: four spare bytes and the parity. */
  function Spare(g: Geometry): nat {
    EccLen(g.strength) + 4
  }

  function Steps(g: Geometry): nat
    requires g.step > 0
  {
    g.pageSize / g.step
  }

  /** What `check_image_info` accepts. */
  predicate Accepted(g: Geometry) {
    && g.pageSize != 0 && g.eraseblock != 0
    && (g.step == 512 || g.step == 1024) && g.strength in STRENGTHS
    && g.pageSize + g.oobSize >= g.pageSize + Steps(g) * Spare(g)
  }

  /** `check_image_info`, for an ordinary image. */
  method CheckImageInfo(g: Geometry) returns (ok: bool)
    ensures ok <==> Accepted(g)
  {
    hide EccLen;
    if g.pageSize == 0 || g.eraseblock == 0 { return false; }
    if g.step != 512 && g.step != 1024 { return false; }
    var i := 0;
    while i < |STRENGTHS| && STRENGTHS[i] != g.strength
      invariant i <= |STRENGTHS| && forall k :: 0 <= k < i ==> STRENGTHS[k] != g.strength
    {
      i := i + 1;
    }
    if i == |STRENGTHS| { return false; }
    ok := g.pageSize + g.oobSize >= g.pageSize + Steps(g) * Spare(g);
  }

  /** `i * n`, the offset of the `i`-th of several areas of one size. */
  function Off(i: nat, n: nat): nat {
    if i == 0 then 0 else Off(i - 1, n) + n
  }

  lemma {:induction false} OffIs(i: nat, n: nat)
    ensures Off(i, n) == i * n
    decreases i
  {
    if i > 0 { OffIs(i - 1, n); }
  }

  lemma OffNext(i: nat, n: nat)
    ensures Off(i + 1, n) == Off(i, n) + n && Off(0, n) == 0
  {}

  lemma {:induction false} OffMono(i: nat, j: nat, n: nat)
    requires i < j
    ensures Off(i, n) + n <= Off(j, n)
    decreases j
  {
    if i < j - 1 { OffMono(i, j - 1, n); }
  }

  // ----- the areas of a page

  datatype Area = Data(i: nat) | Oob(i: nat) | Tail

  predicate HasArea(g: Geometry, a: Area)
    requires g.step > 0
  {
    a.Tail? || a.i < Steps(g)
  }

  function From(g: Geometry, a: Area): nat
    requires g.step > 0
  {
    match a
    case Data(i) => Off(i, g.step)
    case Oob(i) => g.pageSize + Off(i, Spare(g))
    case Tail => g.pageSize + Off(Steps(g), Spare(g))
  }

  function To(g: Geometry, a: Area): nat
    requires g.step > 0
  {
    match a
    case Data(i) => Off(i, g.step) + g.step
    case Oob(i) => g.pageSize + Off(i, Spare(g)) + Spare(g)
    case Tail => g.pageSize + g.oobSize
  }

  /** A geometry the writer handles without leftover: whole steps per page. */
  predicate Whole(g: Geometry) {
    Accepted(g) && g.pageSize % g.step == 0
  }

  lemma StepPositive(g: Geometry)
    requires Whole(g)
    ensures g.step > 0 && Accepted(g)
  {}

  lemma StepsFill(g: Geometry)
    requires Whole(g)
    ensures Off(Steps(g), g.step) == g.pageSize && Steps(g) > 0
    ensures g.pageSize + Off(Steps(g), Spare(g)) <= g.pageSize + g.oobSize
  {
    OffIs(Steps(g), g.step);
    OffIs(Steps(g), Spare(g));
    if g.step == 512 {} else {}
  }

  /** The steps fit into the page, and their out-of-band bytes behind it. */
  lemma StepsFit(g: Geometry)
    requires Accepted(g)
    ensures Off(Steps(g), g.step) <= g.pageSize
    ensures g.pageSize + Off(Steps(g), Spare(g)) <= g.pageSize + g.oobSize
  {
    OffIs(Steps(g), g.step);
    OffIs(Steps(g), Spare(g));
    if g.step == 512 {} else {}
  }

  lemma AreaInside(g: Geometry, a: Area)
    requires Accepted(g) && HasArea(g, a)
    ensures From(g, a) <= To(g, a) <= g.pageSize + g.oobSize
    ensures a.Data? ==> To(g, a) <= g.pageSize
    ensures a.Oob? ==> g.pageSize <= From(g, a) && To(g, a) <= From(g, Tail)
  {
    hide Off, Spare;
    StepsFit(g);
    match a
    case Data(i) => OffMono(i, Steps(g), g.step);
    case Oob(i) => OffMono(i, Steps(g), Spare(g));
    case Tail =>
  }

  /** No two areas of a page share a byte. */
  lemma AreasApart(g: Geometry, a: Area, b: Area)
    requires Accepted(g) && HasArea(g, a) && HasArea(g, b) && a != b
    ensures To(g, a) <= From(g, b) || To(g, b) <= From(g, a)
  {
    hide Off, Spare;
    AreaInside(g, a);
    AreaInside(g, b);
    if a.Data? && b.Data? {
      if a.i < b.i { OffMono(a.i, b.i, g.step); } else { OffMono(b.i, a.i, g.step); }
    } else if a.Oob? && b.Oob? {
      if a.i < b.i { OffMono(a.i, b.i, Spare(g)); } else { OffMono(b.i, a.i, Spare(g)); }
    }
  }

  // ----- the key of a page

  type Seed = x: u15 | x != 0 witness 1

  const SEEDS: seq<Seed> := [
    0x2b75, 0x0bd0, 0x5ca3, 0x62d1, 0x1c93, 0x07e9, 0x2162, 0x3a72,
    0x0d67, 0x67f9, 0x1be7, 0x077d, 0x032f, 0x0dac, 0x2716, 0x2436,
    0x7922, 0x1510, 0x3860, 0x5287, 0x480f, 0x4252, 0x1789, 0x5a2d,
    0x2a49, 0x5e10, 0x437f, 0x4b4e, 0x2f45, 0x216e, 0x5cb7, 0x7130] + [
    0x2a3f, 0x60e4, 0x4dc9, 0x0ef0, 0x0f52, 0x1bb9, 0x6211, 0x7a56,
    0x226d, 0x4ea7, 0x6f36, 0x3692, 0x38bf, 0x0c62, 0x05eb, 0x4c55,
    0x60f4, 0x728c, 0x3b6f, 0x2037, 0x7f69, 0x0936, 0x651a, 0x4ceb,
    0x6218, 0x79f3, 0x383f, 0x18d9, 0x4f05, 0x5c82, 0x2912, 0x6f17] + [
    0x6856, 0x5938, 0x1007, 0x61ab, 0x3e7f, 0x57c2, 0x542f, 0x4f62,
    0x7454, 0x2eac, 0x7739, 0x42d4, 0x2f90, 0x435a, 0x2e52, 0x2064,
    0x637c, 0x66ad, 0x2c90, 0x0bad, 0x759c, 0x0029, 0x0986, 0x7126,
    0x1ca7, 0x1605, 0x386a, 0x27f5, 0x1380, 0x6d75, 0x24c3, 0x0f8e] + [
    0x2b7a, 0x1418, 0x1fd1, 0x7dc1, 0x2d8e, 0x43af, 0x2267, 0x7da3,
    0x4e3d, 0x1338, 0x50db, 0x454d, 0x764d, 0x40a3, 0x42e6, 0x262b,
    0x2d2e, 0x1aea, 0x2e17, 0x173d, 0x3a6e, 0x71bf, 0x25f9, 0x0a5d,
    0x7c57, 0x0fbe, 0x46ce, 0x4939, 0x6b17, 0x37bb, 0x3e91, 0x76db]

  /** How a page is scrambled; `NoSeed` is the division by zero in choosing the seed. */
  datatype Mask = Clear | Seeded(seed: Seed) | NoSeed

  function SeedOf(n: nat, page: nat): Seed
    requires n > 0
  {
    SEEDS[page % (if n > |SEEDS| then |SEEDS| else n)]
  }

  lemma DivZero(a: nat, b: nat)
    requires b > 0
    ensures a / b == 0 <==> a < b
  {}

  function PageMask(g: Geometry, page: nat): (m: Mask)
    requires 0 < g.pageSize
    ensures m.Clear? <==> !g.scramble
    ensures m.NoSeed? <==> g.scramble && g.eraseblock < g.pageSize
  {
    if !g.scramble then Clear
    else
      DivZero(g.eraseblock, g.pageSize);
      var n := g.eraseblock / g.pageSize;
      if n == 0 then NoSeed else Seeded(SeedOf(n, page))
  }

  /** A geometry that is accepted although no page with data can be written with it. */
  lemma NoSeedExample(page: nat)
    ensures Accepted(Geometry(2048, 2048, 1024, 1024, 16, true)) && PageMask(Geometry(2048, 2048, 1024, 1024, 16, true), page).NoSeed?
  {}

  function Masked(m: Mask, bs: seq<byte>): (r: seq<byte>)
    ensures |r| == |bs|
  {
    if m.Seeded? then Scrambled(m.seed, bs) else bs
  }

  lemma MaskedTwice(m: Mask, bs: seq<byte>)
    ensures Masked(m, Masked(m, bs)) == bs
  {
    hide Scrambled;
    if m.Seeded? { ScrambleTwice(m.seed, bs); }
  }

  lemma MaskedPrefix(m: Mask, bs: seq<byte>, n: nat)
    requires n <= |bs|
    ensures Masked(m, bs)[..n] == Masked(m, bs[..n])
  {
    hide Scrambled;
    if m.Seeded? { ScramblePrefix(m.seed, bs, n); }
  }

  method Scramble(buf: array<byte>, a: nat, n: nat, m: Mask)
    requires a + n <= buf.Length
    modifies buf
    ensures buf[..] == Put(old(buf[..]), a, Masked(m, old(buf[a..a + n])))
  {
    hide Scrambled;
    if m.Seeded? {
      ScrambleBytes(buf, a, n, m.seed);
    } else {
      PutSame(buf[..], a, n);
    }
  }

  lemma PutSame(b: seq<byte>, a: nat, n: nat)
    requires a + n <= |b|
    ensures Put(b, a, b[a..a + n]) == b
  {}

  // ----- one ECC step

  function Ones(k: nat): (r: seq<byte>)
    ensures |r| == k
    ensures forall i :: 0 <= i < k ==> r[i] == 0xFF
  {
    seq(k, i => 0xFF)
  }

  /** `n` bytes of the source from `p`, filled up with 0xFF. */
  function Padded(src: seq<byte>, p: nat, n: nat): (r: seq<byte>)
    ensures |r| == n
    ensures forall i :: 0 <= i < n ==> r[i] == if p + i < |src| then src[p + i] else 0xFF
  {
    seq(n, i requires 0 <= i < n => if p + i < |src| then src[p + i] else 0xFF)
  }

  /** The parity bytes are the remainder of the data, and both together a BCH codeword. */
  ghost predicate IsParity(f: Field, t: nat, data: seq<byte>, ecc: seq<byte>) {
    && f.DegreeOk() && IsGenerator(GeneratorBits(f, t)) && |ecc| >= B.EccBytes(f.m, t)
    && var k, bits := B.EccBytes(f.m, t), |GeneratorBits(f, t)| - 1;
    && bits <= 8 * k
    && FlatBytes(ecc[..k]) == Parity(GeneratorBits(f, t), FlatBytes(data)) + Zeros(8 * k - bits)
    && (forall i :: k <= i < |ecc| ==> ecc[i] == 0)
    && forall s :: 1 <= s <= 2 * t ==> Horner(f, FlatBytes(data) + FlatBytes(ecc[..k])[..bits], Power(f, s)) == 0
  }

  /** The same with the bits of every byte reversed, as the controller stores them. */
  ghost predicate Protects(f: Field, t: nat, plain: seq<byte>, ecc: seq<byte>) {
    IsParity(f, t, AllReversed(plain), AllReversed(ecc))
  }

  /** An engine for the geometry: fourteen-bit field, the chosen strength. */
  ghost predicate Engine(bch: B.BchControl, f: Field, g: Geometry)
    reads bch`eccBits, bch.aPow, bch.aLog, bch.mod8
  {
    bch.m == 14 && bch.t == g.strength && bch.Ready(f)
  }

  predicate Separate(bch: B.BchControl, buf: array<byte>) {
    buf as object != bch.eccBuf && buf as object != bch.aPow && buf as object != bch.aLog && buf as object != bch.mod8
  }

  lemma EngineParity(bch: B.BchControl, f: Field, g: Geometry)
    requires Engine(bch, f, g)
    ensures f.DegreeOk() && IsGenerator(GeneratorBits(f, g.strength)) && bch.eccBits == |GeneratorBits(f, g.strength)| - 1
    ensures bch.eccBits <= 8 * B.EccBytes(14, g.strength) && f.m == 14
  {
    hide GeneratorBits, Power, NoEarlyOne, Pow2;
    B.EccSizes(14, g.strength);
  }

  /** An all-zero register is the parity of nothing. */
  lemma ZeroParity(gen: seq<bool>, k: nat, e: seq<byte>)
    requires IsGenerator(gen) && |gen| - 1 <= 8 * k && |e| == k && forall i :: 0 <= i < k ==> e[i] == 0
    ensures FlatBytes(e) == Parity(gen, FlatBytes([])) + Zeros(8 * k - (|gen| - 1))
  {
    hide Bits;
    BitsZero(8);
    assert FlatBytes([]) == [];
    assert FlatBytes(e) == Zeros(8 * k);
    assert Zeros(|gen| - 1) + Zeros(8 * k - (|gen| - 1)) == Zeros(8 * k);
  }

  /** Parity of a step in place: reverse the bits, encode, reverse both back. */
  method StepParity(bch: B.BchControl, ghost f: Field, g: Geometry, align: nat, buf: array<byte>, e: array<byte>)
    requires Engine(bch, f, g) && align < 4 && Separate(bch, buf) && Separate(bch, e) && buf != e
    requires buf.Length >= g.step + 4 && e.Length == EccLen(g.strength)
    requires forall i :: 0 <= i < e.Length ==> e[i] == 0
    modifies bch.eccBuf, buf, e
    ensures Engine(bch, f, g) && buf[..] == old(buf[..])
    ensures Protects(f, g.strength, buf[..g.step + 4], e[..])
  {
    hide AllReversed, Put, IsParity, Engine;
    var n := g.step + 4;
    ghost var b := buf[..];
    SwapBits(buf, 0, n);
    PutPrefix(b, AllReversed(b[0..n]));
    assert b[0..n] == b[..n];
    EncodeStep(bch, f, g, align, buf[..n], e);
    ghost var raw := e[..];
    SwapBits(buf, 0, n);
    TurnedBack(b, n);
    SwapBits(e, 0, e.Length);
    assert raw[0..|raw|] == raw;
    PutPrefix(raw, AllReversed(raw));
    AllReversedTwice(raw);
  }

  /** The engine applied to a cleared parity buffer. */
  method EncodeStep(bch: B.BchControl, ghost f: Field, g: Geometry, align: nat, data: seq<byte>, e: array<byte>)
    requires Engine(bch, f, g) && align < 4 && Separate(bch, e) && e.Length == EccLen(g.strength)
    requires forall i :: 0 <= i < e.Length ==> e[i] == 0
    modifies bch.eccBuf, e
    ensures Engine(bch, f, g) && IsParity(f, g.strength, data, e[..])
  {
    hide Parity, GeneratorBits, FlatBytes, Horner, Power, Zeros, B.EccBytes;
    ghost var k := B.EccBytes(14, g.strength);
    EngineParity(bch, f, g);
    ZeroParity(GeneratorBits(f, g.strength), k, e[..k]);
    bch.Encode(f, [], data, align, e);
    assert [] + data == data;
    assert e[..][..k] == e[..k];
    forall i | k <= i < e.Length ensures e[..][i] == 0 {
      assert e[k..][i - k] == e[i];
    }
  }

  lemma PutPrefix(b: seq<byte>, x: seq<byte>)
    requires |x| <= |b|
    ensures Put(b, 0, x)[..|x|] == x && (|x| == |b| ==> Put(b, 0, x) == x)
  {}

  lemma TurnedBack(b: seq<byte>, n: nat)
    requires n <= |b|
    ensures var t := Put(b, 0, AllReversed(b[0..n])); Put(t, 0, AllReversed(t[0..n])) == b
  {
    hide AllReversed, Put;
    var x := b[0..n];
    PutSlice(b, 0, AllReversed(x), 0, n);
    assert AllReversed(x)[0..n] == AllReversed(x);
    AllReversedTwice(x);
    PutTwice(b, AllReversed(x), x);
    PutSame(b, 0, n);
  }

  lemma PutTwice(b: seq<byte>, x: seq<byte>, y: seq<byte>)
    requires |x| == |y| <= |b|
    ensures Put(Put(b, 0, x), 0, y) == Put(b, 0, y)
  {}

  // ----- building one step in the buffer

  method Fill(buf: array<byte>, a: nat, n: nat)
    requires a + n <= buf.Length
    modifies buf
    ensures buf[..] == Put(old(buf[..]), a, Ones(n))
  {
    PutBytes(buf, a, Ones(n));
  }

  /** Read up to `n` source bytes into a buffer of 0xFF. */
  method ReadSource(buf: array<byte>, src: seq<byte>, p: nat, n: nat, total: nat) returns (cnt: nat)
    requires p <= |src| && n <= total <= buf.Length
    modifies buf
    ensures cnt == if p + n <= |src| then n else |src| - p
    ensures buf[..total] == Padded(src, p, n) + Ones(total - n) && buf[total..] == old(buf[total..])
  {
    hide Put;
    ghost var b := buf[..];
    Fill(buf, 0, total);
    ghost var b1 := buf[..];
    cnt := if p + n <= |src| then n else |src| - p;
    PutBytes(buf, 0, src[p..p + cnt]);
    Filled(b, b1, src, p, n, total, cnt);
  }

  lemma Filled(b: seq<byte>, b1: seq<byte>, src: seq<byte>, p: nat, n: nat, total: nat, cnt: nat)
    requires p <= |src| && n <= total <= |b| && cnt == if p + n <= |src| then n else |src| - p
    requires b1 == Put(b, 0, Ones(total))
    ensures Put(b1, 0, src[p..p + cnt])[..total] == Padded(src, p, n) + Ones(total - n)
    ensures Put(b1, 0, src[p..p + cnt])[total..] == b[total..]
  {
    var r, x := Put(b1, 0, src[p..p + cnt]), Padded(src, p, n) + Ones(total - n);
    assert |r| == |b|;
    forall i | 0 <= i < total ensures r[i] == x[i] {
      if i < cnt { assert r[i] == src[p + i]; } else { assert r[i] == b1[i] == 0xFF; }
    }
    forall i | total <= i < |b| ensures r[i] == b[i] { assert b1[i] == b[i]; }
  }

  /** The plain bytes of a step: data and four spare bytes. */
  function Plain(g: Geometry, src: seq<byte>, p: nat): (r: seq<byte>)
    ensures |r| == g.step + 4
  {
    Padded(src, p, g.step) + Ones(4)
  }

  /** One step in the buffer: data, spare bytes and parity, scrambled. */
  method BuildStep(bch: B.BchControl, ghost f: Field, g: Geometry, src: seq<byte>, p: nat, mask: Mask, align: nat, buf: array<byte>)
    returns (ghost ecc: seq<byte>, cnt: nat)
    requires Engine(bch, f, g) && align < 4 && Separate(bch, buf) && p <= |src| && buf.Length >= g.step + Spare(g)
    modifies bch.eccBuf, buf
    ensures Engine(bch, f, g) && |ecc| == EccLen(g.strength) && Protects(f, g.strength, Plain(g, src, p), ecc)
    ensures buf[..g.step + Spare(g)] == Masked(mask, Plain(g, src, p) + ecc)
    ensures cnt == if p + g.step <= |src| then g.step else |src| - p
  {
    hide Engine, Protects, Masked, Put, Padded, Ones;
    var n, k := g.step + 4, EccLen(g.strength);
    cnt := ReadSource(buf, src, p, g.step, n + k);
    ghost var plain := Plain(g, src, p);
    assert buf[..n] == plain by { OnesSplit(k); }
    var e := new byte[k](_ => 0);
    StepParity(bch, f, g, align, buf, e);
    ecc := e[..];
    ghost var b := buf[..];
    PutBytes(buf, n, e[..]);
    Joined(b, n, plain, ecc);
    ghost var b1 := buf[..];
    Scramble(buf, 0, n + k, mask);
    assert b1[0..n + k] == plain + ecc;
    PutPrefix(b1, Masked(mask, plain + ecc));
  }

  lemma OnesSplit(k: nat)
    ensures Ones(4 + k) == Ones(4) + Ones(k)
  {}

  lemma Joined(b: seq<byte>, n: nat, plain: seq<byte>, ecc: seq<byte>)
    requires n + |ecc| <= |b| && b[..n] == plain
    ensures Put(b, n, ecc)[..n + |ecc|] == plain + ecc
  {}
}
