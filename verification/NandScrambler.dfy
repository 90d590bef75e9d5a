/**
 Whitening of NAND data: the 15-bit shift register, the exclusive-or with its
 output, and the bit reversal inside bytes.
 */
module NandScrambler {
  import opened BitVectors
  import opened Words
  import opened Memory

  type u15 = x: nat | x < 0x8000

  // ----- the shift register

  /** One clock: the sum of the two low bits enters at the top. */
  function Clock(s: u15): (r: u15) {
    s / 2 + 0x4000 * ((s % 2 + s / 2 % 2) % 2)
  }

  function Lfsr(s: u15, count: nat): (r: u15)
    decreases count
  {
    if count == 0 then s else Lfsr(Clock(s), count - 1)
  }

  /** The state one clock earlier. */
  function Unclock(r: u15): (s: u15) {
    2 * (r % 0x4000) + (r / 0x4000 + r % 2) % 2
  }

  /** Clocking is a permutation of the states, so no two states ever merge. */
  lemma ClockBijective(s: u15)
    ensures Unclock(Clock(s)) == s && Clock(Unclock(s)) == s
  {
    UnclockClock(s);
    ClockUnclock(s);
  }

  lemma UnclockClock(s: u15)
    ensures Unclock(Clock(s)) == s
  {
    var c := (s % 2 + s / 2 % 2) % 2;
    assert Clock(s) % 0x4000 == s / 2 && Clock(s) / 0x4000 == c;
    assert Clock(s) % 2 == s / 2 % 2;
  }

  lemma ClockUnclock(r: u15)
    ensures Clock(Unclock(r)) == r
  {
    var c := (r / 0x4000 + r % 2) % 2;
    var s := Unclock(r);
    assert s / 2 == r % 0x4000 && s % 2 == c;
    assert r % 0x4000 % 2 == r % 2;
  }

  /** The clock on bits: everything moves down one place, the sum of the two low bits enters. */
  lemma ClockBits(s: u15)
    ensures Bits(15, Clock(s)) == [Bits(15, s)[14] != Bits(15, s)[13]] + Bits(15, s)[..14]
  {
    hide Bits, Shl, Pow2;
    var h, c := s / 2, (s % 2 + s / 2 % 2) % 2;
    BitsLast(15, s);
    BitsLast(14, h);
    OneBit(c);
    ShlFourteen(c);
    BitsAppend(1, 14, c, h);
  }

  lemma OneBit(c: nat)
    requires c < 2
    ensures Bits(1, c) == [c == 1]
  {}

  lemma ShlFourteen(c: nat)
    ensures Shl(c, 14) == 0x4000 * c && Pow2(14) == 0x4000
  {
    assert Shl(c, 4) == 16 * c && Shl(c, 8) == 16 * Shl(c, 4) && Shl(c, 12) == 16 * Shl(c, 8);
    assert Pow2(4) == 16 && Pow2(8) == 16 * Pow2(4) && Pow2(12) == 16 * Pow2(8);
  }

  /** A running register never gets stuck at zero. */
  lemma {:induction false} LfsrNonzero(s: u15, count: nat)
    requires s != 0
    ensures Lfsr(s, count) != 0
    decreases count
  {
    if count > 0 {
      UnclockClock(s);
      LfsrNonzero(Clock(s), count - 1);
    }
  }

  lemma {:induction false} LfsrInjective(a: u15, b: u15, count: nat)
    requires Lfsr(a, count) == Lfsr(b, count)
    ensures a == b
    decreases count
  {
    if count > 0 {
      LfsrInjective(Clock(a), Clock(b), count - 1);
      UnclockClock(a);
      UnclockClock(b);
    }
  }

  lemma {:induction false} LfsrJoin(s: u15, a: nat, b: nat)
    ensures Lfsr(Lfsr(s, a), b) == Lfsr(s, a + b)
    decreases a
  {
    if a > 0 { LfsrJoin(Clock(s), a - 1, b); }
  }

  /** `lfsr_step`, as shifts and masks of a 16-bit state. */
  method LfsrStep(state: nat, count: nat) returns (r: u15)
    requires state < 0x1_0000
    ensures r == Lfsr(state % 0x8000, count)
  {
    r := state % 0x8000;
    var left: nat := count;
    while left > 0
      invariant left <= count && Lfsr(r, left) == Lfsr(state % 0x8000, count)
    {
      r := Clock(r);
      left := left - 1;
    }
  }

  // ----- scrambling

  /** The key byte for position `i`. */
  function Key(seed: u15, i: nat): (k: byte) {
    Lfsr(seed, 15 + 8 * i) % 0x100
  }

  /** The register's output as a sequence of bits: the seed's own, lowest first, then a linear recurrence. */
  ghost function Stream(seed: u15, k: nat): bool {
    if k < 15 then Bits(15, seed)[14 - k] else Stream(seed, k - 15) != Stream(seed, k - 14)
  }

  lemma {:induction false} StreamShift(seed: u15, k: nat)
    ensures Stream(Clock(seed), k) == Stream(seed, k + 1)
    decreases k
  {
    hide Bits, Clock;
    ClockBits(seed);
    if k >= 15 {
      StreamShift(seed, k - 15);
      StreamShift(seed, k - 14);
    }
  }

  lemma {:induction false} LfsrStream(seed: u15, count: nat, j: nat)
    ensures Stream(Lfsr(seed, count), j) == Stream(seed, count + j)
    decreases count
  {
    hide Stream, Clock;
    if count > 0 {
      LfsrStream(Clock(seed), count - 1, j);
      StreamShift(seed, count - 1 + j);
    }
  }

  lemma {:induction false} LowBits(k: nat, j: nat, x: nat)
    requires j <= k
    ensures Bits(k, x)[k - j..] == Bits(j, x)
    decreases j
  {
    if j > 0 { LowBits(k - 1, j - 1, x / 2); }
  }

  lemma LowByteBits(x: nat)
    ensures Bits(8, x % 0x100) == Bits(8, x)
  {
    hide Bits, Low;
    LowEight(x);
    BitsLow(8, x);
  }

  /** Bit `j` of the `i`-th key byte, lowest first: the output from the fifteenth bit on, eight bits to a byte. */
  lemma KeyIsStream(seed: u15, i: nat, j: nat)
    requires j < 8
    ensures Bits(8, Key(seed, i))[7 - j] == Stream(seed, 15 + 8 * i + j)
  {
    hide Bits, Lfsr;
    var s := Lfsr(seed, 15 + 8 * i);
    LowByteBits(s);
    LowBits(15, 8, s);
    assert Bits(15, s)[7..][7 - j] == Bits(15, s)[14 - j];
    LfsrStream(seed, 15 + 8 * i, j);
  }

  function XorByte(a: byte, b: byte): (r: byte) {
    Pow2Values();
    XorBound(a, b, 8);
    Xor(a, b)
  }

  /** Data under the key that starts with `seed`. */
  function Scrambled(seed: u15, bs: seq<byte>): (r: seq<byte>)
    ensures |r| == |bs|
    ensures forall i :: 0 <= i < |bs| ==> r[i] == XorByte(bs[i], Key(seed, i))
  {
    seq(|bs|, i requires 0 <= i < |bs| => XorByte(bs[i], Key(seed, i)))
  }

  /** Scrambling again restores the data. */
  lemma ScrambleTwice(seed: u15, bs: seq<byte>)
    ensures Scrambled(seed, Scrambled(seed, bs)) == bs
  {
    hide Key;
    var r := Scrambled(seed, Scrambled(seed, bs));
    forall i | 0 <= i < |bs| ensures r[i] == bs[i] {
      XorCancel(bs[i], 0, Key(seed, i));
    }
  }

  /** A prefix of the data takes a prefix of the key. */
  lemma ScramblePrefix(seed: u15, bs: seq<byte>, n: nat)
    requires n <= |bs|
    ensures Scrambled(seed, bs)[..n] == Scrambled(seed, bs[..n])
  {
    hide Key;
  }

  /** The loop of `scramble` over `n` bytes from `a`. */
  method ScrambleBytes(buf: array<byte>, a: nat, n: nat, seed: u15)
    requires a + n <= buf.Length
    modifies buf
    ensures buf[..] == Put(old(buf[..]), a, Scrambled(seed, old(buf[a..a + n])))
  {
    hide Lfsr, Xor;
    ghost var b := buf[..];
    var state := LfsrStep(seed, 15);
    for i := 0 to n
      invariant state == Lfsr(seed, 15 + 8 * i)
      invariant forall j :: 0 <= j < a ==> buf[j] == b[j]
      invariant forall j :: a + i <= j < buf.Length ==> buf[j] == b[j]
      invariant forall j :: a <= j < a + i ==> buf[j] == XorByte(b[j], Key(seed, j - a))
    {
      buf[a + i] := XorByte(buf[a + i], state % 0x100);
      LfsrJoin(seed, 15 + 8 * i, 8);
      state := LfsrStep(state, 8);
    }
    ghost var r := Put(b, a, Scrambled(seed, b[a..a + n]));
    forall j | 0 <= j < |b| ensures buf[j] == r[j] {
      if a <= j < a + n { assert r[j] == Scrambled(seed, b[a..a + n])[j - a]; }
    }
  }

  // ----- bit reversal

  function Flipped(s: seq<bool>): (r: seq<bool>)
    ensures |r| == |s|
    ensures forall i :: 0 <= i < |s| ==> r[i] == s[|s| - 1 - i]
  {
    seq(|s|, i requires 0 <= i < |s| => s[|s| - 1 - i])
  }

  /** The byte with its eight bits in the opposite order. */
  function Reversed(b: byte): (r: byte) {
    Pow2Values();
    Val(Flipped(Bits(8, b)))
  }

  lemma ReversedBits(b: byte)
    ensures Bits(8, Reversed(b)) == Flipped(Bits(8, b))
  {
    BitsVal(Flipped(Bits(8, b)));
  }

  lemma ReversedTwice(b: byte)
    ensures Reversed(Reversed(b)) == b
  {
    hide Bits, Val, Pow2;
    ReversedBits(b);
    assert Flipped(Flipped(Bits(8, b))) == Bits(8, b);
    Pow2Values();
    ValBits(8, b);
  }

  function AllReversed(bs: seq<byte>): (r: seq<byte>)
    ensures |r| == |bs|
    ensures forall i :: 0 <= i < |bs| ==> r[i] == Reversed(bs[i])
  {
    seq(|bs|, i requires 0 <= i < |bs| => Reversed(bs[i]))
  }

  /** Reversing the bits of every byte twice changes nothing. */
  lemma AllReversedTwice(bs: seq<byte>)
    ensures AllReversed(AllReversed(bs)) == bs
  {
    hide Reversed;
    forall i | 0 <= i < |bs| ensures AllReversed(AllReversed(bs))[i] == bs[i] {
      ReversedTwice(bs[i]);
    }
  }

  /** The bits moved after the low `i` bits of the byte have been looked at. */
  ghost function Moved(b: byte, i: nat): (r: seq<bool>)
    requires i <= 8
    ensures |r| == 8
  {
    seq(8, k requires 0 <= k < 8 => k < i && Bits(8, b)[7 - k])
  }

  /** Setting a clear bit adds its weight. */
  lemma {:induction false} ValSet(s: seq<bool>, i: nat)
    requires i < |s| && !s[i]
    ensures Val(s[i := true]) == Val(s) + Pow2(|s| - 1 - i)
    decreases |s|
  {
    var n := |s| - 1;
    if i < n {
      assert s[i := true][..n] == s[..n][i := true];
      ValSet(s[..n], i);
    } else {
      assert s[i := true][..n] == s[..n];
    }
  }

  lemma MovedNext(b: byte, i: nat)
    requires i < 8
    ensures Val(Moved(b, i + 1)) == Val(Moved(b, i)) + if Bits(8, b)[7 - i] then Pow2(7 - i) else 0
  {
    hide Bits, Val;
    if Bits(8, b)[7 - i] {
      assert Moved(b, i + 1) == Moved(b, i)[i := true];
      ValSet(Moved(b, i), i);
    } else {
      assert Moved(b, i + 1) == Moved(b, i);
    }
  }

  lemma MovedEnds(b: byte)
    ensures Val(Moved(b, 0)) == 0 && Val(Moved(b, 8)) == Reversed(b)
  {
    hide Bits, Val;
    assert Moved(b, 8) == Flipped(Bits(8, b));
    assert Moved(b, 0) == Zeros(8);
    BitsZero(8);
    BitsVal(Zeros(8));
    Pow2Values();
    ValBits(8, 0);
  }

  method SwapByte(b: byte) returns (r: byte)
    ensures r == Reversed(b)
  {
    hide Bits, Val, Pow2, Reversed, Moved;
    var acc: nat := 0;
    MovedEnds(b);
    for i := 0 to 8
      invariant acc == Val(Moved(b, i))
    {
      MovedNext(b, i);
      if Bits(8, b)[7 - i] { acc := acc + Pow2(7 - i); }
    }
    r := acc;
  }

  /** `swap_bits` over `n` bytes from `a`. */
  method SwapBits(buf: array<byte>, a: nat, n: nat)
    requires a + n <= buf.Length
    modifies buf
    ensures buf[..] == Put(old(buf[..]), a, AllReversed(old(buf[a..a + n])))
  {
    hide Reversed;
    ghost var b := buf[..];
    for j := 0 to n
      invariant forall k :: 0 <= k < a ==> buf[k] == b[k]
      invariant forall k :: a + j <= k < buf.Length ==> buf[k] == b[k]
      invariant forall k :: a <= k < a + j ==> buf[k] == Reversed(b[k])
    {
      buf[a + j] := SwapByte(buf[a + j]);
    }
    ghost var r := Put(b, a, AllReversed(b[a..a + n]));
    forall k | 0 <= k < |b| ensures buf[k] == r[k] {
      if a <= k < a + n { assert r[k] == AllReversed(b[a..a + n])[k - a]; }
    }
  }
}
