/**
 The thunk that runs on the SoC between the BROM's FEL code and the SPL: swap
 the buffers listed behind its code, check the eGON sum, run the SPL, swap back.
 */
module SplThunk {
  import opened BitVectors
  import opened Memory
  import opened SramSwap

  const CHECKSUM_SEED: nat := 0x5F0A_6C39

  /** Sum of `k` words from `a`, modulo 2^32. */
  function SumWords(m: seq<byte>, a: nat, k: nat): (r: nat)
    requires a + 4 * k <= |m|
    ensures r < TWO32
  {
    if k == 0 then 0 else (SumWords(m, a, k - 1) + WordAt(m, a + 4 * (k - 1))) % TWO32
  }

  /** The table as the thunk finds it in memory, ended by a zero size. */
  predicate TableAt(m: seq<byte>, tbl: nat, table: seq<Swap>) {
    && tbl + 12 * |table| + 12 <= |m|
    && (forall j :: 0 <= j < |table| ==>
          && WordAt(m, tbl + 12 * j) == table[j].buf1
          && WordAt(m, tbl + 12 * j + 4) == table[j].buf2
          && WordAt(m, tbl + 12 * j + 8) == table[j].size)
    && WordAt(m, tbl + 12 * |table| + 8) == 0
  }

  /** No listed buffer overlaps the given range. */
  predicate ClearOf(table: seq<Swap>, a: nat, n: nat) {
    forall j :: 0 <= j < |table| ==>
      Apart(a, n, table[j].buf1, table[j].size) && Apart(a, n, table[j].buf2, table[j].size)
  }

  /** Exchange the first `k` bytes of two buffers. */
  ghost function SwapRange(m: seq<byte>, b1: nat, b2: nat, k: nat): (r: seq<byte>)
    requires b1 + k <= |m| && b2 + k <= |m|
    ensures |r| == |m|
  {
    seq(|m|, i requires 0 <= i < |m| => m[Partner1(Swap(b1, b2, k), i)])
  }

  lemma SwapRangeNext(m: seq<byte>, b1: nat, b2: nat, k: nat)
    requires b1 + k + 4 <= |m| && b2 + k + 4 <= |m| && Apart(b1, k + 4, b2, k + 4)
    ensures SwapRange(SwapRange(m, b1, b2, k), b1 + k, b2 + k, 4) == SwapRange(m, b1, b2, k + 4)
  {}

  lemma SwapRangeEnds(m: seq<byte>, s: Swap)
    requires EntryOk(s, |m|)
    ensures SwapRange(m, s.buf1, s.buf2, 0) == m && SwapRange(m, s.buf1, s.buf2, s.size) == SwapOne(m, s)
  {}

  method SwapWord(mem: array<byte>, a: nat, b: nat)
    requires a + 4 <= mem.Length && b + 4 <= mem.Length && Apart(a, 4, b, 4)
    modifies mem
    ensures mem[..] == SwapRange(old(mem[..]), a, b, 4)
  {
    var t1, t2 := mem[a..a + 4], mem[b..b + 4];
    SwapIsStores(mem[..], a, b);
    StoreWord(mem, b, t1);
    StoreWord(mem, a, t2);
  }

  lemma SwapIsStores(m: seq<byte>, a: nat, b: nat)
    requires a + 4 <= |m| && b + 4 <= |m| && Apart(a, 4, b, 4)
    ensures Put(Put(m, b, m[a..a + 4]), a, m[b..b + 4]) == SwapRange(m, a, b, 4)
  {
    hide Put;
    var x, y := m[a..a + 4], m[b..b + 4];
    var m1 := Put(m, b, x);
    var r, s := Put(m1, a, y), SwapRange(m, a, b, 4);
    PutLeaves(m, b, x);
    PutLeaves(m1, a, y);
    forall i | 0 <= i < |m| ensures r[i] == s[i] {
      if a <= i < a + 4 {
        PutAt(m1, a, y, i - a);
      } else if b <= i < b + 4 {
        PutAt(m, b, x, i - b);
      }
    }
  }

  /** `swap_next_word`: exchange two buffers word by word. */
  method SwapBuffer(mem: array<byte>, s: Swap)
    requires EntryOk(s, mem.Length)
    modifies mem
    ensures mem[..] == SwapOne(old(mem[..]), s)
  {
    hide SwapRange, SwapOne;
    ghost var m := mem[..];
    SwapRangeEnds(m, s);
    var b1, b2, size := s.buf1, s.buf2, s.size;
    while size != 0
      invariant 0 <= size <= s.size && size % 4 == 0
      invariant b1 == s.buf1 + s.size - size && b2 == s.buf2 + s.size - size
      invariant mem[..] == SwapRange(m, s.buf1, s.buf2, s.size - size)
      decreases size
    {
      SwapWord(mem, b1, b2);
      SwapRangeNext(m, s.buf1, s.buf2, s.size - size);
      b1, b2, size := b1 + 4, b2 + 4, size - 4;
    }
  }

  lemma SwapOneOutside(m: seq<byte>, s: Swap, a: nat, n: nat)
    requires EntryOk(s, |m|) && a + n <= |m|
    requires Apart(a, n, s.buf1, s.size) && Apart(a, n, s.buf2, s.size)
    ensures SwapOne(m, s)[a..a + n] == m[a..a + n]
  {}

  lemma SameTable(m: seq<byte>, m': seq<byte>, tbl: nat, table: seq<Swap>)
    requires TableAt(m, tbl, table) && |m'| == |m|
    requires m'[tbl..tbl + 12 * |table| + 12] == m[tbl..tbl + 12 * |table| + 12]
    ensures TableAt(m', tbl, table)
  {
    hide WordAt;
    var n := 12 * |table| + 12;
    forall j | 0 <= j < |table|
      ensures WordAt(m', tbl + 12 * j) == WordAt(m, tbl + 12 * j)
      ensures WordAt(m', tbl + 12 * j + 4) == WordAt(m, tbl + 12 * j + 4)
      ensures WordAt(m', tbl + 12 * j + 8) == WordAt(m, tbl + 12 * j + 8)
    {
      assert 12 * j + 8 <= n - 4;
      SameWord(m', tbl, m, tbl, n, 12 * j);
      SameWord(m', tbl, m, tbl, n, 12 * j + 4);
      SameWord(m', tbl, m, tbl, n, 12 * j + 8);
    }
    SameWord(m', tbl, m, tbl, n, n - 4);
  }

  /** `swap_all_buffers`: walk the table in memory up to the zero size. */
  method SwapAllBuffers(mem: array<byte>, tbl: nat, ghost table: seq<Swap>)
    requires TableOk(table, mem.Length) && TableAt(mem[..], tbl, table)
    requires ClearOf(table, tbl, 12 * |table| + 12)
    modifies mem
    ensures mem[..] == SwapAll(old(mem[..]), table)
    ensures TableAt(mem[..], tbl, table)
  {
    hide WordAt, SwapOne, SwapAll, TableAt, TableOk, ClearOf;
    ghost var j := 0;
    var p: nat := tbl;
    assert table[0..] == table;
    while true
      invariant 0 <= j <= |table| && p == tbl + 12 * j
      invariant TableAt(mem[..], tbl, table) && TableOk(table[j..], mem.Length)
      invariant SwapAll(old(mem[..]), table) == SwapAll(mem[..], table[j..])
      decreases |table| - j
    {
      ghost var m := mem[..];
      EntryAt(m, tbl, table, j);
      var b1 := LoadWord(mem, p);
      var b2 := LoadWord(mem, p + 4);
      var size := LoadWord(mem, p + 8);
      if size == 0 { break; }
      UnfoldSwapAll(m, tbl, table, j);
      SwapBuffer(mem, Swap(b1, b2, size));
      SwapOneOutside(m, table[j], tbl, 12 * |table| + 12);
      SameTable(m, mem[..], tbl, table);
      p, j := p + 12, j + 1;
    }
    assert table[j..] == [];
    SwapAllNothing(mem[..]);
  }

  lemma EntryAt(m: seq<byte>, tbl: nat, table: seq<Swap>, j: nat)
    requires TableAt(m, tbl, table) && j <= |table| && TableOk(table[j..], |m|)
    ensures tbl + 12 * |table| + 12 <= |m|
    ensures WordAt(m, tbl + 12 * j + 8) == 0 <==> j == |table|
    ensures j < |table| ==>
              table[j] == Swap(WordAt(m, tbl + 12 * j), WordAt(m, tbl + 12 * j + 4), WordAt(m, tbl + 12 * j + 8))
    ensures j < |table| ==> EntryOk(table[j], |m|)
  {
    hide WordAt;
    if j < |table| { assert table[j..][0] == table[j]; }
  }

  lemma UnfoldSwapAll(m: seq<byte>, tbl: nat, table: seq<Swap>, j: nat)
    requires j < |table| && TableOk(table[j..], |m|) && ClearOf(table, tbl, 12 * |table| + 12)
    ensures EntryOk(table[j], |m|) && TableOk(table[j + 1..], |m|)
    ensures SwapAll(m, table[j..]) == SwapAll(SwapOne(m, table[j]), table[j + 1..])
    ensures Apart(tbl, 12 * |table| + 12, table[j].buf1, table[j].size)
    ensures Apart(tbl, 12 * |table| + 12, table[j].buf2, table[j].size)
  {
    hide SwapOne;
    assert table[j..][0] == table[j] && table[j..][1..] == table[j + 1..];
    TableTail(table[j..], |m|);
  }

  lemma SwapAllNothing(m: seq<byte>)
    ensures TableOk([], |m|) && SwapAll(m, []) == m
  {}

  /** Bytes the checksum loop walks: it subtracts before it tests, so zero stands for 2^32. */
  function Walked(w: u32): (n: nat)
    ensures 0 < n <= TWO32 && n % TWO32 == w
  {
    if w == 0 then TWO32 else w
  }

  /** The length word at the image start is one the checksum loop comes back from. */
  predicate LengthOk(m: seq<byte>, spl: nat) {
    && spl + 20 <= |m|
    && WordAt(m, spl + 16) % 4 == 0 && spl + Walked(WordAt(m, spl + 16)) <= |m|
  }

  /** The stated sum is that of the first `k` words. */
  predicate SumIs(m: seq<byte>, a: nat, k: nat)
    requires a + 16 <= |m| && a + 4 * k <= |m|
  {
    (CHECKSUM_SEED + SumWords(m, a, k)) % TWO32 == (2 * WordAt(m, a + 12)) % TWO32
  }

  /** The header sum is right for the length the header states. */
  predicate SumOk(m: seq<byte>, spl: nat)
    requires LengthOk(m, spl)
  {
    SumIs(m, spl, Walked(WordAt(m, spl + 16)) / 4)
  }

  /** How the sum check ends: with a verdict, or by walking out of memory. */
  datatype Walk = Verdict(ok: bool) | RunsOff

  /**
   `verify_checksum`: sum words until the length, counted down in 32 bits, is
   zero.  It reaches a verdict exactly when the length word is walkable.
   */
  method VerifyChecksum(mem: array<byte>, spl: nat) returns (r: Walk)
    requires spl + 20 <= mem.Length <= TWO32
    ensures r.Verdict? <==> LengthOk(mem[..], spl)
    ensures r.Verdict? ==> (r.ok <==> SumOk(mem[..], spl))
  {
    hide WordAt, SumWords;
    ghost var m := mem[..];
    var len := LoadWord(mem, spl + 16);
    var sum, p, size: nat := CHECKSUM_SEED, spl, len;
    ghost var k := 0;
    NoWords(m, spl);
    while true
      invariant 0 <= k && p == spl + 4 * k && size < TWO32 && size % 4 == len % 4
      invariant p <= |m| && sum == (CHECKSUM_SEED + SumWords(m, spl, k)) % TWO32
      invariant len % 4 == 0 ==> 4 * k < Walked(len) && size == (Walked(len) - 4 * k) % TWO32
      decreases mem.Length - p
    {
      if p + 4 > mem.Length { return RunsOff; }
      SumNext(m, spl, k);
      var w := LoadWord(mem, p);
      CountDown(size, len, k);
      p, size := p + 4, (size + TWO32 - 4) % TWO32;
      sum := (sum + w) % TWO32;
      k := k + 1;
      if size == 0 { break; }
    }
    var stated := LoadWord(mem, spl + 12);
    r := Verdict(sum == (2 * stated) % TWO32);
  }

  lemma NoWords(m: seq<byte>, a: nat)
    requires a <= |m|
    ensures SumWords(m, a, 0) == 0
  {}

  /** One count of the 32-bit length. */
  lemma CountDown(size: nat, len: u32, k: nat)
    requires size < TWO32 && size % 4 == len % 4
    requires len % 4 == 0 ==> 4 * k < Walked(len) && size == (Walked(len) - 4 * k) % TWO32
    ensures var size' := (size + TWO32 - 4) % TWO32;
      && size' % 4 == len % 4
      && (size' == 0 ==> len % 4 == 0 && Walked(len) == 4 * (k + 1))
      && (len % 4 == 0 && size' != 0 ==> 4 * (k + 1) < Walked(len) && size' == (Walked(len) - 4 * (k + 1)) % TWO32)
  {
    if len % 4 == 0 {
      var rest := Walked(len) - 4 * k;
      assert rest % 4 == 0;
      if rest == TWO32 {
        assert size == 0;
      } else {
        assert size == rest;
      }
    }
  }

  lemma SumNext(m: seq<byte>, a: nat, k: nat)
    requires a + 4 * k + 4 <= |m|
    ensures ((CHECKSUM_SEED + SumWords(m, a, k)) % TWO32 + WordAt(m, a + 4 * k)) % TWO32
         == (CHECKSUM_SEED + SumWords(m, a, k + 1)) % TWO32
  {
    hide WordAt;
    var x, w: nat := SumWords(m, a, k), WordAt(m, a + 4 * k);
    assert SumWords(m, a, k + 1) == (x + w) % TWO32;
    hide SumWords;
    AddWrapped(CHECKSUM_SEED, x, w);
  }

  lemma AddWrapped(c: nat, x: nat, w: nat)
    ensures ((c + x) % TWO32 + w) % TWO32 == (c + (x + w) % TWO32) % TWO32
  {}

  const FEL: seq<byte> := [0x2E, 0x46, 0x45, 0x4C]
  const BAD: seq<byte> := [0x2E, 0x42, 0x41, 0x44]
  const CACHE_ENABLED: seq<byte> := [0x2E, 0x3F, 0x3F, 0x3F]

  /** Memory at the moment the swapped-in image is left, on both swapping exits. */
  ghost function AfterImage(m: seq<byte>, spl: nat, run: seq<byte> -> seq<byte>): (r: seq<byte>)
    requires LengthOk(m, spl)
  {
    if SumOk(m, spl) then run(Put(m, spl + 8, FEL)) else Put(m, spl + 8, BAD)
  }

  /**
   The thunk from entry to return.  With a cache enabled it only leaves a note;
   otherwise it swaps, and swaps back both after a bad sum and after the SPL.
   It fails to come back, buffers still swapped, exactly when the length word
   found after the swap cannot be walked.  The SPL is any program that keeps the
   thunk's table; `run` is its effect.
   */
  method RunThunk(mem: array<byte>, spl: nat, tbl: nat, ghost table: seq<Swap>, cache: bool, run: seq<byte> -> seq<byte>)
    returns (back: bool)
    requires spl + 20 <= mem.Length <= TWO32 && TableOk(table, mem.Length) && TableAt(mem[..], tbl, table)
    requires ClearOf(table, tbl, 12 * |table| + 12) && Apart(spl, 32, tbl, 12 * |table| + 12)
    requires forall m: seq<byte> :: |run(m)| == |m| && (TableAt(m, tbl, table) ==> TableAt(run(m), tbl, table))
    modifies mem
    ensures back <==> cache || LengthOk(SwapAll(old(mem[..]), table), spl)
    ensures mem[..] == if cache then Put(old(mem[..]), spl + 8, CACHE_ENABLED)
                       else if back then SwapAll(AfterImage(SwapAll(old(mem[..]), table), spl, run), table)
                       else SwapAll(old(mem[..]), table)
  {
    hide WordAt, SwapAll, TableAt, TableOk, ClearOf, SumOk, LengthOk, Put;
    if cache {
      StoreWord(mem, spl + 8, CACHE_ENABLED);
      return true;
    }
    SwapAllBuffers(mem, tbl, table);
    ghost var m := mem[..];
    TableFits(m, tbl, table);
    var r := VerifyChecksum(mem, spl);
    if r.RunsOff? { return false; }
    if r.ok {
      StoreWord(mem, spl + 8, FEL);
      PutOutside(m, spl + 8, FEL, tbl, 12 * |table| + 12);
      SameTable(m, mem[..], tbl, table);
      LoadMemory(mem, run(mem[..]));
    } else {
      StoreWord(mem, spl + 8, BAD);
      PutOutside(m, spl + 8, BAD, tbl, 12 * |table| + 12);
      SameTable(m, mem[..], tbl, table);
    }
    assert mem[..] == AfterImage(m, spl, run);
    SwapAllBuffers(mem, tbl, table);
    back := true;
  }

  lemma TableFits(m: seq<byte>, tbl: nat, table: seq<Swap>)
    requires TableAt(m, tbl, table)
    ensures tbl + 12 * |table| + 12 <= |m|
  {}
}
