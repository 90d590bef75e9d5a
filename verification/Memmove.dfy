/**
 Moving bytes inside the SoC's memory with uploaded ARM code: the upward and
 downward copy machines, and the choice between them.
 */
module Memmove {
  import opened BitVectors
  import opened Memory

  // ----- 32-bit register arithmetic

  /** `subs`: the wrapped difference; the N flag is its top bit. */
  function Subs(r: u32, k: nat): (d: u32)
    requires k <= 4
  {
    (r + TWO32 - k) % TWO32
  }

  predicate Negative(r: u32) {
    r >= 0x8000_0000
  }

  // ----- copying a range

  /** `n` bytes of `m` copied from `src` to `dst`. */
  function Copied(m: seq<byte>, dst: nat, src: nat, n: nat): (r: seq<byte>)
    requires dst + n <= |m| && src + n <= |m|
    ensures |r| == |m|
  {
    Put(m, dst, m[src..src + n])
  }

  method CopyByte(mem: array<byte>, dst: nat, src: nat)
    requires dst < mem.Length && src < mem.Length
    modifies mem
    ensures mem[..] == Copied(old(mem[..]), dst, src, 1)
  {
    mem[dst] := mem[src];
  }

  method CopyWord(mem: array<byte>, dst: nat, src: nat)
    requires dst + 4 <= mem.Length && src + 4 <= mem.Length
    modifies mem
    ensures mem[..] == Copied(old(mem[..]), dst, src, 4)
  {
    StoreWord(mem, dst, mem[src..src + 4]);
  }

  /** Going upwards, the part still to be read has not been overwritten. */
  lemma UpStep(m: seq<byte>, dst: nat, src: nat, k: nat, j: nat)
    requires dst + k + j <= |m| && src + k + j <= |m|
    requires dst <= src || src + k + j <= dst
    ensures Copied(Copied(m, dst, src, k), dst + k, src + k, j) == Copied(m, dst, src, k + j)
  {
    hide Put;
    var x, y := m[src..src + k], m[src + k..src + k + j];
    PutOutside(m, dst, x, src + k, j);
    assert m[src..src + k + j] == x + y;
    PutBeside(m, dst, x, y);
  }

  /** Going downwards likewise, from the far end. */
  lemma DownStep(m: seq<byte>, dst: nat, src: nat, k: nat, j: nat, n: nat)
    requires dst + k + j + n <= |m| && src + k + j + n <= |m| && src <= dst
    ensures Copied(Copied(m, dst + k + j, src + k + j, n), dst + k, src + k, j) == Copied(m, dst + k, src + k, j + n)
  {
    hide Put;
    var x, y := m[src + k..src + k + j], m[src + k + j..src + k + j + n];
    PutOutside(m, dst + k + j, y, src + k, j);
    assert m[src + k..src + k + j + n] == x + y;
    PutBeside(m, dst + k, x, y);
  }

  /** Memory on the way up: `k` bytes done. */
  ghost predicate Up(m0: seq<byte>, m: seq<byte>, dst: nat, src: nat, k: nat, n: nat) {
    && k <= n && |m| == |m0| && |m| <= TWO32 && dst + n <= |m| && src + n <= |m|
    && (dst <= src || src + n <= dst)
    && m == Copied(m0, dst, src, k)
  }

  /** Memory on the way down: all but the first `k` bytes done. */
  ghost predicate Down(m0: seq<byte>, m: seq<byte>, dst: nat, src: nat, k: nat, n: nat) {
    && k <= n && |m| == |m0| && |m| <= TWO32 && dst + n <= |m| && src + n <= |m| && src <= dst
    && m == Copied(m0, dst + k, src + k, n - k)
  }

  lemma UpNext(m0: seq<byte>, m: seq<byte>, m': seq<byte>, dst: nat, src: nat, k: nat, j: nat, n: nat)
    requires Up(m0, m, dst, src, k, n) && k + j <= n && m' == Copied(m, dst + k, src + k, j)
    ensures Up(m0, m', dst, src, k + j, n)
  {
    hide Copied;
    UpStep(m0, dst, src, k, j);
  }

  lemma DownNext(m0: seq<byte>, m: seq<byte>, m': seq<byte>, dst: nat, src: nat, k: nat, j: nat, n: nat)
    requires Down(m0, m, dst, src, k, n) && j <= k && m' == Copied(m, dst + k - j, src + k - j, j)
    ensures Down(m0, m', dst, src, k - j, n)
  {
    hide Copied;
    DownStep(m0, dst, src, k - j, j, n - k);
  }

  lemma Start(m: seq<byte>, dst: nat, src: nat, n: nat)
    requires dst + n <= |m| && src + n <= |m| && |m| <= TWO32
    ensures dst <= src || src + n <= dst ==> Up(m, m, dst, src, 0, n)
    ensures src <= dst ==> Down(m, m, dst, src, n, n)
  {
    assert Copied(m, dst, src, 0) == m;
    assert Copied(m, dst + n, src + n, 0) == m;
  }

  // ----- the upward machine

  /** `copyup_tail`: the remaining `r2` bytes one by one. */
  method UpTail(mem: array<byte>, r0: nat, r1: nat, r2: u32, ghost m0: seq<byte>, ghost dst: nat, ghost src: nat, ghost n: nat)
    requires n < 0x8000_0000 && r2 <= n && r0 == dst + n - r2 && r1 == src + n - r2
    requires Up(m0, mem[..], dst, src, n - r2, n)
    modifies mem
    ensures Up(m0, mem[..], dst, src, n, n)
  {
    hide Copied, Up;
    var r0: nat, r1: nat, r2: u32 := r0, r1, r2;
    UpFits(m0, mem[..], dst, src, n - r2, n);
    while true
      invariant r2 <= n && r0 == dst + n - r2 && r1 == src + n - r2
      invariant Up(m0, mem[..], dst, src, n - r2, n)
      decreases r2
    {
      ghost var k := n - r2;
      ghost var m := mem[..];
      if Negative(Subs(r2, 1)) { break; }
      r2 := Subs(r2, 1);
      CopyByte(mem, r0, r1);
      UpNext(m0, m, mem[..], dst, src, k, 1, n);
      r0, r1 := r0 + 1, r1 + 1;
    }
  }

  lemma UpFits(m0: seq<byte>, m: seq<byte>, dst: nat, src: nat, k: nat, n: nat)
    requires Up(m0, m, dst, src, k, n)
    ensures dst + n <= |m| == |m0| && src + n <= |m| <= TWO32 && k <= n
  {}

  /** `copyup_loop`: words while four bytes remain. */
  method UpWords(mem: array<byte>, r0: nat, r1: nat, r2: u32, ghost m0: seq<byte>, ghost dst: nat, ghost src: nat, ghost n: nat)
    requires n < 0x8000_0000 && r2 <= n && r0 == dst + n - r2 && r1 == src + n - r2
    requires Up(m0, mem[..], dst, src, n - r2, n)
    modifies mem
    ensures Up(m0, mem[..], dst, src, n, n)
  {
    hide Copied, Up;
    var r0: nat, r1: nat, r2: u32 := r0, r1, r2;
    UpFits(m0, mem[..], dst, src, n - r2, n);
    while !Negative(Subs(r2, 4))
      invariant r2 <= n && r0 == dst + n - r2 && r1 == src + n - r2
      invariant Up(m0, mem[..], dst, src, n - r2, n)
      decreases r2
    {
      ghost var k := n - r2;
      ghost var m := mem[..];
      r2 := Subs(r2, 4);
      CopyWord(mem, r0, r1);
      UpNext(m0, m, mem[..], dst, src, k, 4, n);
      r0, r1 := r0 + 4, r1 + 4;
    }
    UpTail(mem, r0, r1, (Subs(r2, 4) + 4) % TWO32, m0, dst, src, n);
  }

  /** The upward copy stops one byte late: it started off a word boundary and never reached one. */
  predicate Overrun(dst: nat, src: nat, size: nat) {
    dst % 4 == src % 4 != 0 && size < 4 - src % 4
  }

  function UpCount(dst: nat, src: nat, size: nat): nat {
    if Overrun(dst, src, size) then size + 1 else size
  }

  /** `copyup_head` and what follows, on mutually aligned addresses. */
  method UpHead(mem: array<byte>, dst: nat, src: nat, size: u32, ghost m0: seq<byte>)
    requires 0 < size < 0x8000_0000 && dst % 4 == src % 4
    requires Up(m0, mem[..], dst, src, 0, UpCount(dst, src, size))
    modifies mem
    ensures Up(m0, mem[..], dst, src, UpCount(dst, src, size), UpCount(dst, src, size))
  {
    hide Copied, Up;
    ghost var n := UpCount(dst, src, size);
    UpFits(m0, mem[..], dst, src, 0, n);
    var r0: nat, r1: nat, r2: u32 := dst, src, size;
    while r1 % 4 != 0
      invariant r2 <= size && r0 == dst + size - r2 && r1 == src + size - r2
      invariant src % 4 + (size - r2) <= 4 && (src % 4 == 0 ==> r2 == size)
      invariant Up(m0, mem[..], dst, src, size - r2, n)
      decreases r2
    {
      ghost var k := size - r2;
      ghost var m := mem[..];
      HeadRoom(dst, src, size, r2);
      CopyByte(mem, r0, r1);
      UpNext(m0, m, mem[..], dst, src, k, 1, n);
      r0, r1, r2 := r0 + 1, r1 + 1, Subs(r2, 1);
      if Negative(r2) { return; }
    }
    HeadDone(dst, src, size, r2);
    UpWords(mem, r0, r1, r2, m0, dst, src, n);
  }

  /** Off a word boundary the head loop still has a byte to copy, counted or not. */
  lemma HeadRoom(dst: nat, src: nat, size: nat, r2: nat)
    requires r2 <= size && (src + size - r2) % 4 != 0 && dst % 4 == src % 4
    requires src % 4 + (size - r2) <= 4 && (src % 4 == 0 ==> r2 == size)
    ensures size - r2 + 1 <= UpCount(dst, src, size)
    ensures src % 4 + (size - r2) + 1 <= 4 && src % 4 != 0
    ensures r2 == 0 ==> Overrun(dst, src, size)
  {
    var q, k := src % 4, size - r2;
    assert (src + k) % 4 == (q + k) % 4;
  }

  lemma HeadDone(dst: nat, src: nat, size: nat, r2: nat)
    requires r2 <= size && (src + size - r2) % 4 == 0 && dst % 4 == src % 4
    requires src % 4 + (size - r2) <= 4
    ensures UpCount(dst, src, size) == size
  {
    var q, k := src % 4, size - r2;
    assert (src + k) % 4 == (q + k) % 4;
  }

  const UP_CODE: seq<u32> := [
    0xe59f0054, 0xe59f1054, 0xe59f2054, 0xe0413000, 0xe3130003, 0x1a00000b, 0xe3110003, 0x0a000004,
    0xe4d13001, 0xe4c03001, 0xe2522001, 0x5afffff9, 0xe12fff1e, 0xe2522004, 0x54913004, 0x54803004,
    0x5afffffb, 0xe2822004, 0xe2522001, 0x412fff1e, 0xe4d13001, 0xe4c03001, 0xeafffffa]

  const DOWN_CODE: seq<u32> := [
    0xe59f0058, 0xe59f1058, 0xe59f2058, 0xe0403001, 0xe3130003, 0x1a00000c, 0xe0813002, 0xe3130003,
    0x0a000004, 0xe2522001, 0x412fff1e, 0xe7d13002, 0xe7c03002, 0xeafffff7, 0xe2522004, 0x57913002,
    0x57803002, 0x5afffffb, 0xe2822004, 0xe2522001, 0x412fff1e, 0xe7d13002, 0xe7c03002, 0xeafffffa]

  /** The block uploaded for a copy: code, then the three operands. */
  function Block(code: seq<u32>, dst: u32, src: u32, size: u32): (r: seq<u32>)
    ensures |r| == |code| + 3
  {
    code + [dst, src, size]
  }

  /** Upload a block at the scratch address and load the operands behind the code. */
  method LoadOperands(mem: array<byte>, scratch: nat, code: seq<u32>, dst: u32, src: u32, size: u32) returns (r0: u32, r1: u32, r2: u32)
    requires scratch + 4 * |code| + 12 <= mem.Length
    modifies mem
    ensures r0 == dst && r1 == src && r2 == size
    ensures mem[..] == Put(old(mem[..]), scratch, LeWords(Block(code, dst, src, size)))
  {
    hide LeWords, WordAt, Put;
    var block := Block(code, dst, src, size);
    ghost var m := mem[..];
    PutBytes(mem, scratch, LeWords(block));
    UploadedWord(m, scratch, block, |code|);
    UploadedWord(m, scratch, block, |code| + 1);
    UploadedWord(m, scratch, block, |code| + 2);
    r0 := LoadWord(mem, scratch + 4 * |code|);
    r1 := LoadWord(mem, scratch + 4 * |code| + 4);
    r2 := LoadWord(mem, scratch + 4 * |code| + 8);
  }

  lemma MutuallyAligned(a: u32, b: u32)
    ensures (a + TWO32 - b) % TWO32 % 4 == 0 <==> a % 4 == b % 4
  {
    var d := if b <= a then a - b else a + TWO32 - b;
    assert (a + TWO32 - b) % TWO32 == d;
    assert d % 4 == 0 <==> a % 4 == b % 4;
  }

  lemma Misaligned(dst: nat, src: nat, size: nat)
    ensures dst % 4 != src % 4 ==> UpCount(dst, src, size) == size
  {}

  /** `fel_memcpy_up`. */
  method MemcpyUp(mem: array<byte>, scratch: nat, dst: u32, src: u32, size: u32)
    requires Room(mem.Length, scratch, dst, src, size)
    requires size > 0 ==> dst <= src || src + UpCount(dst, src, size) <= dst
    requires size > 0 ==> dst + UpCount(dst, src, size) <= mem.Length && src + UpCount(dst, src, size) <= mem.Length
    modifies mem
    ensures size == 0 ==> mem[..] == old(mem[..])
    ensures size > 0 ==> mem[..] == Copied(Put(old(mem[..]), scratch, LeWords(Block(UP_CODE, dst, src, size))), dst, src, UpCount(dst, src, size))
  {
    if size == 0 { return; }
    hide LeWords, Put, Copied, Block, UpCount;
    var r0, r1, r2 := LoadOperands(mem, scratch, UP_CODE, dst, src, size);
    ghost var m0 := mem[..];
    Start(m0, dst, src, UpCount(dst, src, size));
    MutuallyAligned(r1, r0);
    Misaligned(dst, src, size);
    var r3 := (r1 + TWO32 - r0) % TWO32;
    if r3 % 4 != 0 {
      UpTail(mem, r0, r1, r2, m0, dst, src, size);
    } else {
      UpHead(mem, r0, r1, r2, m0);
    }
  }

  /** The whole memory is words, both areas lie in it, and the scratch area is clear of both. */
  predicate Room(top: nat, scratch: nat, dst: nat, src: nat, size: nat) {
    && top <= TWO32 && top % 4 == 0 && size < 0x8000_0000
    && dst + size <= top && src + size <= top && scratch + 4 * 27 <= top
  }

  // ----- the downward machine

  lemma DownFits(m0: seq<byte>, m: seq<byte>, dst: nat, src: nat, k: nat, n: nat)
    requires Down(m0, m, dst, src, k, n)
    ensures dst + n <= |m| == |m0| && src + n <= |m| <= TWO32 && k <= n
  {}

  /** `copydn_tail`. */
  method DownTail(mem: array<byte>, r0: nat, r1: nat, r2: u32, ghost m0: seq<byte>, ghost n: nat)
    requires n < 0x8000_0000 && Down(m0, mem[..], r0, r1, r2, n)
    modifies mem
    ensures Down(m0, mem[..], r0, r1, 0, n)
  {
    hide Copied, Down;
    var r2: u32 := r2;
    DownFits(m0, mem[..], r0, r1, r2, n);
    while true
      invariant r2 <= n && Down(m0, mem[..], r0, r1, r2, n)
      decreases r2
    {
      ghost var k := r2;
      ghost var m := mem[..];
      if Negative(Subs(r2, 1)) { break; }
      r2 := Subs(r2, 1);
      CopyByte(mem, r0 + r2, r1 + r2);
      DownNext(m0, m, mem[..], r0, r1, k, 1, n);
    }
  }

  /** `copydn_loop`. */
  method DownWords(mem: array<byte>, r0: nat, r1: nat, r2: u32, ghost m0: seq<byte>, ghost n: nat)
    requires n < 0x8000_0000 && Down(m0, mem[..], r0, r1, r2, n)
    modifies mem
    ensures Down(m0, mem[..], r0, r1, 0, n)
  {
    hide Copied, Down;
    var r2: u32 := r2;
    DownFits(m0, mem[..], r0, r1, r2, n);
    while !Negative(Subs(r2, 4))
      invariant r2 <= n && Down(m0, mem[..], r0, r1, r2, n)
      decreases r2
    {
      ghost var k := r2;
      ghost var m := mem[..];
      r2 := Subs(r2, 4);
      CopyWord(mem, r0 + r2, r1 + r2);
      DownNext(m0, m, mem[..], r0, r1, k, 4, n);
    }
    DownTail(mem, r0, r1, (Subs(r2, 4) + 4) % TWO32, m0, n);
  }

  /** `copydn_head`: unlike the upward head, it tests the count before it copies. */
  method DownHead(mem: array<byte>, r0: nat, r1: nat, size: u32, ghost m0: seq<byte>)
    requires size < 0x8000_0000 && Down(m0, mem[..], r0, r1, size, size)
    modifies mem
    ensures Down(m0, mem[..], r0, r1, 0, size)
  {
    hide Copied, Down;
    var r2: u32 := size;
    DownFits(m0, mem[..], r0, r1, r2, size);
    while (r1 + r2) % 4 != 0
      invariant r2 <= size && Down(m0, mem[..], r0, r1, r2, size)
      decreases r2
    {
      ghost var k := r2;
      ghost var m := mem[..];
      if Negative(Subs(r2, 1)) { return; }
      r2 := Subs(r2, 1);
      CopyByte(mem, r0 + r2, r1 + r2);
      DownNext(m0, m, mem[..], r0, r1, k, 1, size);
    }
    DownWords(mem, r0, r1, r2, m0, size);
  }

  /** `fel_memcpy_down`. */
  method MemcpyDown(mem: array<byte>, scratch: nat, dst: u32, src: u32, size: u32)
    requires Room(mem.Length, scratch, dst, src, size) && src <= dst
    modifies mem
    ensures size == 0 ==> mem[..] == old(mem[..])
    ensures size > 0 ==> mem[..] == Copied(Put(old(mem[..]), scratch, LeWords(Block(DOWN_CODE, dst, src, size))), dst, src, size)
  {
    if size == 0 { return; }
    hide LeWords, Put, Copied, Block;
    var r0, r1, r2 := LoadOperands(mem, scratch, DOWN_CODE, dst, src, size);
    ghost var m0 := mem[..];
    Start(m0, dst, src, size);
    var r3 := (r0 + TWO32 - r1) % TWO32;
    if r3 % 4 != 0 {
      DownTail(mem, r0, r1, r2, m0, size);
    } else {
      DownHead(mem, r0, r1, r2, m0);
    }
  }

  // ----- the choice between them

  predicate GoesDown(dst: nat, src: nat, size: nat) {
    src <= dst < src + size
  }

  /** The number of bytes `fel_memmove` really moves. */
  function MoveCount(dst: nat, src: nat, size: nat): nat {
    if size == 0 || GoesDown(dst, src, size) then size else UpCount(dst, src, size)
  }

  /** The count stays inside memory, and never makes an upward copy overlap from below. */
  lemma MoveCountFits(top: nat, scratch: nat, dst: nat, src: nat, size: nat)
    requires Room(top, scratch, dst, src, size)
    ensures dst + MoveCount(dst, src, size) <= top && src + MoveCount(dst, src, size) <= top
    ensures !GoesDown(dst, src, size) && size > 0 ==> dst <= src || src + MoveCount(dst, src, size) <= dst
  {}

  /**
   `fel_memmove`: the destination receives the original source bytes whatever
   the overlap, and outside the scratch area nothing else changes, except for
   the one further byte of the overrun case.
   */
  method FelMemmove(mem: array<byte>, scratch: nat, dst: u32, src: u32, size: u32)
    requires Room(mem.Length, scratch, dst, src, size)
    requires scratch + 4 * 27 <= dst || dst + MoveCount(dst, src, size) <= scratch
    requires scratch + 4 * 27 <= src || src + MoveCount(dst, src, size) <= scratch
    modifies mem
    ensures dst + MoveCount(dst, src, size) <= mem.Length && src + MoveCount(dst, src, size) <= mem.Length
    ensures mem[dst..dst + MoveCount(dst, src, size)] == old(mem[src..src + MoveCount(dst, src, size)])
    ensures forall i :: 0 <= i < mem.Length && !(dst <= i < dst + MoveCount(dst, src, size)) && !(scratch <= i < scratch + 4 * 27)
              ==> mem[i] == old(mem[i])
  {
    hide LeWords, Put, Copied, UpCount, Block, UP_CODE, DOWN_CODE;
    MoveCountFits(mem.Length, scratch, dst, src, size);
    ghost var m := mem[..];
    ghost var n := MoveCount(dst, src, size);
    if dst >= src && dst < src + size {
      MemcpyDown(mem, scratch, dst, src, size);
      if size > 0 {
        BlockFits(DOWN_CODE, dst, src, size);
        Moved(m, scratch, LeWords(Block(DOWN_CODE, dst, src, size)), dst, src, n);
      }
    } else {
      MemcpyUp(mem, scratch, dst, src, size);
      if size > 0 {
        BlockFits(UP_CODE, dst, src, size);
        Moved(m, scratch, LeWords(Block(UP_CODE, dst, src, size)), dst, src, n);
      }
    }
  }

  lemma BlockFits(code: seq<u32>, dst: u32, src: u32, size: u32)
    requires code == UP_CODE || code == DOWN_CODE
    ensures |LeWords(Block(code, dst, src, size))| <= 4 * 27
  {
    hide LeWords;
  }

  lemma Moved(m: seq<byte>, scratch: nat, code: seq<byte>, dst: nat, src: nat, n: nat)
    requires |code| <= 4 * 27 && scratch + 4 * 27 <= |m| && dst + n <= |m| && src + n <= |m|
    requires scratch + 4 * 27 <= dst || dst + n <= scratch
    requires scratch + 4 * 27 <= src || src + n <= scratch
    ensures Copied(Put(m, scratch, code), dst, src, n)[dst..dst + n] == m[src..src + n]
    ensures forall i :: 0 <= i < |m| && !(dst <= i < dst + n) && !(scratch <= i < scratch + 4 * 27)
              ==> Copied(Put(m, scratch, code), dst, src, n)[i] == m[i]
  {
    hide Put;
    PutOutside(m, scratch, code, src, n);
    PutLeaves(m, scratch, code);
    var c, bs := Put(m, scratch, code), m[src..src + n];
    PutSlice(c, dst, bs, 0, n);
    assert bs[0..n] == bs;
    PutLeaves(c, dst, bs);
  }

  /**
   Exactly when the move is right: either the count is not overrun, or the byte
   behind the destination already equals the byte behind the source.
   */
  lemma MemmoveExact(m: seq<byte>, dst: nat, src: nat, size: nat)
    requires dst + MoveCount(dst, src, size) <= |m| && src + MoveCount(dst, src, size) <= |m|
    ensures MoveCount(dst, src, size) >= size
    ensures Copied(m, dst, src, MoveCount(dst, src, size)) == Copied(m, dst, src, size)
       <==> !(0 < size && dst != src && Overrun(dst, src, size)) || m[dst + size] == m[src + size]
  {
    var n := MoveCount(dst, src, size);
    var a, b := Copied(m, dst, src, n), Copied(m, dst, src, size);
    if 0 < size && dst != src && Overrun(dst, src, size) {
      assert n == size + 1;
      assert a[dst + size] == m[src + size];
      assert b[dst + size] == m[dst + size];
      if m[dst + size] == m[src + size] {
        assert a == b;
      }
    } else {
      assert n == size;
    }
  }

  /** One byte from address 1 to address 5 also carries the byte behind it. */
  lemma OverrunExample(m: seq<byte>)
    requires |m| == 8 && m == [0, 1, 2, 3, 4, 5, 6, 7]
    ensures MoveCount(5, 1, 1) == 2
    ensures Copied(m, 5, 1, 2) == [0, 1, 2, 3, 4, 1, 2, 7] != Copied(m, 5, 1, 1)
  {
    assert Copied(m, 5, 1, 1)[6] == 6;
  }
}
