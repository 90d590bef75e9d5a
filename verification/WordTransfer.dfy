/**
 Reading and writing consecutive words through uploaded ARM loops: one chunk at
 a time, never more scratch memory than 0x400 bytes.
 */
module WordTransfer {
  import opened BitVectors
  import opened Memory
  import opened Memmove

  /** Words of code and operands in front of the data. */
  const CODE_WORDS: nat := 12
  const MAX_TOTAL: nat := 0x100
  const MAX_WORDS: nat := MAX_TOTAL - CODE_WORDS

  const READ_CODE: seq<u32> := [
    0xe59f0020, 0xe28f1024, 0xe59f201c, 0xe35200f4, 0xc3a020f4,
    0xe2522001, 0x412fff1e, 0xe4903004, 0xe4813004, 0xeafffffa]

  const WRITE_CODE: seq<u32> := [
    0xe59f0020, 0xe28f1024, 0xe59f201c, 0xe35200f4, 0xc3a020f4,
    0xe2522001, 0x412fff1e, 0xe4913004, 0xe4803004, 0xeafffffa]

  /** The consecutive words a range holds. */
  function WordsAt(m: seq<byte>, a: nat, n: nat): (ws: seq<u32>)
    requires a + 4 * n <= |m|
    ensures |ws| == n
  {
    if n == 0 then [] else WordsAt(m, a, n - 1) + [WordAt(m, a + 4 * (n - 1))]
  }

  lemma {:induction false} WordsAtIndex(m: seq<byte>, a: nat, n: nat, i: nat)
    requires a + 4 * n <= |m| && i < n
    ensures WordsAt(m, a, n)[i] == WordAt(m, a + 4 * i)
  {
    hide WordAt;
    if i < n - 1 { WordsAtIndex(m, a, n - 1, i); }
  }

  lemma WordsAtNext(m: seq<byte>, a: nat, n: nat)
    requires a + 4 * n + 4 <= |m|
    ensures WordsAt(m, a, n + 1) == WordsAt(m, a, n) + [WordAt(m, a + 4 * n)]
  {}

  lemma {:induction false} WordsAtJoin(m: seq<byte>, a: nat, n: nat, k: nat)
    requires a + 4 * (n + k) <= |m|
    ensures WordsAt(m, a, n + k) == WordsAt(m, a, n) + WordsAt(m, a + 4 * n, k)
    decreases k
  {
    hide WordAt;
    if k > 0 { WordsAtJoin(m, a, n, k - 1); }
  }

  /** Words depend only on the bytes of their range. */
  lemma {:induction false} WordsAtSlice(m: seq<byte>, a: nat, s: seq<byte>, n: nat)
    requires a + |s| <= |m| && m[a..a + |s|] == s && 4 * n <= |s|
    ensures WordsAt(m, a, n) == WordsAt(s, 0, n)
    decreases n
  {
    if n > 0 {
      WordsAtSlice(m, a, s, n - 1);
      assert s[0..|s|] == s;
      SameWord(m, a, s, 0, |s|, 4 * (n - 1));
    }
  }

  /** Equal bytes make equal words, wherever they lie. */
  lemma WordsAtMoved(m: seq<byte>, a: nat, m': seq<byte>, a': nat, n: nat)
    requires a + 4 * n <= |m| && a' + 4 * n <= |m'|
    requires m[a..a + 4 * n] == m'[a'..a' + 4 * n]
    ensures WordsAt(m, a, n) == WordsAt(m', a', n)
  {
    hide WordsAt;
    var s := m[a..a + 4 * n];
    WordsAtSlice(m, a, s, n);
    WordsAtSlice(m', a', s, n);
  }

  lemma WordsOfUpload(m: seq<byte>, a: nat, ws: seq<u32>)
    requires a + 4 * |ws| <= |m| && m[a..a + 4 * |ws|] == LeWords(ws)
    ensures WordsAt(m, a, |ws|) == ws
  {
    hide WordAt, LeWords, WordsAt;
    forall i | 0 <= i < |ws| ensures WordsAt(m, a, |ws|)[i] == ws[i] {
      WordsAtIndex(m, a, |ws|, i);
      LeWordsAt(ws, i);
      SubSlice(m, a, 4 * |ws|, 4 * i, 4);
      WordOfLe(m, a + 4 * i, ws[i]);
    }
  }

  // ----- the device loop

  /** The loop of both thunks: `r2` words from `from` to `to`, lowest first. */
  method WordLoop(mem: array<byte>, from: nat, to: nat, count: u32)
    requires mem.Length <= TWO32 && count < 0x8000_0000
    requires from + 4 * count <= mem.Length && to + 4 * count <= mem.Length
    requires Apart(from, 4 * count, to, 4 * count)
    modifies mem
    ensures mem[..] == Copied(old(mem[..]), to, from, 4 * count)
  {
    hide Copied, Up;
    var r0: nat, r1: nat, r2: u32 := from, to, count;
    ghost var m0 := mem[..];
    Start(m0, to, from, 4 * count);
    while true
      invariant r2 <= count && r0 == from + 4 * (count - r2) && r1 == to + 4 * (count - r2)
      invariant Up(m0, mem[..], to, from, 4 * (count - r2), 4 * count)
      decreases r2
    {
      ghost var k := 4 * (count - r2);
      ghost var m := mem[..];
      r2 := Subs(r2, 1);
      if Negative(r2) { break; }
      CopyWord(mem, r1, r0);
      UpNext(m0, m, mem[..], to, from, k, 4, 4 * count);
      r0, r1 := r0 + 4, r1 + 4;
    }
    UpDone(m0, mem[..], to, from, 4 * count);
  }

  lemma UpDone(m0: seq<byte>, m: seq<byte>, dst: nat, src: nat, n: nat)
    requires Up(m0, m, dst, src, n, n)
    ensures dst + n <= |m0| && src + n <= |m0| && m == Copied(m0, dst, src, n)
  {}

  /** `cmp` and `movgt` in front of the loop. */
  function Capped(r2: u32): (r: u32) {
    if r2 > MAX_WORDS then MAX_WORDS else r2
  }

  /** Upload code, operands and data; then load the operands and cap the count. */
  method Prepare(mem: array<byte>, scratch: nat, code: seq<u32>, addr: u32, count: u32, data: seq<u32>) returns (r0: u32, r2: u32)
    requires |code| == 10 && 0 < count <= MAX_WORDS && |data| <= count && scratch + 4 * MAX_TOTAL <= mem.Length
    modifies mem
    ensures r0 == addr && r2 == count
    ensures forall i :: 0 <= i < mem.Length && !(scratch <= i < scratch + 48 + 4 * |data|) ==> mem[i] == old(mem[i])
    ensures mem[scratch + 48..scratch + 48 + 4 * |data|] == LeWords(data)
  {
    hide LeWords, WordAt, Put;
    var block := code + [addr, count] + data;
    ghost var m := mem[..];
    PutBytes(mem, scratch, LeWords(block));
    UploadedWord(m, scratch, block, 10);
    UploadedWord(m, scratch, block, 11);
    UploadedData(m, scratch, code + [addr, count], data);
    r0 := LoadWord(mem, scratch + 40);
    r2 := LoadWord(mem, scratch + 44);
    r2 := Capped(r2);
  }

  lemma UploadedData(m: seq<byte>, a: nat, head: seq<u32>, data: seq<u32>)
    requires a + 4 * |head| + 4 * |data| <= |m|
    ensures Put(m, a, LeWords(head + data))[a + 4 * |head|..a + 4 * |head| + 4 * |data|] == LeWords(data)
    ensures forall i :: 0 <= i < |m| && !(a <= i < a + 4 * |head| + 4 * |data|) ==> Put(m, a, LeWords(head + data))[i] == m[i]
  {
    hide LeWords, Put;
    LeWordsJoin(head, data);
    PutBehind(m, a, LeWords(head), LeWords(data));
  }

  /** Where the transfer may touch memory besides its target range. */
  predicate ScratchClear(top: nat, scratch: nat, addr: nat, count: nat) {
    && top <= TWO32 && scratch + 4 * MAX_TOTAL <= top && addr + 4 * count <= top
    && Apart(scratch, 4 * MAX_TOTAL, addr, 4 * count)
  }

  /** `aw_fel_readl_n`, one chunk; a larger count is truncated. */
  method ReadChunk(mem: array<byte>, scratch: nat, addr: u32, count: nat) returns (dst: seq<u32>)
    requires ScratchClear(mem.Length, scratch, addr, count)
    modifies mem
    ensures |dst| == ChunkLen(count)
    ensures dst == WordsAt(old(mem[..]), addr, |dst|)
    ensures forall i :: 0 <= i < mem.Length && !(scratch <= i < scratch + 4 * MAX_TOTAL) ==> mem[i] == old(mem[i])
  {
    hide WordsAt, Copied, WordAt;
    ghost var m := mem[..];
    if count == 0 { ReadNothing(m, addr); return []; }
    var n := ChunkLen(count);
    var r0, r2 := Prepare(mem, scratch, READ_CODE, addr, n, []);
    ghost var m1 := mem[..];
    WordLoop(mem, r0, scratch + 48, r2);
    dst := ReadBack(mem, scratch + 48, n);
    ReadRight(m, m1, scratch + 48, addr, n);
  }

  lemma ReadNothing(m: seq<byte>, a: nat)
    requires a <= |m|
    ensures WordsAt(m, a, 0) == []
  {}

  lemma ReadRight(m: seq<byte>, m1: seq<byte>, buf: nat, addr: nat, n: nat)
    requires |m| == |m1| && buf + 4 * n <= |m| && addr + 4 * n <= |m|
    requires forall i :: addr <= i < addr + 4 * n ==> m1[i] == m[i]
    ensures WordsAt(Copied(m1, buf, addr, 4 * n), buf, n) == WordsAt(m, addr, n)
    ensures forall i :: 0 <= i < |m| && !(buf <= i < buf + 4 * n) ==> Copied(m1, buf, addr, 4 * n)[i] == m1[i]
  {
    hide Put, WordsAt;
    var bs := m1[addr..addr + 4 * n];
    var r := Copied(m1, buf, addr, 4 * n);
    assert bs == m[addr..addr + 4 * n];
    PutSlice(m1, buf, bs, 0, 4 * n);
    assert bs[0..4 * n] == bs;
    PutLeaves(m1, buf, bs);
    WordsAtMoved(r, buf, m, addr, n);
  }

  /** Read back the data area and extract the words. */
  method ReadBack(mem: array<byte>, a: nat, n: nat) returns (ws: seq<u32>)
    requires a + 4 * n <= mem.Length
    ensures ws == WordsAt(mem[..], a, n)
  {
    hide WordAt, WordsAt;
    ws := [];
    ReadNothing(mem[..], a);
    for i := 0 to n
      invariant ws == WordsAt(mem[..], a, i)
    {
      WordsAtNext(mem[..], a, i);
      ws := ws + [WordAt(mem[..], a + 4 * i)];
    }
  }

  /** `fel_readl_n`: exactly `count` consecutive words, for every count. */
  method ReadlN(mem: array<byte>, scratch: nat, addr: u32, count: nat) returns (dst: seq<u32>)
    requires ScratchClear(mem.Length, scratch, addr, count)
    modifies mem
    ensures dst == WordsAt(old(mem[..]), addr, count)
    ensures forall i :: 0 <= i < mem.Length && !(scratch <= i < scratch + 4 * MAX_TOTAL) ==> mem[i] == old(mem[i])
  {
    hide WordsAt, WordAt;
    ghost var m := mem[..];
    dst := [];
    var left: nat, cur: nat := count, addr;
    ReadNothing(m, addr);
    while left > 0
      invariant left <= count && cur == addr + 4 * (count - left) && |dst| == count - left
      invariant dst == WordsAt(m, addr, count - left)
      invariant forall i :: 0 <= i < mem.Length && !(scratch <= i < scratch + 4 * MAX_TOTAL) ==> mem[i] == m[i]
    {
      var n := if left > MAX_WORDS then MAX_WORDS else left;
      ghost var now := mem[..];
      var part := ReadChunk(mem, scratch, cur, n);
      assert now[cur..cur + 4 * n] == m[cur..cur + 4 * n];
      WordsAtMoved(now, cur, m, cur, n);
      WordsAtJoin(m, addr, count - left, n);
      dst := dst + part;
      cur, left := cur + 4 * n, left - n;
    }
  }

  /** Words one chunk carries. */
  function ChunkLen(count: nat): nat {
    if count > MAX_WORDS then MAX_WORDS else count
  }

  /** `aw_fel_writel_n`, one chunk; further words are dropped. */
  method WriteChunk(mem: array<byte>, scratch: nat, addr: u32, src: seq<u32>)
    requires ScratchClear(mem.Length, scratch, addr, |src|)
    modifies mem
    ensures mem[addr..addr + 4 * ChunkLen(|src|)] == LeWords(src[..ChunkLen(|src|)])
    ensures forall i :: 0 <= i < mem.Length && !(scratch <= i < scratch + 4 * MAX_TOTAL) && !(addr <= i < addr + 4 * ChunkLen(|src|))
              ==> mem[i] == old(mem[i])
  {
    hide Copied, LeWords;
    var n := ChunkLen(|src|);
    if n == 0 { NoWords(); return; }
    var r0, r2 := Prepare(mem, scratch, WRITE_CODE, addr, n, src[..n]);
    ghost var m1 := mem[..];
    WordLoop(mem, scratch + 48, r0, r2);
    WriteRight(m1, scratch + 48, addr, 4 * n);
  }

  lemma WriteRight(m1: seq<byte>, buf: nat, addr: nat, n: nat)
    requires buf + n <= |m1| && addr + n <= |m1|
    ensures var r := Copied(m1, addr, buf, n);
      r[addr..addr + n] == m1[buf..buf + n] && forall i :: 0 <= i < |m1| && !(addr <= i < addr + n) ==> r[i] == m1[i]
  {}

  /** `fel_writel_n`: exactly the given words, consecutively; reading them back returns them. */
  method WritelN(mem: array<byte>, scratch: nat, addr: u32, src: seq<u32>)
    requires ScratchClear(mem.Length, scratch, addr, |src|)
    modifies mem
    ensures WordsAt(mem[..], addr, |src|) == src
    ensures forall i :: 0 <= i < mem.Length && !(scratch <= i < scratch + 4 * MAX_TOTAL) && !(addr <= i < addr + 4 * |src|)
              ==> mem[i] == old(mem[i])
  {
    hide LeWords, WordsAt;
    ghost var m := mem[..];
    var done: nat, cur: nat := 0, addr;
    NoWords();
    while done < |src|
      invariant done <= |src| && cur == addr + 4 * done
      invariant mem[addr..addr + 4 * done] == LeWords(src[..done])
      invariant forall i :: 0 <= i < mem.Length && !(scratch <= i < scratch + 4 * MAX_TOTAL) && !(addr <= i < addr + 4 * done)
                  ==> mem[i] == m[i]
    {
      var left := |src| - done;
      var n := if left > MAX_WORDS then MAX_WORDS else left;
      ghost var now := mem[..];
      var part := src[done..done + n];
      WriteChunk(mem, scratch, cur, part);
      assert part[..n] == part;
      Joined(now, mem[..], addr, done, n, src);
      done, cur := done + n, cur + 4 * n;
    }
    assert src[..done] == src;
    WordsOfUpload(mem[..], addr, src);
  }

  lemma NoWords()
    ensures LeWords([]) == []
  {}

  lemma Joined(now: seq<byte>, next: seq<byte>, addr: nat, done: nat, n: nat, src: seq<u32>)
    requires done + n <= |src| && |now| == |next| && addr + 4 * (done + n) <= |now|
    requires now[addr..addr + 4 * done] == LeWords(src[..done])
    requires forall i :: addr <= i < addr + 4 * done ==> next[i] == now[i]
    requires next[addr + 4 * done..addr + 4 * done + 4 * n] == LeWords(src[done..done + n])
    ensures next[addr..addr + 4 * (done + n)] == LeWords(src[..done + n])
  {
    hide LeWords;
    LeWordsJoin(src[..done], src[done..done + n]);
    assert src[..done] + src[done..done + n] == src[..done + n];
    assert next[addr..addr + 4 * done] == now[addr..addr + 4 * done];
    assert next[addr..addr + 4 * (done + n)] == next[addr..addr + 4 * done] + next[addr + 4 * done..addr + 4 * done + 4 * n];
  }
}
