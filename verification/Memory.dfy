/**
 Byte-addressed memory: little-endian words, blocks of bytes put into place, and
 the accesses a device or a host makes to it.
 */
module Memory {
  import opened BitVectors

  const TWO32: nat := 0x1_0000_0000

  predicate In(a: nat, n: nat, i: nat) {
    a <= i < a + n
  }

  predicate Apart(a: nat, n: nat, b: nat, k: nat) {
    a + n <= b || b + k <= a
  }

  /** The little-endian word at address `a`. */
  function WordAt(m: seq<byte>, a: nat): (w: u32)
    requires a + 4 <= |m|
  {
    var b0: nat, b1: nat, b2: nat, b3: nat := m[a], m[a + 1], m[a + 2], m[a + 3];
    b0 + 0x100 * b1 + 0x1_0000 * b2 + 0x100_0000 * b3
  }

  function Le(w: u32): (bs: seq<byte>)
    ensures |bs| == 4
  {
    [w % 0x100, (w / 0x100) % 0x100, (w / 0x1_0000) % 0x100, w / 0x100_0000]
  }

  lemma WordOfLe(m: seq<byte>, a: nat, w: u32)
    requires a + 4 <= |m| && m[a..a + 4] == Le(w)
    ensures WordAt(m, a) == w
  {
    var s := m[a..a + 4];
    assert s[0] == m[a] && s[1] == m[a + 1] && s[2] == m[a + 2] && s[3] == m[a + 3];
    LeValue(w);
  }

  lemma LeValue(w: u32)
    ensures w % 0x100 + 0x100 * ((w / 0x100) % 0x100) + 0x1_0000 * ((w / 0x1_0000) % 0x100) + 0x100_0000 * (w / 0x100_0000) == w
  {
    assert w == 0x100 * (w / 0x100) + w % 0x100;
    assert w / 0x100 == 0x100 * (w / 0x1_0000) + (w / 0x100) % 0x100;
    assert w / 0x1_0000 == 0x100 * (w / 0x100_0000) + (w / 0x1_0000) % 0x100;
  }

  function Put(m: seq<byte>, a: nat, bs: seq<byte>): (r: seq<byte>)
    requires a + |bs| <= |m|
    ensures |r| == |m|
  {
    m[..a] + bs + m[a + |bs|..]
  }

  lemma PutOutside(m: seq<byte>, a: nat, bs: seq<byte>, b: nat, n: nat)
    requires a + |bs| <= |m| && b + n <= |m| && Apart(a, |bs|, b, n)
    ensures Put(m, a, bs)[b..b + n] == m[b..b + n]
  {
    forall i | b <= i < b + n ensures Put(m, a, bs)[i] == m[i] {}
  }

  lemma PutSlice(m: seq<byte>, a: nat, bs: seq<byte>, k: nat, l: nat)
    requires a + |bs| <= |m| && k <= l <= |bs|
    ensures Put(m, a, bs)[a + k..a + l] == bs[k..l]
  {}

  lemma PutLeaves(m: seq<byte>, a: nat, bs: seq<byte>)
    requires a + |bs| <= |m|
    ensures forall i :: 0 <= i < |m| && !(a <= i < a + |bs|) ==> Put(m, a, bs)[i] == m[i]
  {}

  lemma PutBehind(m: seq<byte>, a: nat, h: seq<byte>, d: seq<byte>)
    requires a + |h| + |d| <= |m|
    ensures Put(m, a, h + d)[a + |h|..a + |h| + |d|] == d
    ensures forall i :: 0 <= i < |m| && !(a <= i < a + |h| + |d|) ==> Put(m, a, h + d)[i] == m[i]
  {
    hide Put;
    assert (h + d)[|h|..|h| + |d|] == d;
    PutSlice(m, a, h + d, |h|, |h| + |d|);
    PutLeaves(m, a, h + d);
  }

  lemma PutAt(m: seq<byte>, a: nat, bs: seq<byte>, k: nat)
    requires a + |bs| <= |m| && k < |bs|
    ensures Put(m, a, bs)[a + k] == bs[k]
  {}

  lemma FrontSlice(x: seq<byte>, y: seq<byte>, k: nat, l: nat)
    requires k + l <= |x|
    ensures (x + y)[k..k + l] == x[k..k + l]
  {}

  /** Two neighbouring stores are one. */
  lemma PutBeside(m: seq<byte>, a: nat, x: seq<byte>, y: seq<byte>)
    requires a + |x| + |y| <= |m|
    ensures Put(Put(m, a, x), a + |x|, y) == Put(m, a, x + y)
    ensures Put(Put(m, a + |x|, y), a, x) == Put(m, a, x + y)
  {}

  lemma SubSlice(m: seq<byte>, a: nat, n: nat, k: nat, l: nat)
    requires a + n <= |m| && k + l <= n
    ensures m[a..a + n][k..k + l] == m[a + k..a + k + l]
  {
    var x, y := m[a..a + n][k..k + l], m[a + k..a + k + l];
    forall i | 0 <= i < l ensures x[i] == y[i] {
      assert x[i] == m[a..a + n][k + i] == m[a + (k + i)];
    }
  }

  /** Equal stretches of memory hold equal words. */
  lemma SameWord(m: seq<byte>, a: nat, m': seq<byte>, b: nat, n: nat, k: nat)
    requires a + n <= |m| && b + n <= |m'| && m[a..a + n] == m'[b..b + n] && k + 4 <= n
    ensures WordAt(m, a + k) == WordAt(m', b + k)
  {
    var s, t := m[a..a + n], m'[b..b + n];
    assert s[k] == m[a + k] && s[k + 1] == m[a + k + 1] && s[k + 2] == m[a + k + 2] && s[k + 3] == m[a + k + 3];
    assert t[k] == m'[b + k] && t[k + 1] == m'[b + k + 1] && t[k + 2] == m'[b + k + 2] && t[k + 3] == m'[b + k + 3];
  }

  function LeWords(ws: seq<u32>): (bs: seq<byte>)
    ensures |bs| == 4 * |ws|
  {
    if ws == [] then [] else LeWords(ws[..|ws| - 1]) + Le(ws[|ws| - 1])
  }

  lemma {:induction false} LeWordsAt(ws: seq<u32>, i: nat)
    requires i < |ws|
    ensures LeWords(ws)[4 * i..4 * i + 4] == Le(ws[i])
    decreases |ws|
  {
    hide Le;
    var init := ws[..|ws| - 1];
    if i < |init| {
      LeWordsAt(init, i);
      assert LeWords(ws)[..4 * |init|] == LeWords(init);
      assert LeWords(ws)[4 * i..4 * i + 4] == LeWords(init)[4 * i..4 * i + 4];
    }
  }

  lemma {:induction false} LeWordsJoin(a: seq<u32>, b: seq<u32>)
    ensures LeWords(a + b) == LeWords(a) + LeWords(b)
    decreases |b|
  {
    hide Le;
    if b == [] {
      assert a + b == a;
    } else {
      var init := b[..|b| - 1];
      LeWordsJoin(a, init);
      assert (a + b)[..|a + b| - 1] == a + init;
    }
  }

  /** A word of an uploaded block, read back from memory. */
  lemma UploadedWord(m: seq<byte>, a: nat, ws: seq<u32>, i: nat)
    requires a + 4 * |ws| <= |m| && i < |ws|
    ensures WordAt(Put(m, a, LeWords(ws)), a + 4 * i) == ws[i]
  {
    hide Le, LeWords, WordAt, Put;
    var r := Put(m, a, LeWords(ws));
    LeWordsAt(ws, i);
    PutSlice(m, a, LeWords(ws), 4 * i, 4 * i + 4);
    WordOfLe(r, a + 4 * i, ws[i]);
  }

  method StoreWord(mem: array<byte>, a: nat, bs: seq<byte>)
    requires |bs| == 4 && a + 4 <= mem.Length
    modifies mem
    ensures mem[..] == Put(old(mem[..]), a, bs)
  {
    mem[a], mem[a + 1], mem[a + 2], mem[a + 3] := bs[0], bs[1], bs[2], bs[3];
  }

  method LoadWord(mem: array<byte>, a: nat) returns (w: u32)
    requires a + 4 <= mem.Length
    ensures w == WordAt(mem[..], a)
  {
    w := WordAt(mem[a..a + 4], 0);
  }

  method PutBytes(mem: array<byte>, a: nat, bs: seq<byte>)
    requires a + |bs| <= mem.Length
    modifies mem
    ensures mem[..] == Put(old(mem[..]), a, bs)
  {
    ghost var m := mem[..];
    for i := 0 to |bs|
      invariant forall j :: 0 <= j < i ==> mem[a + j] == bs[j]
      invariant forall j :: 0 <= j < mem.Length && !(a <= j < a + i) ==> mem[j] == m[j]
    {
      mem[a + i] := bs[i];
    }
  }

  method LoadMemory(mem: array<byte>, m: seq<byte>)
    requires |m| == mem.Length
    modifies mem
    ensures mem[..] == m
  {
    for i := 0 to mem.Length
      invariant forall j :: 0 <= j < i ==> mem[j] == m[j]
    {
      mem[i] := m[i];
    }
  }
}
