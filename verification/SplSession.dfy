/**
 `aw_fel_write_and_execute_spl` as a whole: check the image, place it, upload
 the thunk, run it, look at the result.
 */
module SplSession {
  import opened BitVectors
  import opened Memory
  import opened SramSwap
  import opened SplThunk
  import opened SplLoader

  const MAGIC: seq<byte> := [0x65, 0x47, 0x4F, 0x4E, 0x2E, 0x42, 0x54, 0x30]

  // ----- the image checks

  /** What the host demands of the file: header, length, eGON sum. */
  predicate Acceptable(file: seq<byte>) {
    && |file| >= 32
    && file[4..12] == MAGIC
    && WordAt(file, 16) <= |file| && WordAt(file, 16) % 4 == 0
    && SumIs(file, 0, WordAt(file, 16) / 4)
  }

  /** The host's checks, summing downwards from twice the stated sum. */
  method CheckImage(file: seq<byte>) returns (ok: bool, len: nat)
    ensures ok <==> Acceptable(file)
    ensures ok ==> len == WordAt(file, 16)
  {
    hide WordAt, SumWords;
    len := 0;
    if |file| < 32 || file[4..12] != MAGIC { return false, 0; }
    var stated: nat := WordAt(file, 12);
    var sum := (2 * stated + TWO32 - CHECKSUM_SEED) % TWO32;
    len := WordAt(file, 16);
    if len > |file| || len % 4 != 0 { return false, len; }
    var i := 0;
    NoSum(file);
    while i < len / 4
      invariant 0 <= i <= len / 4 && 0 <= sum < TWO32
      invariant (sum + CHECKSUM_SEED + SumWords(file, 0, i)) % TWO32 == (2 * stated) % TWO32
    {
      SumStep(file, i, sum, stated);
      sum := (sum + TWO32 - WordAt(file, 4 * i)) % TWO32;
      i := i + 1;
    }
    SumDecides(sum, SumWords(file, 0, len / 4), stated);
    return sum == 0, len;
  }

  lemma NoSum(file: seq<byte>)
    ensures SumWords(file, 0, 0) == 0
  {}

  lemma SumDecides(sum: nat, t: nat, stated: nat)
    requires sum < TWO32 && (sum + CHECKSUM_SEED + t) % TWO32 == (2 * stated) % TWO32
    ensures sum == 0 <==> (CHECKSUM_SEED + t) % TWO32 == (2 * stated) % TWO32
  {}

  lemma SumStep(file: seq<byte>, i: nat, sum: nat, stated: nat)
    requires 4 * i + 4 <= |file|
    requires (sum + CHECKSUM_SEED + SumWords(file, 0, i)) % TWO32 == (2 * stated) % TWO32
    ensures ((sum + TWO32 - WordAt(file, 4 * i)) % TWO32 + CHECKSUM_SEED + SumWords(file, 0, i + 1)) % TWO32
         == (2 * stated) % TWO32
  {
    hide WordAt;
    var w := WordAt(file, 4 * i);
    var t := SumWords(file, 0, i);
    assert SumWords(file, 0, i + 1) == (t + w) % TWO32;
    Cancel(sum, t, w);
  }

  lemma Cancel(sum: nat, t: nat, w: nat)
    requires w < TWO32
    ensures ((sum + TWO32 - w) % TWO32 + CHECKSUM_SEED + (t + w) % TWO32) % TWO32 == (sum + CHECKSUM_SEED + t) % TWO32
  {}

  /** The seed is odd, so an image of length zero never passes. */
  lemma AcceptedIsNotEmpty(file: seq<byte>)
    requires Acceptable(file)
    ensures WordAt(file, 16) > 0
  {
    hide WordAt;
    if WordAt(file, 16) == 0 {
      var w: nat := WordAt(file, 12);
      assert SumWords(file, 0, 0) == 0;
      Parity(w);
    }
  }

  lemma Parity(w: nat)
    ensures CHECKSUM_SEED % TWO32 != (2 * w) % TWO32
  {}

  /** A file that passes although its stated length ends before the length word. */
  ghost function ShortImage(): (file: seq<byte>)
    ensures |file| == 32
  {
    Le(0) + MAGIC + Le(0xDDAD_F5CC) + Le(16) + EndEntry()
  }

  /**
   The host does not require the image to contain its own length word: this file
   passes, yet of its first 20 bytes only 16 are uploaded, so the length the
   thunk reads is whatever was in memory.
   */
  lemma ShortImageAccepted()
    ensures Acceptable(ShortImage()) && WordAt(ShortImage(), 16) < 20
  {
    hide Le, EndEntry, WordAt, SumWords;
    var f := ShortImage();
    ShortWords();
    SumOfFour(f);
    assert WordAt(f, 16) / 4 == 4;
  }

  lemma ShortWords()
    ensures var f := ShortImage();
      && f[4..12] == MAGIC && WordAt(f, 0) == 0 && WordAt(f, 4) == 0x4E4F_4765 && WordAt(f, 8) == 0x3054_422E
      && WordAt(f, 12) == 0xDDAD_F5CC && WordAt(f, 16) == 16
  {
    LeMagic();
    hide Le, EndEntry, WordAt;
    var f := ShortImage();
    ShortSlices();
    WordOfLe(f, 0, 0);
    WordOfLe(f, 4, 0x4E4F_4765);
    WordOfLe(f, 8, 0x3054_422E);
    WordOfLe(f, 12, 0xDDAD_F5CC);
    WordOfLe(f, 16, 16);
  }

  lemma ShortSlices()
    ensures var f := ShortImage();
      && f[0..4] == Le(0) && f[4..12] == MAGIC && f[4..8] == MAGIC[..4] && f[8..12] == MAGIC[4..]
      && f[12..16] == Le(0xDDAD_F5CC) && f[16..20] == Le(16)
  {
    hide Le, EndEntry;
  }

  lemma SumOfFour(f: seq<byte>)
    requires |f| >= 16 && WordAt(f, 0) == 0 && WordAt(f, 4) == 0x4E4F_4765 && WordAt(f, 8) == 0x3054_422E
    requires WordAt(f, 12) == 0xDDAD_F5CC
    ensures SumWords(f, 0, 4) == 0x5C51_7F5F
  {
    hide WordAt;
    assert SumWords(f, 0, 1) == 0;
    assert SumWords(f, 0, 2) == 0x4E4F_4765;
    assert SumWords(f, 0, 3) == 0x7EA3_8993;
  }

  lemma LeMagic()
    ensures Le(0x4E4F_4765) == MAGIC[..4] && Le(0x3054_422E) == MAGIC[4..]
  {
    assert Le(0x4E4F_4765) == [0x65, 0x47, 0x4F, 0x4E];
    assert Le(0x3054_422E) == [0x2E, 0x42, 0x54, 0x30];
  }

  // ----- the image on the device

  lemma {:induction false} SumMoved(m: seq<byte>, a: nat, file: seq<byte>, n: nat, k: nat)
    requires 4 * k <= n <= |file| && a + n <= |m| && m[a..a + n] == file[..n]
    ensures SumWords(m, a, k) == SumWords(file, 0, k)
    decreases k
  {
    hide WordAt;
    if k > 0 {
      SumMoved(m, a, file, n, k - 1);
      assert file[0..n] == file[..n];
      SameWord(m, a, file, 0, n, 4 * (k - 1));
    }
  }

  /** The thunk's sum check agrees with the host's. */
  lemma DeviceAgrees(m: seq<byte>, spl: nat, file: seq<byte>)
    requires Acceptable(file) && WordAt(file, 16) >= 20 && Holds(m, spl, file[..WordAt(file, 16)])
    ensures LengthOk(m, spl) && SumOk(m, spl)
  {
    hide WordAt, SumWords;
    var n := WordAt(file, 16);
    assert file[0..n] == file[..n];
    SameWord(m, spl, file, 0, n, 16);
    SameWord(m, spl, file, 0, n, 12);
    SumMoved(m, spl, file, n, n / 4);
  }

  /** The image is in memory from `spl` on. */
  predicate Holds(m: seq<byte>, spl: nat, image: seq<byte>) {
    spl + |image| <= |m| && m[spl..spl + |image|] == image
  }

  /** Whatever else memory holds, a shorter image lets the length word be anything. */
  lemma ShortLosesLength(m: seq<byte>, spl: nat, file: seq<byte>)
    requires Acceptable(file) && WordAt(file, 16) < 20 && spl + 20 <= |m| && Holds(m, spl, file[..WordAt(file, 16)])
    ensures Holds(Put(m, spl + 16, Le(2)), spl, file[..WordAt(file, 16)]) && !LengthOk(Put(m, spl + 16, Le(2)), spl)
  {
    hide WordAt, Put, Le, SumWords;
    var n := WordAt(file, 16);
    PutOutside(m, spl + 16, Le(2), spl, n);
    PutSlice(m, spl + 16, Le(2), 0, 4);
    assert Le(2)[0..4] == Le(2);
    WordOfLe(Put(m, spl + 16, Le(2)), spl + 16, 2);
  }

  /**
   The exact condition on an accepted file: the device reaches the host's verdict
   in every memory that holds the image if and only if the image has at least 20
   bytes, so that it contains its own length word.
   */
  lemma DeviceAgreesIff(spl: nat, file: seq<byte>)
    requires Acceptable(file)
    ensures (forall m: seq<byte> :: spl + 20 <= |m| && Holds(m, spl, file[..WordAt(file, 16)])
                                    ==> LengthOk(m, spl) && SumOk(m, spl))
       <==> WordAt(file, 16) >= 20
  {
    hide WordAt, Put, Le, SumOk, LengthOk, SumWords, SumIs;
    var n := WordAt(file, 16);
    if n >= 20 {
      forall m: seq<byte> | spl + 20 <= |m| && Holds(m, spl, file[..n]) ensures LengthOk(m, spl) && SumOk(m, spl) {
        DeviceAgrees(m, spl, file);
      }
    } else {
      var m := seq(spl, i => 0) + file;
      assert m[spl..spl + n] == file[..n];
      ShortLosesLength(m, spl, file);
      var w := Put(m, spl + 16, Le(2));
      assert Holds(w, spl, file[..n]) && !LengthOk(w, spl);
    }
  }

  /** After the first swap the image is contiguous at the SPL address. */
  lemma Contiguous(m: seq<byte>, s: Soc, image: seq<byte>)
    requires TableOk(s.table, |m|) && s.splAddr + |image| <= |m| && Placed(m, s, image, |image|)
    ensures SwapAll(m, s.table)[s.splAddr..s.splAddr + |image|] == image
  {
    hide SwapAll, Partner;
    var r := SwapAll(m, s.table);
    forall k | 0 <= k < |image| ensures r[s.splAddr..s.splAddr + |image|][k] == image[k] {
      SwapAllAt(m, s.table, s.splAddr + k);
    }
  }

  // ----- the thunk's appended data

  function EntryBytes(s: Swap): (r: seq<byte>)
    requires s.buf1 < TWO32 && s.buf2 < TWO32 && s.size < TWO32
    ensures |r| == 12
  {
    Le(s.buf1) + Le(s.buf2) + Le(s.size)
  }

  /** The entry of size zero that ends the table. */
  function EndEntry(): (r: seq<byte>)
    ensures |r| == 12
  {
    [0, 0, 0, 0, 0, 0, 0, 0, 0, 0, 0, 0]
  }

  function TableBytes(table: seq<Swap>): (r: seq<byte>)
    requires forall j :: 0 <= j < |table| ==> table[j].buf1 < TWO32 && table[j].buf2 < TWO32 && table[j].size < TWO32
    ensures |r| == 12 * |table|
  {
    if table == [] then [] else EntryBytes(table[0]) + TableBytes(table[1..])
  }

  lemma {:induction false} TableBytesAt(table: seq<Swap>, j: nat)
    requires forall j :: 0 <= j < |table| ==> table[j].buf1 < TWO32 && table[j].buf2 < TWO32 && table[j].size < TWO32
    requires j < |table|
    ensures TableBytes(table)[12 * j..12 * j + 12] == EntryBytes(table[j])
    decreases |table|
  {
    hide EntryBytes;
    if j > 0 {
      TableBytesAt(table[1..], j - 1);
      var t := TableBytes(table);
      assert t[12 * j..12 * j + 12] == t[12..][12 * (j - 1)..12 * (j - 1) + 12];
    }
  }

  lemma TableUploaded(m: seq<byte>, tbl: nat, table: seq<Swap>)
    requires forall j :: 0 <= j < |table| ==> table[j].buf1 < TWO32 && table[j].buf2 < TWO32 && table[j].size < TWO32
    requires tbl + 12 * |table| + 12 <= |m|
    requires m[tbl..tbl + |TableBytes(table)| + |EndEntry()|] == TableBytes(table) + EndEntry()
    ensures TableAt(m, tbl, table)
  {
    hide WordAt, Le, TableBytes, EntryBytes;
    var n := 12 * |table|;
    forall j | 0 <= j < |table|
      ensures WordAt(m, tbl + 12 * j) == table[j].buf1
      ensures WordAt(m, tbl + 12 * j + 4) == table[j].buf2
      ensures WordAt(m, tbl + 12 * j + 8) == table[j].size
    {
      EntryFound(m, tbl, table, j);
    }
    LeZero();
    SliceBehind(m, tbl, TableBytes(table), EndEntry(), 8, 4);
    assert EndEntry()[8..12] == Le(0);
    WordOfLe(m, tbl + n + 8, 0);
  }

  lemma EntryFound(m: seq<byte>, tbl: nat, table: seq<Swap>, j: nat)
    requires forall j :: 0 <= j < |table| ==> table[j].buf1 < TWO32 && table[j].buf2 < TWO32 && table[j].size < TWO32
    requires tbl + 12 * |table| + 12 <= |m| && j < |table|
    requires m[tbl..tbl + |TableBytes(table)| + |EndEntry()|] == TableBytes(table) + EndEntry()
    ensures WordAt(m, tbl + 12 * j) == table[j].buf1
    ensures WordAt(m, tbl + 12 * j + 4) == table[j].buf2
    ensures WordAt(m, tbl + 12 * j + 8) == table[j].size
  {
    hide WordAt, Le, TableBytes, EntryBytes, EndEntry;
    TableBytesAt(table, j);
    SliceThrough(m, tbl, TableBytes(table), EndEntry(), 12 * j, 12);
    EntryUploaded(m, tbl + 12 * j, table[j]);
  }

  lemma SliceThrough(m: seq<byte>, a: nat, x: seq<byte>, y: seq<byte>, k: nat, l: nat)
    requires a + |x| + |y| <= |m| && m[a..a + |x| + |y|] == x + y && k + l <= |x|
    ensures m[a + k..a + k + l] == x[k..k + l]
  {
    SubSlice(m, a, |x| + |y|, k, l);
    FrontSlice(x, y, k, l);
  }

  lemma SliceBehind(m: seq<byte>, a: nat, x: seq<byte>, y: seq<byte>, k: nat, l: nat)
    requires a + |x| + |y| <= |m| && m[a..a + |x| + |y|] == x + y && k + l <= |y|
    ensures m[a + |x| + k..a + |x| + k + l] == y[k..k + l]
  {
    SubSlice(m, a, |x| + |y|, |x| + k, l);
    assert (x + y)[|x| + k..|x| + k + l] == y[k..k + l];
  }

  lemma EntryUploaded(m: seq<byte>, a: nat, s: Swap)
    requires s.buf1 < TWO32 && s.buf2 < TWO32 && s.size < TWO32
    requires a + 12 <= |m| && m[a..a + 12] == EntryBytes(s)
    ensures WordAt(m, a) == s.buf1 && WordAt(m, a + 4) == s.buf2 && WordAt(m, a + 8) == s.size
  {
    hide WordAt, Le;
    SubSlice(m, a, 12, 0, 4);
    SubSlice(m, a, 12, 4, 4);
    SubSlice(m, a, 12, 8, 4);
    EntryParts(s);
    WordOfLe(m, a, s.buf1);
    WordOfLe(m, a + 4, s.buf2);
    WordOfLe(m, a + 8, s.size);
  }

  lemma EntryParts(s: Swap)
    requires s.buf1 < TWO32 && s.buf2 < TWO32 && s.size < TWO32
    ensures EntryBytes(s)[0..0 + 4] == Le(s.buf1) && EntryBytes(s)[4..4 + 4] == Le(s.buf2) && EntryBytes(s)[8..8 + 4] == Le(s.size)
  {
    hide Le;
  }

  lemma LeZero()
    ensures Le(0) == [0, 0, 0, 0]
  {}

  // ----- the whole session

  /** Where the thunk finds its table. */
  function TableAddr(s: Soc): nat {
    s.thunkAddr + THUNK_CODE + 4
  }

  /** Any SPL that leaves the backup buffers and the thunk's table alone. */
  ghost predicate KeepsBackups(run: seq<byte> -> seq<byte>, s: Soc) {
    forall m: seq<byte> ::
      && |run(m)| == |m|
      && (TableAt(m, TableAddr(s), s.table) ==> TableAt(run(m), TableAddr(s), s.table))
      && (forall k :: 0 <= k < |m| && InBuf2(s.table, k) ==> run(m)[k] == m[k])
  }

  lemma ThunkLeavesImage(m: seq<byte>, s: Soc, image: seq<byte>, bs: seq<byte>)
    requires WellFormed(s, |m|) && |image| <= FinalLimit(s) && s.splAddr + |image| <= |m|
    requires Placed(m, s, image, |image|) && |bs| <= s.thunkSize
    ensures Placed(Put(m, s.thunkAddr, bs), s, image, |image|)
    ensures Untouched(m, Put(m, s.thunkAddr, bs), s.table)
  {
    hide Partner, FinalLimit, InBuf2;
    var m' := Put(m, s.thunkAddr, bs);
    LimitMeans(s, |m|, |image|);
    forall i | s.splAddr <= i < s.splAddr + |image|
      ensures Partner(s.table, i) < |m| && m'[Partner(s.table, i)] == image[i - s.splAddr]
    {
      HomeOffThunk(s, |m|, i);
    }
  }

  lemma HomeOffThunk(s: Soc, top: nat, i: nat)
    requires WellFormed(s, top) && !In(s.thunkAddr, s.thunkSize, i)
    ensures !In(s.thunkAddr, s.thunkSize, Partner(s.table, i))
  {
    hide Partner;
    PartnerRange(s.table, top, i);
    if Partner(s.table, i) != i {
      var j :| 0 <= j < |s.table| && Partner1(s.table[j], i) != i && Partner(s.table, i) == Partner1(s.table[j], i);
      assert EntryOk(s.table[j], top);
    }
  }

  /** The image header is in no buffer at all. */
  lemma HeaderIsNotSwapped(s: Soc, top: nat, i: nat)
    requires WellFormed(s, top) && s.splAddr <= i < s.splAddr + 32
    ensures !InBuf1(s.table, i) && !InBuf2(s.table, i) && !In(s.thunkAddr, s.thunkSize, i)
    ensures Partner(s.table, i) == i
  {
    forall j | 0 <= j < |s.table| ensures !In(s.table[j].buf1, s.table[j].size, i) && !In(s.table[j].buf2, s.table[j].size, i) {
      assert SwapOk(s.splAddr, s.table[j]);
    }
    PartnerOutside(s.table, top, i);
  }

  /** Both swapping exits give every BROM buffer back. */
  lemma SessionRestores(m: seq<byte>, s: Soc, run: seq<byte> -> seq<byte>)
    requires WellFormed(s, |m|) && KeepsBackups(run, s) && LengthOk(SwapAll(m, s.table), s.splAddr)
    ensures |AfterImage(SwapAll(m, s.table), s.splAddr, run)| == |m|
    ensures Untouched(m, SwapAll(AfterImage(SwapAll(m, s.table), s.splAddr, run), s.table), s.table)
  {
    hide SwapAll, SumOk, LengthOk, InBuf1, InBuf2, WellFormed, AfterImage, KeepsBackups, TableOk;
    TableOf(s, |m|);
    var x := AfterImage(SwapAll(m, s.table), s.splAddr, run);
    BackupsKept(SwapAll(m, s.table), s, run);
    forall i | 0 <= i < |m| && InBuf1(s.table, i) ensures SwapAll(x, s.table)[i] == m[i] {
      SwapRestores(m, x, s.table, i);
    }
  }

  lemma BackupsKept(a: seq<byte>, s: Soc, run: seq<byte> -> seq<byte>)
    requires WellFormed(s, |a|) && KeepsBackups(run, s) && LengthOk(a, s.splAddr)
    ensures |AfterImage(a, s.splAddr, run)| == |a|
    ensures forall k :: 0 <= k < |a| && InBuf2(s.table, k) ==> AfterImage(a, s.splAddr, run)[k] == a[k]
  {
    hide SumOk, LengthOk, InBuf1, InBuf2, In, WellFormed, Put, KeepsBackups, Partner;
    TableOf(s, |a|);
    var x, p := AfterImage(a, s.splAddr, run), s.splAddr + 8;
    RunKeeps(run, s, Put(a, p, FEL));
    forall k | 0 <= k < |a| && InBuf2(s.table, k) ensures x[k] == a[k] {
      if s.splAddr <= k < s.splAddr + 32 { HeaderIsNotSwapped(s, |a|, k); }
      if SumOk(a, s.splAddr) { PutElsewhere(a, p, FEL, k); } else { PutElsewhere(a, p, BAD, k); }
    }
  }

  lemma RunKeeps(run: seq<byte> -> seq<byte>, s: Soc, m: seq<byte>)
    requires KeepsBackups(run, s)
    ensures |run(m)| == |m|
    ensures forall k :: 0 <= k < |m| && InBuf2(s.table, k) ==> run(m)[k] == m[k]
  {
    hide TableAt, InBuf2;
  }

  lemma PutElsewhere(m: seq<byte>, a: nat, bs: seq<byte>, k: nat)
    requires a + |bs| <= |m| && k < |m| && !(a <= k < a + |bs|)
    ensures Put(m, a, bs)[k] == m[k]
  {}

  lemma TableOf(s: Soc, top: nat)
    requires WellFormed(s, top)
    ensures TableOk(s.table, top) && s.splAddr + 32 <= top && s.thunkAddr + s.thunkSize <= top <= TWO32
    ensures forall j :: 0 <= j < |s.table| ==> s.table[j].buf1 < TWO32 && s.table[j].buf2 < TWO32 && s.table[j].size < TWO32
    ensures ClearOf(s.table, s.thunkAddr, s.thunkSize)
  {
    forall j | 0 <= j < |s.table| ensures s.table[j].buf1 < TWO32 && s.table[j].buf2 < TWO32 && s.table[j].size < TWO32 {
      assert EntryOk(s.table[j], top);
    }
  }

  lemma UntouchedChain(a: seq<byte>, b: seq<byte>, c: seq<byte>, table: seq<Swap>)
    requires Untouched(a, b, table) && Untouched(b, c, table)
    ensures Untouched(a, c, table)
  {}

  /** Upload thunk code, SPL address and swap table. */
  method UploadThunk(mem: array<byte>, s: Soc, code: seq<byte>, ghost image: seq<byte>)
    requires WellFormed(s, mem.Length) && |code| == THUNK_CODE && |image| <= FinalLimit(s)
    requires THUNK_CODE + 4 + 12 * (|s.table| + 1) <= s.thunkSize && s.splAddr + |image| <= mem.Length
    requires Placed(mem[..], s, image, |image|)
    modifies mem
    ensures Placed(mem[..], s, image, |image|) && Untouched(old(mem[..]), mem[..], s.table)
    ensures TableAt(mem[..], TableAddr(s), s.table)
    ensures forall i :: 0 <= i < mem.Length && !In(s.thunkAddr, s.thunkSize, i) ==> mem[i] == old(mem[i])
  {
    hide Placed, Untouched, WellFormed, TableAt, TableBytes, Le, FinalLimit, Put;
    TableOf(s, mem.Length);
    ghost var m := mem[..];
    var tail := TableBytes(s.table) + EndEntry();
    var bs := code + Le(s.splAddr) + tail;
    PutBytes(mem, s.thunkAddr, bs);
    ThunkLeavesImage(m, s, image, bs);
    PutLeaves(m, s.thunkAddr, bs);
    UploadedSlice(m, s.thunkAddr, code + Le(s.splAddr), tail);
    TableUploaded(mem[..], TableAddr(s), s.table);
  }

  lemma UploadedSlice(m: seq<byte>, a: nat, x: seq<byte>, y: seq<byte>)
    requires a + |x| + |y| <= |m|
    ensures Put(m, a, x + y)[a + |x|..a + |x| + |y|] == y
  {}

  /** How a session ends; `Lost` is a thunk that never comes back. */
  datatype Outcome = Failed | Lost | Done(len: nat)

  /** The host gets as far as starting the thunk. */
  predicate Reaches(file: seq<byte>, s: Soc)
    requires s.splAddr < TWO32 && s.thunkAddr < TWO32
  {
    && Acceptable(file) && WordAt(file, 16) <= FinalLimit(s)
    && THUNK_CODE + 4 + 12 * (|s.table| + 1) <= s.thunkSize
  }

  /** Memory reads as this text from `a` on. */
  predicate Reads(m: seq<byte>, a: nat, text: string) {
    a + |text| <= |m| && forall i :: 0 <= i < |text| ==> m[a + i] as char == text[i]
  }

  /** Any SPL that leaves the signature in its header alone. */
  ghost predicate KeepsSignature(run: seq<byte> -> seq<byte>, s: Soc) {
    forall m: seq<byte> :: s.splAddr + 12 <= |m| && |run(m)| == |m| ==>
      run(m)[s.splAddr + 4..s.splAddr + 12] == m[s.splAddr + 4..s.splAddr + 12]
  }

  /** Every BROM byte is in its backup. */
  ghost predicate Saved(m: seq<byte>, m': seq<byte>, table: seq<Swap>) {
    |m| == |m'| && forall i :: 0 <= i < |m| && InBuf1(table, i) ==> Partner(table, i) < |m| && m'[Partner(table, i)] == m[i]
  }

  /**
   The whole session, for every file.  The thunk is lost exactly when an accepted
   image is too short to contain its length word and the word already in memory
   cannot be walked; then every BROM byte is still in its backup.  In every other
   case all BROM buffers hold what they held before.  The session succeeds exactly
   when the thunk was started, came back, and left the text eGON.FEL in the image
   header.  With a cache on it never does.  Otherwise the SPL is entered with
   memory `seen`, or a wrong sum is noted; an accepted image of at least 20 bytes
   that fits is always entered, as a whole and marked as loaded over FEL.
   */
  method WriteAndExecuteSpl(mem: array<byte>, s: Soc, code: seq<byte>, file: seq<byte>, cache: bool, run: seq<byte> -> seq<byte>)
    returns (r: Outcome, ghost seen: seq<byte>)
    requires WellFormed(s, mem.Length) && KeepsBackups(run, s) && |code| == THUNK_CODE
    modifies mem
    ensures r.Lost? <==> Reaches(file, s) && !cache && WordAt(file, 16) < 20 && !LengthOk(old(mem[..]), s.splAddr)
    ensures if r.Lost? then Saved(old(mem[..]), mem[..], s.table) else Untouched(old(mem[..]), mem[..], s.table)
    ensures r.Done? <==> Reaches(file, s) && !r.Lost? && Reads(mem[..], s.splAddr + 4, "eGON.FEL")
    ensures r.Done? ==> r.len == WordAt(file, 16)
    ensures Reaches(file, s) && cache ==> r.Failed? && Reads(mem[..], s.splAddr + 8, ".???")
    ensures Reaches(file, s) && !cache && !r.Lost? ==>
              if seen == [] then r.Failed? && Reads(mem[..], s.splAddr + 8, ".BAD")
              else |seen| == mem.Length && Reads(seen, s.splAddr + 8, ".FEL") && mem[..] == SwapAll(run(seen), s.table)
    ensures Reaches(file, s) && !cache && WordAt(file, 16) >= 20 ==>
              var n := WordAt(file, 16);
              && |seen| == mem.Length && Holds(seen, s.splAddr, Put(file[..n], 8, FEL))
              && (KeepsSignature(run, s) ==> r == Done(n))
  {
    hide WordAt, Untouched, Placed, PlacedOnly, WellFormed, Acceptable, SwapAll, TableAt, KeepsBackups, FinalLimit, LengthOk;
    hide SumOk, Put, ClearOf, Saved, Reads, Holds, AfterImage, KeepsSignature, TableOk, Elsewhere, Seen, SumIs, SumWords;
    seen := [];
    ghost var m0 := mem[..];
    SameUntouched(m0, s.table);
    TableOf(s, mem.Length);
    var ok, len := CheckImage(file);
    if !ok { return Failed, seen; }
    Lengths(file);
    var fits := PlaceImage(mem, s, file[..len]);
    if !fits { return Failed, seen; }
    if THUNK_CODE + 4 + 12 * (|s.table| + 1) > s.thunkSize { return Failed, seen; }
    ghost var m1 := mem[..];
    OnlyMeans(m0, m1, s, file[..len], len);
    UploadThunk(mem, s, code, file[..len]);
    ghost var m2 := mem[..];
    UntouchedChain(m0, m1, m2, s.table);
    ReadyToRun(m2, s, file, run);
    LengthLeft(m0, m1, m2, s, file);
    var back := RunThunk(mem, s.splAddr, TableAddr(s), s.table, cache, run);
    if !back {
      SwappedIsSaved(m0, m2, s);
      return Lost, seen;
    }
    if cache {
      NoteOnly(m2, s);
    } else {
      SessionRestores(m2, s, run);
      seen := Seen(SwapAll(m2, s.table), s.splAddr);
      Left(SwapAll(m2, s.table), s, run);
      if len >= 20 { Entered(SwapAll(m2, s.table), s, file, run); }
    }
    UntouchedChain(m0, m2, mem[..], s.table);
    var sig := mem[s.splAddr + 4..s.splAddr + 12];
    SignatureRead(mem[..], s.splAddr);
    r := if sig == MAGIC[..4] + FEL then Done(len) else Failed;
  }

  /** Memory as the SPL finds it when it is entered; nothing if the sum is wrong. */
  ghost function Seen(a: seq<byte>, spl: nat): (m: seq<byte>)
    requires LengthOk(a, spl)
  {
    if SumOk(a, spl) then Put(a, spl + 8, FEL) else []
  }

  lemma SignatureRead(m: seq<byte>, spl: nat)
    requires spl + 12 <= |m|
    ensures m[spl + 4..spl + 12] == MAGIC[..4] + FEL <==> Reads(m, spl + 4, "eGON.FEL")
    ensures Reads(m, spl + 8, ".BAD") || Reads(m, spl + 8, ".???") ==> !Reads(m, spl + 4, "eGON.FEL")
  {
    var x, sign := m[spl + 4..spl + 12], "eGON.FEL";
    assert MAGIC[..4] + FEL == [0x65, 0x47, 0x4F, 0x4E, 0x2E, 0x46, 0x45, 0x4C];
    if Reads(m, spl + 4, sign) {
      forall i | 0 <= i < 8 ensures x[i] == (MAGIC[..4] + FEL)[i] { assert m[spl + 4 + i] as char == sign[i]; }
      assert m[spl + 4 + 5] as char == sign[5];
    }
    assert Reads(m, spl + 8, ".BAD") ==> m[spl + 8 + 1] as char == ".BAD"[1];
    assert Reads(m, spl + 8, ".???") ==> m[spl + 8 + 1] as char == ".???"[1];
  }

  /** What the thunk writes reads as text. */
  lemma NotesRead(m: seq<byte>, a: nat)
    requires a + 4 <= |m|
    ensures Reads(Put(m, a, FEL), a, ".FEL") && Reads(Put(m, a, BAD), a, ".BAD") && Reads(Put(m, a, CACHE_ENABLED), a, ".???")
  {}

  /** Swapping leaves the image header alone. */
  lemma HeaderStays(x: seq<byte>, s: Soc, text: string)
    requires WellFormed(s, |x|) && |text| <= 8
    ensures Reads(x, s.splAddr + 4, text) ==> Reads(SwapAll(x, s.table), s.splAddr + 4, text)
    ensures |text| <= 4 && Reads(x, s.splAddr + 8, text) ==> Reads(SwapAll(x, s.table), s.splAddr + 8, text)
  {
    hide SwapAll, Partner;
    forall i | s.splAddr <= i < s.splAddr + 32 ensures SwapAll(x, s.table)[i] == x[i] {
      HeaderIsNotSwapped(s, |x|, i);
      SwapAllAt(x, s.table, i);
    }
  }

  /** After the swap back: the SPL's memory, or the note about a wrong sum. */
  lemma Left(a: seq<byte>, s: Soc, run: seq<byte> -> seq<byte>)
    requires WellFormed(s, |a|) && KeepsBackups(run, s) && LengthOk(a, s.splAddr)
    ensures var end, seen := AfterImage(a, s.splAddr, run), Seen(a, s.splAddr);
      && |end| == |a|
      && if seen == [] then Reads(SwapAll(end, s.table), s.splAddr + 8, ".BAD")
         else |seen| == |a| && Reads(seen, s.splAddr + 8, ".FEL") && end == run(seen)
  {
    hide SwapAll, SumOk, WellFormed, Reads, Put, TableAt, InBuf2;
    TableOf(s, |a|);
    NotesRead(a, s.splAddr + 8);
    if !SumOk(a, s.splAddr) { HeaderStays(Put(a, s.splAddr + 8, BAD), s, ".BAD"); }
  }

  lemma OnlyMeans(m0: seq<byte>, m: seq<byte>, s: Soc, image: seq<byte>, n: nat)
    requires TableOk(s.table, |m|) && n <= |image| && s.splAddr + n <= |m| && PlacedOnly(m0, m, s, image, n)
    ensures Placed(m, s, image, n) && Elsewhere(m0, m, s, n)
  {}

  /** The length word the thunk finds: the image's own, or else the one that was there before. */
  lemma LengthLeft(m0: seq<byte>, m1: seq<byte>, m2: seq<byte>, s: Soc, file: seq<byte>)
    requires |file| >= 32 && WordAt(file, 16) % 4 == 0
    requires WellFormed(s, |m0|) && Elsewhere(m0, m1, s, WordAt(file, 16)) && |m2| == |m1|
    requires forall i :: 0 <= i < |m1| && !In(s.thunkAddr, s.thunkSize, i) ==> m2[i] == m1[i]
    requires WordAt(file, 16) >= 20 ==> LengthOk(SwapAll(m2, s.table), s.splAddr)
    ensures LengthOk(SwapAll(m2, s.table), s.splAddr) <==> WordAt(file, 16) >= 20 || LengthOk(m0, s.splAddr)
  {
    hide SwapAll, Partner, In, WellFormed, WordAt;
    TableOf(s, |m0|);
    if WordAt(file, 16) < 20 {
      var a, spl := SwapAll(m2, s.table), s.splAddr;
      forall i | spl + 16 <= i < spl + 20 ensures a[i] == m0[i] {
        HeaderIsNotSwapped(s, |m0|, i);
        SwapAllAt(m2, s.table, i);
      }
      assert a[spl + 16..spl + 16 + 4] == m0[spl + 16..spl + 16 + 4];
      SameWord(a, spl + 16, m0, spl + 16, 4, 0);
    }
  }

  lemma SwappedIsSaved(m0: seq<byte>, m: seq<byte>, s: Soc)
    requires WellFormed(s, |m|) && Untouched(m0, m, s.table)
    ensures Saved(m0, SwapAll(m, s.table), s.table)
  {
    hide SwapAll, Partner, InBuf1;
    forall i | 0 <= i < |m| && InBuf1(s.table, i)
      ensures Partner(s.table, i) < |m| && SwapAll(m, s.table)[Partner(s.table, i)] == m0[i]
    {
      PartnerRange(s.table, |m|, i);
      SwapAllAt(m, s.table, Partner(s.table, i));
      PartnerInvolution(s.table, |m|, i);
    }
  }

  lemma SameUntouched(m: seq<byte>, table: seq<Swap>)
    ensures Untouched(m, m, table)
  {}

  lemma Lengths(file: seq<byte>)
    requires Acceptable(file)
    ensures |file| >= 32 && WordAt(file, 16) <= |file| && WordAt(file, 16) % 4 == 0
  {}

  lemma NoteOnly(m: seq<byte>, s: Soc)
    requires WellFormed(s, |m|)
    ensures s.splAddr + 12 <= |m| && Untouched(m, Put(m, s.splAddr + 8, CACHE_ENABLED), s.table)
    ensures Reads(Put(m, s.splAddr + 8, CACHE_ENABLED), s.splAddr + 8, ".???")
  {
    hide InBuf1;
    NotesRead(m, s.splAddr + 8);
    forall i | s.splAddr + 8 <= i < s.splAddr + 12 ensures !InBuf1(s.table, i) { HeaderIsNotSwapped(s, |m|, i); }
    SameUntouched(m, s.table);
    UntouchedNext(m, m, s.table, s.splAddr + 8, CACHE_ENABLED);
  }

  /** All preconditions of the thunk are in place. */
  lemma ReadyToRun(m: seq<byte>, s: Soc, file: seq<byte>, run: seq<byte> -> seq<byte>)
    requires WellFormed(s, |m|) && KeepsBackups(run, s) && Acceptable(file) && WordAt(file, 16) <= FinalLimit(s)
    requires s.splAddr + WordAt(file, 16) <= |m| && Placed(m, s, file[..WordAt(file, 16)], WordAt(file, 16))
    requires THUNK_CODE + 4 + 12 * (|s.table| + 1) <= s.thunkSize
    ensures TableOk(s.table, |m|) && ClearOf(s.table, TableAddr(s), 12 * |s.table| + 12)
    ensures Apart(s.splAddr, 32, TableAddr(s), 12 * |s.table| + 12) && s.splAddr + 20 <= |m| <= TWO32
    ensures Holds(SwapAll(m, s.table), s.splAddr, file[..WordAt(file, 16)])
    ensures WordAt(file, 16) >= 20 ==> LengthOk(SwapAll(m, s.table), s.splAddr) && SumOk(SwapAll(m, s.table), s.splAddr)
    ensures forall m: seq<byte> :: |run(m)| == |m| && (TableAt(m, TableAddr(s), s.table) ==> TableAt(run(m), TableAddr(s), s.table))
  {
    hide WordAt, Placed, SwapAll, TableAt, FinalLimit, LengthOk, SumOk, Acceptable, InBuf1, InBuf2;
    Lengths(file);
    Contiguous(m, s, file[..WordAt(file, 16)]);
    if WordAt(file, 16) >= 20 { DeviceAgrees(SwapAll(m, s.table), s.splAddr, file); }
  }

  /** A whole image is entered with the FEL mark, which stays unless the SPL changes it. */
  lemma Entered(a: seq<byte>, s: Soc, file: seq<byte>, run: seq<byte> -> seq<byte>)
    requires WellFormed(s, |a|) && KeepsBackups(run, s) && Acceptable(file) && WordAt(file, 16) >= 20
    requires LengthOk(a, s.splAddr) && SumOk(a, s.splAddr) && Holds(a, s.splAddr, file[..WordAt(file, 16)])
    ensures Holds(Seen(a, s.splAddr), s.splAddr, Put(file[..WordAt(file, 16)], 8, FEL))
    ensures Seen(a, s.splAddr) != []
    ensures KeepsSignature(run, s) ==> Reads(SwapAll(run(Seen(a, s.splAddr)), s.table), s.splAddr + 4, "eGON.FEL")
  {
    hide LengthOk, SumOk, Put, WordAt, WellFormed, SumIs, SwapAll, Reads, KeepsSignature;
    TableOf(s, |a|);
    var n, spl := WordAt(file, 16), s.splAddr;
    MovedPut(a, spl, file[..n], 8, FEL);
    var seen := Put(a, spl + 8, FEL);
    FullSignature(a, spl, file, n);
    RunKeeps(run, s, seen);
    if KeepsSignature(run, s) {
      SignatureKept(run, s, seen);
      HeaderStays(run(seen), s, "eGON.FEL");
    }
  }

  lemma FullSignature(a: seq<byte>, spl: nat, file: seq<byte>, n: nat)
    requires 20 <= n <= |file| && file[4..12] == MAGIC && Holds(a, spl, file[..n])
    ensures Reads(Put(a, spl + 8, FEL), spl + 4, "eGON.FEL")
  {
    hide Put;
    var m := Put(a, spl + 8, FEL);
    PutLeaves(a, spl + 8, FEL);
    NotesRead(a, spl + 8);
    forall i | 0 <= i < 8 ensures m[spl + 4 + i] as char == "eGON.FEL"[i] {
      if i < 4 {
        assert a[spl + (4 + i)] == a[spl..spl + n][4 + i] == file[4..12][i];
      } else {
        assert m[spl + 8 + (i - 4)] as char == ".FEL"[i - 4];
      }
    }
  }

  lemma SignatureKept(run: seq<byte> -> seq<byte>, s: Soc, m: seq<byte>)
    requires KeepsSignature(run, s) && |run(m)| == |m| && Reads(m, s.splAddr + 4, "eGON.FEL")
    ensures Reads(run(m), s.splAddr + 4, "eGON.FEL")
  {
    var a, x := s.splAddr + 4, run(m);
    forall i | a <= i < a + 8 ensures x[i] == m[i] {
      assert x[a..a + 8][i - a] == m[a..a + 8][i - a];
    }
  }

  lemma MovedPut(a: seq<byte>, spl: nat, image: seq<byte>, k: nat, bs: seq<byte>)
    requires k + |bs| <= |image| && Holds(a, spl, image)
    ensures Put(a, spl + k, bs)[spl..spl + |image|] == Put(image, k, bs)
  {
    var l, r := Put(a, spl + k, bs), Put(image, k, bs);
    forall i | 0 <= i < |image| ensures l[spl + i] == r[i] {
      assert a[spl + i] == a[spl..spl + |image|][i];
    }
  }
}
