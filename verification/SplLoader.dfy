/**
 Uploading an SPL around the memory the BROM still needs, and the guarantee
 that the BROM gets all of it back.
 */
module SplLoader {
  import opened BitVectors
  import opened Memory
  import opened SramSwap
  import opened SplThunk

  datatype Soc = Soc(splAddr: nat, thunkAddr: nat, thunkSize: nat, sramSize: nat, table: seq<Swap>)

  /** Bytes of thunk code in front of the appended data. */
  const THUNK_CODE: nat := 276

  /** What a table entry needs beside the pairwise conditions. */
  predicate SwapOk(spl: nat, s: Swap) {
    spl + 32 <= s.buf1 && (spl + 32 <= s.buf2 || s.buf2 + s.size <= spl)
  }

  /**
   A SoC description the scheme works for: buffers in order and apart, the image
   header never swapped, backups and thunk below it or behind its 32 bytes.
   */
  predicate WellFormed(s: Soc, top: nat) {
    && TableOk(s.table, top) && top <= TWO32
    && (forall j :: 0 <= j < |s.table| ==> SwapOk(s.splAddr, s.table[j]))
    && ClearOf(s.table, s.thunkAddr, s.thunkSize)
    && 0 < s.thunkSize && s.thunkAddr + s.thunkSize <= top
    && (s.splAddr + 32 <= s.thunkAddr || s.thunkAddr + s.thunkSize <= s.splAddr)
    && s.splAddr + 32 <= top && s.splAddr + s.sramSize <= top
  }

  // ----- the length limit

  /** The limit while walking the table: backups above the SPL cut it short. */
  function RunLimit(table: seq<Swap>, spl: nat, lim: nat): (r: nat)
    ensures r <= lim
    decreases |table|
  {
    if table == [] then lim
    else
      var b := table[0].buf2;
      RunLimit(table[1..], spl, if spl <= b < spl + lim then b - spl else lim)
  }

  /** The thunk distance is computed in 32 bits, so a thunk below sets no limit. */
  function FinalLimit(s: Soc): nat
    requires s.splAddr < TWO32 && s.thunkAddr < TWO32
  {
    var l := RunLimit(s.table, s.splAddr, s.sramSize);
    var d := (s.thunkAddr + TWO32 - s.splAddr) % TWO32;
    if d < l then d else l
  }

  lemma {:induction false} RunLimitMeans(table: seq<Swap>, spl: nat, lim: nat, j: nat)
    requires j < |table| && spl <= table[j].buf2
    ensures spl + RunLimit(table, spl, lim) <= table[j].buf2
    decreases |table|
  {
    var b := table[0].buf2;
    var lim' := if spl <= b < spl + lim then b - spl else lim;
    if j > 0 {
      assert table[1..][j - 1] == table[j];
      RunLimitMeans(table[1..], spl, lim', j - 1);
    }
  }

  /** An image within the limit is clear of every backup buffer and the thunk. */
  lemma LimitMeans(s: Soc, top: nat, n: nat)
    requires WellFormed(s, top) && n <= FinalLimit(s)
    ensures n <= s.sramSize
    ensures forall i :: s.splAddr <= i < s.splAddr + n ==> !InBuf2(s.table, i)
    ensures Apart(s.splAddr, n, s.thunkAddr, s.thunkSize)
  {
    var spl := s.splAddr;
    forall j | 0 <= j < |s.table| ensures Apart(spl, n, s.table[j].buf2, s.table[j].size) {
      assert SwapOk(spl, s.table[j]);
      if spl <= s.table[j].buf2 { RunLimitMeans(s.table, spl, s.sramSize, j); }
    }
  }

  lemma {:induction false} RunLimitIff(table: seq<Swap>, spl: nat, lim: nat, n: nat)
    ensures n <= RunLimit(table, spl, lim) <==>
              n <= lim && forall j :: 0 <= j < |table| && spl <= table[j].buf2 ==> spl + n <= table[j].buf2
    decreases |table|
  {
    if table != [] {
      var b, rest := table[0].buf2, table[1..];
      RunLimitIff(rest, spl, if spl <= b < spl + lim then b - spl else lim, n);
      assert forall j :: 0 <= j < |rest| ==> rest[j] == table[j + 1];
      assert forall j :: 1 <= j < |table| ==> table[j] == rest[j - 1];
    }
  }

  /**
   The limit is exact: an image may be as long as it stays inside the SRAM and
   ends before every backup and every thunk that lie above its address.
   */
  lemma LimitIff(s: Soc, top: nat, n: nat)
    requires WellFormed(s, top)
    ensures n <= FinalLimit(s) <==>
              && n <= s.sramSize && (s.splAddr <= s.thunkAddr ==> s.splAddr + n <= s.thunkAddr)
              && forall j :: 0 <= j < |s.table| && s.splAddr <= s.table[j].buf2 ==> s.splAddr + n <= s.table[j].buf2
  {
    hide RunLimit;
    RunLimitIff(s.table, s.splAddr, s.sramSize, n);
  }

  /** A thunk below the SPL sets no limit: the distance wraps to more than all of memory above the SPL. */
  lemma ThunkBelowSetsNoLimit(s: Soc, top: nat)
    requires WellFormed(s, top) && s.thunkAddr < s.splAddr
    ensures FinalLimit(s) == RunLimit(s.table, s.splAddr, s.sramSize)
  {}

  // ----- placing the image

  /** The first `done` bytes of the image are where the first swap expects them. */
  ghost predicate Placed(m: seq<byte>, s: Soc, image: seq<byte>, done: nat)
    requires TableOk(s.table, |m|) && done <= |image| && s.splAddr + done <= |m|
  {
    forall i :: s.splAddr <= i < s.splAddr + done ==>
      Partner(s.table, i) < |m| && m[Partner(s.table, i)] == image[i - s.splAddr]
  }

  /** Besides those bytes nothing has changed. */
  ghost predicate Elsewhere(m0: seq<byte>, m: seq<byte>, s: Soc, done: nat) {
    && |m| == |m0|
    && forall i :: 0 <= i < |m| && !(s.splAddr <= Partner(s.table, i) < s.splAddr + done) ==> m[i] == m0[i]
  }

  ghost predicate PlacedOnly(m0: seq<byte>, m: seq<byte>, s: Soc, image: seq<byte>, done: nat)
    requires TableOk(s.table, |m|) && done <= |image| && s.splAddr + done <= |m|
  {
    Placed(m, s, image, done) && Elsewhere(m0, m, s, done)
  }

  /** No byte of a BROM buffer differs. */
  ghost predicate Untouched(m: seq<byte>, m': seq<byte>, table: seq<Swap>) {
    |m| == |m'| && forall i :: 0 <= i < |m| && InBuf1(table, i) ==> m'[i] == m[i]
  }

  /** The next `cnt` bytes go to `a`, the partners of their addresses. */
  predicate Target(s: Soc, start: nat, cnt: nat, a: nat) {
    forall i :: start <= i < start + cnt ==> Partner(s.table, i) == i - start + a
  }

  lemma PlacedNext(m: seq<byte>, s: Soc, image: seq<byte>, from: nat, cnt: nat, a: nat)
    requires TableOk(s.table, |m|) && from + cnt <= |image| && s.splAddr + from + cnt <= |m| && a + cnt <= |m|
    requires Placed(m, s, image, from) && Target(s, s.splAddr + from, cnt, a)
    ensures Placed(Put(m, a, image[from..from + cnt]), s, image, from + cnt)
  {
    hide TableOk, Partner, Put;
    var bs, start := image[from..from + cnt], s.splAddr + from;
    var m' := Put(m, a, bs);
    PutLeaves(m, a, bs);
    forall i | s.splAddr <= i < start + cnt
      ensures Partner(s.table, i) < |m'| && m'[Partner(s.table, i)] == image[i - s.splAddr]
    {
      var h := Partner(s.table, i);
      if i >= start {
        PutAt(m, a, bs, i - start);
      } else if a <= h < a + cnt {
        PartnerInvolution(s.table, |m|, i);
        PartnerInvolution(s.table, |m|, start + (h - a));
      }
    }
  }

  lemma ElsewhereNext(m0: seq<byte>, m: seq<byte>, s: Soc, from: nat, a: nat, bs: seq<byte>)
    requires TableOk(s.table, |m|) && a + |bs| <= |m| && Elsewhere(m0, m, s, from) && Target(s, s.splAddr + from, |bs|, a)
    ensures Elsewhere(m0, Put(m, a, bs), s, from + |bs|)
  {
    hide TableOk, Partner, Put;
    var m', start := Put(m, a, bs), s.splAddr + from;
    PutLeaves(m, a, bs);
    forall i | 0 <= i < |m| && !(s.splAddr <= Partner(s.table, i) < start + |bs|) ensures m'[i] == m0[i] {
      if a <= i < a + |bs| { PartnerInvolution(s.table, |m|, start + (i - a)); }
    }
  }

  lemma PlacedOnlyNext(m0: seq<byte>, m: seq<byte>, s: Soc, image: seq<byte>, from: nat, cnt: nat, a: nat)
    requires TableOk(s.table, |m|) && from + cnt <= |image| && s.splAddr + from + cnt <= |m| && a + cnt <= |m|
    requires PlacedOnly(m0, m, s, image, from) && Target(s, s.splAddr + from, cnt, a)
    ensures PlacedOnly(m0, Put(m, a, image[from..from + cnt]), s, image, from + cnt)
  {
    hide TableOk, Placed, Elsewhere, Target, Put;
    PlacedNext(m, s, image, from, cnt, a);
    ElsewhereNext(m0, m, s, from, a, image[from..from + cnt]);
  }

  lemma UntouchedNext(m0: seq<byte>, m: seq<byte>, table: seq<Swap>, a: nat, bs: seq<byte>)
    requires Untouched(m0, m, table) && a + |bs| <= |m|
    requires forall i :: a <= i < a + |bs| ==> !InBuf1(table, i)
    ensures Untouched(m0, Put(m, a, bs), table)
  {
    hide InBuf1;
    var m' := Put(m, a, bs);
    forall i | 0 <= i < |m| && InBuf1(table, i) ensures m'[i] == m0[i] {}
  }

  /** Between two BROM buffers, addresses belong to none. */
  lemma GapClear(s: Soc, top: nat, i: nat, lo: nat, x: nat)
    requires WellFormed(s, top) && i <= |s.table|
    requires i > 0 ==> s.table[i - 1].buf1 + s.table[i - 1].size <= lo
    requires lo <= x && (i < |s.table| ==> x < s.table[i].buf1)
    ensures !InBuf1(s.table, x)
  {
    forall j | 0 <= j < |s.table| ensures !In(s.table[j].buf1, s.table[j].size, x) {
      if j < i - 1 {
        assert PairOk(s.table[j], s.table[i - 1]);
      } else if j > i {
        assert PairOk(s.table[i], s.table[j]);
      }
    }
  }

  lemma Buf2Clear(s: Soc, top: nat, i: nat, x: nat)
    requires WellFormed(s, top) && i < |s.table| && x < s.table[i].size
    ensures !InBuf1(s.table, s.table[i].buf2 + x)
    ensures Partner(s.table, s.table[i].buf1 + x) == s.table[i].buf2 + x
  {
    hide Partner;
    assert EntryOk(s.table[i], top);
    PartnerAt(s.table, top, i, s.table[i].buf1 + x);
    forall j | 0 <= j < |s.table| ensures !In(s.table[j].buf1, s.table[j].size, s.table[i].buf2 + x) {
      if j < i { assert PairOk(s.table[j], s.table[i]); }
      if j > i { assert PairOk(s.table[i], s.table[j]); }
    }
  }

  /** Where the upload stands: `done` bytes written, the next one goes to `cur`. */
  ghost predicate Uploading(m0: seq<byte>, m: seq<byte>, s: Soc, image: seq<byte>, i: nat, done: nat, cur: nat) {
    && WellFormed(s, |m0|) && |m| == |m0| && i <= |s.table|
    && done <= |image| && cur == s.splAddr + done && cur <= |m|
    && Untouched(m0, m, s.table)
    && (|image| <= FinalLimit(s) ==> PlacedOnly(m0, m, s, image, done))
    && (done < |image| ==> cur == if i == 0 then s.splAddr else s.table[i - 1].buf1 + s.table[i - 1].size)
  }

  /** Upload what lies in the gap before buffer `i`, directly. */
  lemma UploadGap(m0: seq<byte>, m: seq<byte>, s: Soc, image: seq<byte>, i: nat, done: nat, cur: nat, cnt: nat)
    requires Uploading(m0, m, s, image, i, done, cur) && done + cnt <= |image| && 0 < cnt
    requires cur + cnt <= if i < |s.table| then s.table[i].buf1 else |m|
    ensures cur + cnt <= |m|
    ensures Untouched(m0, Put(m, cur, image[done..done + cnt]), s.table)
    ensures |image| <= FinalLimit(s) ==> PlacedOnly(m0, Put(m, cur, image[done..done + cnt]), s, image, done + cnt)
  {
    hide Partner, PlacedOnly, Untouched, FinalLimit, InBuf1, InBuf2;
    if i < |s.table| { assert EntryOk(s.table[i], |m|); }
    forall x | cur <= x < cur + cnt ensures !InBuf1(s.table, x) { GapClear(s, |m|, i, cur, x); }
    UntouchedNext(m0, m, s.table, cur, image[done..done + cnt]);
    if |image| <= FinalLimit(s) {
      LimitMeans(s, |m|, |image|);
      forall x | cur <= x < cur + cnt ensures Partner(s.table, x) == x { PartnerOutside(s.table, |m|, x); }
      PlacedOnlyNext(m0, m, s, image, done, cnt, cur);
    }
  }

  /** Upload what belongs into buffer `i`, to its backup location. */
  lemma UploadBackup(m0: seq<byte>, m: seq<byte>, s: Soc, image: seq<byte>, i: nat, done: nat, cnt: nat)
    requires WellFormed(s, |m0|) && |m| == |m0| && i < |s.table| && done + cnt <= |image| && 0 < cnt <= s.table[i].size
    requires Untouched(m0, m, s.table) && s.splAddr + done == s.table[i].buf1
    requires |image| <= FinalLimit(s) ==> s.splAddr + done <= |m| && PlacedOnly(m0, m, s, image, done)
    ensures s.table[i].buf2 + cnt <= |m| && s.splAddr + done + cnt <= |m|
    ensures Untouched(m0, Put(m, s.table[i].buf2, image[done..done + cnt]), s.table)
    ensures |image| <= FinalLimit(s) ==> PlacedOnly(m0, Put(m, s.table[i].buf2, image[done..done + cnt]), s, image, done + cnt)
  {
    hide Partner, PlacedOnly, Untouched, FinalLimit, InBuf1, InBuf2;
    assert EntryOk(s.table[i], |m|);
    var b := s.table[i].buf2;
    var a := s.table[i].buf1;
    forall x | b <= x < b + cnt ensures !InBuf1(s.table, x) { Buf2Clear(s, |m|, i, x - b); }
    forall x | a <= x < a + cnt ensures Partner(s.table, x) == x - a + b { Buf2Clear(s, |m|, i, x - a); }
    UntouchedNext(m0, m, s.table, b, image[done..done + cnt]);
    if |image| <= FinalLimit(s) { PlacedOnlyNext(m0, m, s, image, done, cnt, b); }
  }

  /** One table entry: the gap before the buffer, then the buffer's share. */
  method PlaceAround(mem: array<byte>, ghost m0: seq<byte>, s: Soc, image: seq<byte>, i: nat, done0: nat, cur0: nat)
    returns (cur: nat, done: nat)
    requires i < |s.table| && Uploading(m0, mem[..], s, image, i, done0, cur0)
    modifies mem
    ensures Uploading(m0, mem[..], s, image, i + 1, done, cur)
  {
    hide Partner, PlacedOnly, Untouched, WellFormed, FinalLimit, Put;
    var e := s.table[i];
    cur, done := cur0, done0;
    InOrder(m0, mem[..], s, image, i, done, cur);
    if done < |image| && cur < e.buf1 {
      var cnt := if e.buf1 - cur > |image| - done then |image| - done else e.buf1 - cur;
      UploadGap(m0, mem[..], s, image, i, done, cur, cnt);
      PutBytes(mem, cur, image[done..done + cnt]);
      cur, done := cur + cnt, done + cnt;
    }
    if done < |image| && cur == e.buf1 {
      var cnt := if e.size > |image| - done then |image| - done else e.size;
      UploadBackup(m0, mem[..], s, image, i, done, cnt);
      PutBytes(mem, e.buf2, image[done..done + cnt]);
      cur, done := cur + cnt, done + cnt;
    }
  }

  /**
   The upload loop: gaps are written in place, BROM buffers are filled through
   their backups.  The limit is checked only afterwards, so an image that is too
   large has partly been written by then, but never over a BROM buffer.
   */
  method PlaceImage(mem: array<byte>, s: Soc, image: seq<byte>) returns (ok: bool)
    requires WellFormed(s, mem.Length)
    modifies mem
    ensures ok <==> |image| <= FinalLimit(s)
    ensures Untouched(old(mem[..]), mem[..], s.table)
    ensures ok ==> s.splAddr + |image| <= mem.Length && PlacedOnly(old(mem[..]), mem[..], s, image, |image|)
  {
    hide Partner, PlacedOnly, Untouched, WellFormed, Uploading, Put;
    ghost var m0 := mem[..];
    var limit: nat, cur: nat, done: nat := s.sramSize, s.splAddr, 0;
    StartUpload(m0, s, image);
    assert s.table[0..] == s.table;
    for i := 0 to |s.table|
      invariant Uploading(m0, mem[..], s, image, i, done, cur)
      invariant RunLimit(s.table, s.splAddr, s.sramSize) == RunLimit(s.table[i..], s.splAddr, limit)
    {
      var e := s.table[i];
      assert s.table[i..][0] == e && s.table[i..][1..] == s.table[i + 1..];
      if s.splAddr <= e.buf2 < s.splAddr + limit { limit := e.buf2 - s.splAddr; }
      cur, done := PlaceAround(mem, m0, s, image, i, done, cur);
    }
    assert s.table[|s.table|..] == [];
    Bounds(s, mem.Length);
    var d := (s.thunkAddr + TWO32 - s.splAddr) % TWO32;
    if d < limit { limit := d; }
    assert limit == FinalLimit(s);
    Uploaded(m0, mem[..], s, image, |s.table|, done, cur);
    if |image| > limit { return false; }
    LimitInside(s, mem.Length, |image|);
    if done < |image| {
      UploadGap(m0, mem[..], s, image, |s.table|, done, cur, |image| - done);
      PutBytes(mem, cur, image[done..]);
      assert image[done..|image|] == image[done..];
    }
    return true;
  }

  lemma Uploaded(m0: seq<byte>, m: seq<byte>, s: Soc, image: seq<byte>, i: nat, done: nat, cur: nat)
    requires Uploading(m0, m, s, image, i, done, cur)
    ensures done <= |image| && cur == s.splAddr + done && cur <= |m| == |m0| && WellFormed(s, |m|)
    ensures Untouched(m0, m, s.table)
    ensures s.splAddr < TWO32 && s.thunkAddr < TWO32
    ensures |image| <= FinalLimit(s) ==> PlacedOnly(m0, m, s, image, done)
  {
    hide PlacedOnly, Untouched, FinalLimit;
  }

  lemma StartUpload(m: seq<byte>, s: Soc, image: seq<byte>)
    requires WellFormed(s, |m|)
    ensures Uploading(m, m, s, image, 0, 0, s.splAddr)
  {}

  lemma InOrder(m0: seq<byte>, m: seq<byte>, s: Soc, image: seq<byte>, i: nat, done: nat, cur: nat)
    requires Uploading(m0, m, s, image, i, done, cur) && i < |s.table|
    ensures WellFormed(s, |m|) && Untouched(m0, m, s.table)
    ensures s.table[i].size > 0 && s.table[i].buf1 <= |m|
    ensures done < |image| ==> cur <= s.table[i].buf1
  {
    hide Untouched, PlacedOnly, FinalLimit;
    assert EntryOk(s.table[i], |m|) && SwapOk(s.splAddr, s.table[i]);
    if i > 0 { assert PairOk(s.table[i - 1], s.table[i]); }
  }

  lemma Bounds(s: Soc, top: nat)
    requires WellFormed(s, top)
    ensures s.splAddr < TWO32 && s.thunkAddr < TWO32
  {}

  lemma LimitInside(s: Soc, top: nat, n: nat)
    requires WellFormed(s, top) && n <= FinalLimit(s)
    ensures s.splAddr + n <= top
  {}
}
