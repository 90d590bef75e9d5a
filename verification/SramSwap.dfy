/**
 The SRAM swap tables: which addresses trade places, and what exchanging every
 pair of buffers does to memory.
 */
module SramSwap {
  import opened BitVectors
  import opened Memory

  /** A BROM-owned buffer and its backup location. */
  datatype Swap = Swap(buf1: nat, buf2: nat, size: nat)

  predicate EntryOk(s: Swap, top: nat) {
    && s.size > 0 && s.size % 4 == 0
    && s.buf1 + s.size <= top && s.buf2 + s.size <= top
    && Apart(s.buf1, s.size, s.buf2, s.size)
  }

  /** Two entries share no byte, and are in order of their BROM buffers. */
  predicate PairOk(s: Swap, t: Swap) {
    && s.buf1 + s.size <= t.buf1
    && Apart(s.buf1, s.size, t.buf2, t.size)
    && Apart(s.buf2, s.size, t.buf1, t.size)
    && Apart(s.buf2, s.size, t.buf2, t.size)
  }

  predicate TableOk(table: seq<Swap>, top: nat) {
    && (forall j :: 0 <= j < |table| ==> EntryOk(table[j], top))
    && (forall i, j :: 0 <= i < j < |table| ==> PairOk(table[i], table[j]))
  }

  predicate InBuf1(table: seq<Swap>, i: nat) {
    exists j :: 0 <= j < |table| && In(table[j].buf1, table[j].size, i)
  }

  predicate InBuf2(table: seq<Swap>, i: nat) {
    exists j :: 0 <= j < |table| && In(table[j].buf2, table[j].size, i)
  }

  function Partner1(s: Swap, i: nat): nat {
    if In(s.buf1, s.size, i) then i - s.buf1 + s.buf2
    else if In(s.buf2, s.size, i) then i - s.buf2 + s.buf1
    else i
  }

  /** The address that trades places with `i`. */
  function Partner(table: seq<Swap>, i: nat): nat {
    if table == [] then i
    else if Partner1(table[0], i) != i then Partner1(table[0], i)
    else Partner(table[1..], i)
  }

  function SwapOne(m: seq<byte>, s: Swap): (r: seq<byte>)
    requires EntryOk(s, |m|)
    ensures |r| == |m|
  {
    seq(|m|, i requires 0 <= i < |m| => m[Partner1(s, i)])
  }

  /** The effect of walking the whole table. */
  function SwapAll(m: seq<byte>, table: seq<Swap>): (r: seq<byte>)
    requires TableOk(table, |m|)
    ensures |r| == |m|
    decreases |table|
  {
    if table == [] then m else SwapAll(SwapOne(m, table[0]), table[1..])
  }

  lemma TableTail(table: seq<Swap>, top: nat)
    requires TableOk(table, top) && table != []
    ensures TableOk(table[1..], top)
    ensures forall j :: 1 <= j < |table| ==> PairOk(table[0], table[j])
  {}

  /** Moved addresses stay inside the two buffers of their entry. */
  lemma {:induction false} PartnerRange(table: seq<Swap>, top: nat, i: nat)
    requires TableOk(table, top)
    ensures Partner(table, i) == i
            || exists j :: 0 <= j < |table| && Partner1(table[j], i) != i && Partner(table, i) == Partner1(table[j], i)
    ensures i < top ==> Partner(table, i) < top
    decreases |table|
  {
    if table != [] && Partner1(table[0], i) == i {
      TableTail(table, top);
      PartnerRange(table[1..], top, i);
      if Partner(table[1..], i) != i {
        var j :| 0 <= j < |table[1..]| && Partner1(table[1..][j], i) != i
                 && Partner(table[1..], i) == Partner1(table[1..][j], i);
        assert table[1..][j] == table[j + 1];
      }
    }
  }

  /** The entry that moves an address is the only one to touch it. */
  lemma {:induction false} PartnerAt(table: seq<Swap>, top: nat, j: nat, i: nat)
    requires TableOk(table, top) && j < |table|
    requires In(table[j].buf1, table[j].size, i) || In(table[j].buf2, table[j].size, i)
    ensures Partner(table, i) == Partner1(table[j], i)
    decreases |table|
  {
    if j > 0 {
      TableTail(table, top);
      assert PairOk(table[0], table[j]);
      assert Partner1(table[0], i) == i;
      PartnerAt(table[1..], top, j - 1, i);
    }
  }

  lemma PartnerOutside(table: seq<Swap>, top: nat, i: nat)
    requires TableOk(table, top) && !InBuf1(table, i) && !InBuf2(table, i)
    ensures Partner(table, i) == i
  {
    forall j | 0 <= j < |table| ensures Partner1(table[j], i) == i {}
    PartnerRange(table, top, i);
  }

  /** Trading places is symmetric, so `Partner` is its own inverse. */
  lemma PartnerInvolution(table: seq<Swap>, top: nat, i: nat)
    requires TableOk(table, top)
    ensures Partner(table, Partner(table, i)) == i
  {
    hide Partner;
    PartnerRange(table, top, i);
    var p := Partner(table, i);
    if p != i {
      var j :| 0 <= j < |table| && Partner1(table[j], i) != i && p == Partner1(table[j], i);
      assert EntryOk(table[j], top);
      PartnerAt(table, top, j, p);
    }
  }

  /** Swapping everything moves each byte to its partner address. */
  lemma {:induction false} SwapAllAt(m: seq<byte>, table: seq<Swap>, i: nat)
    requires TableOk(table, |m|) && i < |m|
    ensures Partner(table, i) < |m| && SwapAll(m, table)[i] == m[Partner(table, i)]
    decreases |table|
  {
    PartnerRange(table, |m|, i);
    if table != [] {
      var s, rest := table[0], table[1..];
      TableTail(table, |m|);
      SwapAllAt(SwapOne(m, s), rest, i);
      PartnerFirst(table, |m|, i);
    }
  }

  /** The first entry moves an address either before all others do, or not at all. */
  lemma PartnerFirst(table: seq<Swap>, top: nat, i: nat)
    requires TableOk(table, top) && table != []
    ensures Partner1(table[0], Partner(table[1..], i)) == Partner(table, i)
  {
    var s, rest := table[0], table[1..];
    if Partner1(s, i) != i {
      NotInRest(table, top, i);
    } else {
      TableTail(table, top);
      PartnerRange(rest, top, i);
      var p := Partner(rest, i);
      if p != i {
        var j :| 0 <= j < |rest| && Partner1(rest[j], i) != i && p == Partner1(rest[j], i);
        hide Partner;
        assert PairOk(s, table[j + 1]) && EntryOk(table[j + 1], top);
      }
    }
  }

  lemma NotInRest(table: seq<Swap>, top: nat, i: nat)
    requires TableOk(table, top) && table != [] && Partner1(table[0], i) != i
    ensures Partner(table[1..], i) == i
  {
    var rest := table[1..];
    TableTail(table, top);
    forall j | 0 <= j < |rest| ensures Partner1(rest[j], i) == i {
      assert PairOk(table[0], table[j + 1]);
    }
    PartnerRange(rest, top, i);
  }

  /**
   The safety of the scheme: whatever happens in between, as long as the backup
   buffers keep their contents, a second swap restores every BROM buffer.
   */
  lemma SwapRestores(m: seq<byte>, x: seq<byte>, table: seq<Swap>, i: nat)
    requires TableOk(table, |m|) && |x| == |m| && i < |m| && InBuf1(table, i)
    requires forall k :: 0 <= k < |m| && InBuf2(table, k) ==> x[k] == SwapAll(m, table)[k]
    ensures SwapAll(x, table)[i] == m[i]
  {
    hide SwapAll, Partner;
    var j :| 0 <= j < |table| && In(table[j].buf1, table[j].size, i);
    PartnerAt(table, |m|, j, i);
    assert EntryOk(table[j], |m|);
    var p := Partner(table, i);
    assert In(table[j].buf2, table[j].size, p);
    assert InBuf2(table, p);
    SwapAllAt(x, table, i);
    SwapAllAt(m, table, p);
    PartnerInvolution(table, |m|, i);
  }

  /** Swapping twice changes nothing at all. */
  lemma SwapTwice(m: seq<byte>, table: seq<Swap>)
    requires TableOk(table, |m|)
    ensures SwapAll(SwapAll(m, table), table) == m
  {
    hide SwapAll, Partner;
    var r := SwapAll(SwapAll(m, table), table);
    forall i | 0 <= i < |m| ensures r[i] == m[i] {
      SwapAllAt(SwapAll(m, table), table, i);
      SwapAllAt(m, table, Partner(table, i));
      PartnerInvolution(table, |m|, i);
    }
  }
}
