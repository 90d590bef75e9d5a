/**
 The host side of SPI flash access: compile erase and program commands into
 batches that fit the SRAM buffer, upload and run them; read in chunks.
 FEL read, write and execute are operations on the array `sram`, the memory
 between the SPL address and the scratch area.
 */
module SpiHost {
  import opened BitVectors
  import opened SpiChip
  import opened SpiTransfer
  import opened SpiBatch
  import opened FlashImage

  function MaxChunk(n: nat): nat {
    if n > 0x1000 then 0x1000 else n
  }

  /** Running `cs` leaves the chip idle with `data` written from `off`. */
  ghost predicate Planned(c: Chip, cs: seq<Cmd>, mem: Memory, off: nat, data: seq<byte>, e: nat)
    requires BlockSize(e)
  {
    var v := RunCmds(c, cs);
    v.busy == 0 && v.mem == WrittenTo(mem, off, data, RoundUp(off + |data|, e))
  }

  /** The commands for the next chunk: erase on entering a block, then program. */
  function ChunkCmds(cmd: byte, e: nat, o: nat, chunk: seq<byte>): (cs: seq<Cmd>)
    requires BlockSize(e) && |chunk| <= PAGE
    ensures BatchOk(cs)
  {
    (if o % e == 0 then EraseCmds(cmd, o) else []) + ProgramCmds(o, chunk)
  }

  /** One more chunk: the program hits erased bytes within one page. */
  lemma PlanChunk(c: Chip, cs: seq<Cmd>, mem: Memory, off: nat, data: seq<byte>, chunk: seq<byte>, cmd: byte, e: nat)
    requires BlockSize(e) && EraseSize(cmd) == e && off % e == 0 && |data| % PAGE == 0
    requires 0 < |chunk| <= PAGE && off + |data| + |chunk| <= SIZE
    requires Planned(c, cs, mem, off, data, e)
    ensures Planned(c, cs + ChunkCmds(cmd, e, off + |data|, chunk), mem, off, data + chunk, e)
  {
    hide RunCmds, WrittenTo, RoundUp, EraseCmds, ProgramCmds;
    var o := off + |data|;
    var erase := if o % e == 0 then EraseCmds(cmd, o) else [];
    var v := RunCmds(c, cs);
    RunConcat(c, cs, erase);
    var top := RoundUp(o + |chunk|, e);
    Boundary(off, |data|, |chunk|, e);
    if o % e == 0 {
      EraseRuns(v, cmd, o);
      EraseStep(mem, off, data, e);
    } else {
      assert cs + erase == cs;
    }
    var w := RunCmds(c, cs + erase);
    assert w.busy == 0 && w.mem == WrittenTo(mem, off, data, top);
    ProgramRuns(w, o, chunk);
    ProgramStep(mem, off, data, chunk, top);
    RunConcat(c, cs + erase, ProgramCmds(o, chunk));
    assert cs + ChunkCmds(cmd, e, o, chunk) == (cs + erase) + ProgramCmds(o, chunk);
  }

  lemma Boundary(off: nat, d: nat, k: nat, e: nat)
    requires BlockSize(e) && off % e == 0 && d % PAGE == 0 && 0 < k <= PAGE
    ensures var o, top := off + d, RoundUp(off + d + k, e);
            && o % PAGE == 0 && o + PAGE <= top
            && (o % e == 0 ==> RoundUp(o, e) == o && top == o + e)
            && (o % e != 0 ==> RoundUp(o, e) == top)
  {
    hide RoundUp;
    PageMultiple(off, d, e);
    if e == 0x1000 { Boundary4K(off + d, k); } else { Boundary64K(off + d, k); }
  }

  lemma PageMultiple(off: nat, d: nat, e: nat)
    requires BlockSize(e) && off % e == 0 && d % PAGE == 0
    ensures (off + d) % PAGE == 0
  {
    var j := d / 0x100;
    assert d == 0x100 * j;
    if e == 0x1000 {
      var q := off / 0x1000;
      assert off == 0x1000 * q;
      PageRest(0x10 * q + j, 0);
    } else {
      var q := off / 0x1_0000;
      assert off == 0x1_0000 * q;
      PageRest(0x100 * q + j, 0);
    }
  }

  /** Rounding up `r` bytes into block `q`. */
  lemma RoundUp4K(q: nat, r: nat)
    requires r <= 0x1000
    ensures RoundUp(0x1000 * q + r, 0x1000) == if r == 0 then 0x1000 * q else 0x1000 * (q + 1)
  {
    Quotient4K(q, r);
  }

  lemma Quotient4K(q: nat, r: nat)
    requires r <= 0x1000
    ensures (0x1000 * q + r + 0xFFF) / 0x1000 == if r == 0 then q else q + 1
  {}

  lemma RoundUp64K(q: nat, r: nat)
    requires r <= 0x1_0000
    ensures RoundUp(0x1_0000 * q + r, 0x1_0000) == if r == 0 then 0x1_0000 * q else 0x1_0000 * (q + 1)
  {
    Quotient64K(q, r);
  }

  lemma Quotient64K(q: nat, r: nat)
    requires r <= 0x1_0000
    ensures (0x1_0000 * q + r + 0xFFFF) / 0x1_0000 == if r == 0 then q else q + 1
  {}

  lemma Boundary4K(o: nat, k: nat)
    requires o % PAGE == 0 && 0 < k <= PAGE
    ensures var top := RoundUp(o + k, 0x1000);
            && o + PAGE <= top
            && (o % 0x1000 == 0 ==> RoundUp(o, 0x1000) == o && top == o + 0x1000)
            && (o % 0x1000 != 0 ==> RoundUp(o, 0x1000) == top)
  {
    hide RoundUp;
    var q, r := o / 0x1000, o % 0x1000;
    assert o == 0x1000 * q + r;
    PageInBlock4K(o);
    RoundUp4K(q, r);
    RoundUp4K(q, r + k);
  }

  lemma PageRest(a: nat, t: nat)
    requires t < 0x100
    ensures (0x100 * a + t) % 0x100 == t
  {}

  lemma PageInBlock4K(o: nat)
    requires o % PAGE == 0
    ensures o % 0x1000 + PAGE <= 0x1000
  {
    var q, r := o / 0x1000, o % 0x1000;
    assert o == 0x100 * (0x10 * q + r / 0x100) + r % 0x100;
    PageRest(0x10 * q + r / 0x100, r % 0x100);
  }

  lemma Boundary64K(o: nat, k: nat)
    requires o % PAGE == 0 && 0 < k <= PAGE
    ensures var top := RoundUp(o + k, 0x1_0000);
            && o + PAGE <= top
            && (o % 0x1_0000 == 0 ==> RoundUp(o, 0x1_0000) == o && top == o + 0x1_0000)
            && (o % 0x1_0000 != 0 ==> RoundUp(o, 0x1_0000) == top)
  {
    hide RoundUp;
    var q, r := o / 0x1_0000, o % 0x1_0000;
    assert o == 0x1_0000 * q + r;
    PageInBlock64K(o);
    RoundUp64K(q, r);
    RoundUp64K(q, r + k);
  }

  lemma PageInBlock64K(o: nat)
    requires o % PAGE == 0
    ensures o % 0x1_0000 + PAGE <= 0x1_0000
  {
    var q, r := o / 0x1_0000, o % 0x1_0000;
    assert o == 0x100 * (0x100 * q + r / 0x100) + r % 0x100;
    PageRest(0x100 * q + r / 0x100, r % 0x100);
  }

  lemma EncodeErase(cmd: byte, o: nat)
    ensures Encode(EraseCmds(cmd, o))
         == [0, 1, CMD_WRITE_ENABLE, 0, 4, cmd] + AddressBytes(o) + [0xFF, 0xFF]
  {
    hide Encode;
    var cs := EraseCmds(cmd, o);
    EncodeThree(cs[0], cs[1], cs[2]);
  }

  lemma EncodeProgram(o: nat, chunk: seq<byte>)
    requires |chunk| <= PAGE
    ensures Encode(ProgramCmds(o, chunk))
         == [0, 1, CMD_WRITE_ENABLE] + Header(4 + |chunk|) + [CMD_PROGRAM] + AddressBytes(o) + chunk + [0xFF, 0xFF]
  {
    hide Encode;
    var cs := ProgramCmds(o, chunk);
    EncodeThree(cs[0], cs[1], cs[2]);
  }

  /** Append bytes to the command buffer. */
  method Emit(cmdbuf: array<byte>, idx: nat, bs: seq<byte>) returns (idx': nat)
    requires idx + |bs| <= cmdbuf.Length
    modifies cmdbuf
    ensures idx' == idx + |bs| && cmdbuf[..idx'] == old(cmdbuf[..idx]) + bs
  {
    for i := 0 to |bs|
      invariant forall j :: 0 <= j < idx ==> cmdbuf[j] == old(cmdbuf[j])
      invariant forall j :: 0 <= j < i ==> cmdbuf[idx + j] == bs[j]
    {
      cmdbuf[idx + i] := bs[i];
    }
    idx' := idx + |bs|;
  }

  /** Emit the commands for one chunk. */
  method EmitChunk(cmdbuf: array<byte>, idx0: nat, ghost cs: seq<Cmd>, cmd: byte, e: nat, o: nat, chunk: seq<byte>)
    returns (idx: nat)
    requires BlockSize(e) && |chunk| <= PAGE && BatchOk(cs)
    requires idx0 + PAGE + 64 < cmdbuf.Length && cmdbuf[..idx0] == Encode(cs)
    modifies cmdbuf
    ensures idx <= idx0 + PAGE + 22
    ensures BatchOk(cs + ChunkCmds(cmd, e, o, chunk)) && cmdbuf[..idx] == Encode(cs + ChunkCmds(cmd, e, o, chunk))
  {
    hide Encode, EraseCmds, ProgramCmds;
    idx := idx0;
    EncodeConcat(cs, ChunkCmds(cmd, e, o, chunk));
    if o % e == 0 {
      EncodeErase(cmd, o);
      EncodeConcat(EraseCmds(cmd, o), ProgramCmds(o, chunk));
      idx := Emit(cmdbuf, idx, [0, 1, CMD_WRITE_ENABLE, 0, 4, cmd] + AddressBytes(o) + [0xFF, 0xFF]);
    } else {
      assert [] + ProgramCmds(o, chunk) == ProgramCmds(o, chunk);
    }
    idx := EmitProgram(cmdbuf, idx, o, chunk);
  }

  method EmitProgram(cmdbuf: array<byte>, idx0: nat, o: nat, chunk: seq<byte>) returns (idx: nat)
    requires |chunk| <= PAGE && idx0 + PAGE + 11 <= cmdbuf.Length
    modifies cmdbuf
    ensures idx <= idx0 + PAGE + 11 && cmdbuf[..idx] == old(cmdbuf[..idx0]) + Encode(ProgramCmds(o, chunk))
  {
    hide Encode, ProgramCmds, Header;
    ghost var before := cmdbuf[..idx0];
    EncodeProgram(o, chunk);
    idx := Emit(cmdbuf, idx0, [0, 1, CMD_WRITE_ENABLE]);
    idx := Emit(cmdbuf, idx, Header(4 + |chunk|));
    idx := Emit(cmdbuf, idx, [CMD_PROGRAM]);
    idx := Emit(cmdbuf, idx, AddressBytes(o));
    idx := Emit(cmdbuf, idx, chunk);
    idx := Emit(cmdbuf, idx, [0xFF, 0xFF]);
    Append6(before, [0, 1, CMD_WRITE_ENABLE], Header(4 + |chunk|), [CMD_PROGRAM], AddressBytes(o), chunk, [0xFF, 0xFF]);
  }

  lemma Append6(x: seq<byte>, a: seq<byte>, b: seq<byte>, c: seq<byte>, d: seq<byte>, e: seq<byte>, f: seq<byte>)
    ensures x + a + b + c + d + e + f == x + (a + b + c + d + e + f)
  {}

  /** Upload the finished batch and run it. */
  method Flush(cmdbuf: array<byte>, idx: nat, sram: array<byte>, addr: nat, spi: Spi, ghost cs: seq<Cmd>)
    requires cmdbuf != sram && idx + 2 <= cmdbuf.Length <= sram.Length
    requires BatchOk(cs) && cmdbuf[..idx] == Encode(cs) && spi.Valid() && spi.Quiet()
    modifies cmdbuf, sram, spi
    ensures spi.Valid() && spi.Quiet() && spi.chip == RunCmds(old(spi.chip), cs)
    ensures sram[cmdbuf.Length..] == old(sram[cmdbuf.Length..])
  {
    hide Encode, RunCmds, After;
    var end := Emit(cmdbuf, idx, [0, 0]);
    ghost var high := sram[cmdbuf.Length..];
    Upload(cmdbuf[..end], sram);
    ghost var all := sram[..];
    assert Encode(cs) + [0, 0] <= all;
    BatchDataTransfer(sram, addr, spi, cs);
    HighIntact(all, sram[..], |Encode(cs)|, cmdbuf.Length, After(old(spi.chip), cs));
    assert sram[cmdbuf.Length..] == sram[..][cmdbuf.Length..];
    assert all[cmdbuf.Length..] == high;
  }

  lemma HighIntact(all: seq<byte>, now: seq<byte>, n: nat, cut: nat, front: seq<byte>)
    requires n <= cut <= |all| && |front| == n && now == front + all[n..]
    ensures now[cut..] == all[cut..]
  {}

  /** FEL write to the start of the buffer. */
  method Upload(bs: seq<byte>, sram: array<byte>)
    requires |bs| <= sram.Length
    modifies sram
    ensures sram[..] == bs + old(sram[..])[|bs|..]
  {
    ghost var was := sram[..];
    for i := 0 to |bs|
      invariant forall j :: 0 <= j < i ==> sram[j] == bs[j]
      invariant forall j :: i <= j < sram.Length ==> sram[j] == was[j]
    {
      sram[i] := bs[i];
    }
  }

  /**
   `aw_fel_spiflash_write_helper`: from a block boundary, write `buf` block by
   block.  Every batch fits the command buffer; the buffer must have room for
   more than one page command, or no batch would make progress.
   */
  method WriteHelper(sram: array<byte>, addr: nat, spi: Spi, offset0: nat, buf: seq<byte>, e: nat, cmd: byte)
    requires BlockSize(e) && EraseSize(cmd) == e && offset0 % e == 0 && offset0 + |buf| <= SIZE
    requires MaxChunk(sram.Length) > PAGE + 64
    requires spi.Valid() && spi.Quiet() && spi.chip.busy == 0
    modifies sram, spi
    ensures spi.Valid() && spi.Quiet() && spi.chip.busy == 0
    ensures spi.chip.mem == WrittenTo(old(spi.chip.mem), offset0, buf, RoundUp(offset0 + |buf|, e))
    ensures sram[MaxChunk(sram.Length)..] == old(sram[MaxChunk(sram.Length)..])
  {
    hide Encode, RunCmds, WrittenTo, RoundUp, ChunkCmds, Planned;
    var maxChunk := MaxChunk(sram.Length);
    var cmdbuf := new byte[maxChunk];
    ghost var mem0, high := spi.chip.mem, sram[maxChunk..];
    var offset, len, idx := offset0, |buf|, 0;
    ghost var cs: seq<Cmd> := [];
    PlanNothing(spi.chip, offset0, e);
    while len > 0
      invariant 0 <= len <= |buf| && offset == offset0 + |buf| - len && idx == 0 && cs == []
      invariant len > 0 ==> (|buf| - len) % PAGE == 0
      invariant spi.Valid() && spi.Quiet()
      invariant Planned(spi.chip, cs, mem0, offset0, buf[..|buf| - len], e)
      invariant sram[maxChunk..] == high
      decreases len
    {
      ghost var before := len;
      EncodeNothing();
      while len > 0 && maxChunk - idx > PAGE + 64
        invariant 0 <= len <= before && 0 <= idx <= maxChunk - 2 && offset == offset0 + |buf| - len
        invariant len == before ==> idx == 0
        invariant len > 0 ==> (|buf| - len) % PAGE == 0
        invariant BatchOk(cs) && cmdbuf[..idx] == Encode(cs)
        invariant Planned(spi.chip, cs, mem0, offset0, buf[..|buf| - len], e)
        modifies cmdbuf
        decreases len
      {
        var count := if PAGE > len then len else PAGE;
        var from := |buf| - len;
        var chunk := buf[from..from + count];
        idx := EmitChunk(cmdbuf, idx, cs, cmd, e, offset, chunk);
        PlanChunk(spi.chip, cs, mem0, offset0, buf[..from], chunk, cmd, e);
        assert buf[..from] + chunk == buf[..from + count];
        cs := cs + ChunkCmds(cmd, e, offset, chunk);
        len, offset := len - count, offset + count;
      }
      ghost var c := spi.chip;
      Flush(cmdbuf, idx, sram, addr, spi, cs);
      PlanRun(c, spi.chip, cs, mem0, offset0, buf[..|buf| - len], e);
      idx, cs := 0, [];
    }
    assert buf[..|buf|] == buf;
    PlanDone(spi.chip, mem0, offset0, buf, e);
  }

  lemma PlanNothing(c: Chip, off: nat, e: nat)
    requires BlockSize(e) && off % e == 0 && c.busy == 0
    ensures Planned(c, [], c.mem, off, [], e)
  {
    WrittenNothing(c.mem, off);
    Boundary(off, 0, 1, e);
  }

  lemma PlanRun(c: Chip, c': Chip, cs: seq<Cmd>, mem: Memory, off: nat, data: seq<byte>, e: nat)
    requires BlockSize(e) && Planned(c, cs, mem, off, data, e) && c' == RunCmds(c, cs)
    ensures Planned(c', [], mem, off, data, e)
  {
    hide WrittenTo, RoundUp;
    assert RunCmds(c', []) == c';
  }

  lemma PlanDone(c: Chip, mem: Memory, off: nat, data: seq<byte>, e: nat)
    requires BlockSize(e) && Planned(c, [], mem, off, data, e)
    ensures c.busy == 0 && c.mem == WrittenTo(mem, off, data, RoundUp(off + |data|, e))
  {
    hide WrittenTo, RoundUp;
    assert RunCmds(c, []) == c;
  }

  lemma RoundAligned(o: nat)
    ensures o % SMALL_ERASE == 0 ==> RoundUp(o, SMALL_ERASE) == o
  {}

  lemma RoundLarge(o: nat)
    ensures o % LARGE_ERASE == 0 ==> RoundUp(o, LARGE_ERASE) == o == RoundUp(o, SMALL_ERASE) && o % SMALL_ERASE == 0
  {}

  const SMALL_ERASE: nat := 0x1000
  const LARGE_ERASE: nat := 0x1_0000

  /** One round of the write loop: a large block if aligned and full, else a small one. */
  method WriteBlock(sram: array<byte>, addr: nat, spi: Spi, offset: nat, buf: seq<byte>) returns (count: nat)
    requires |buf| > 0 && offset + |buf| <= SIZE && MaxChunk(sram.Length) > PAGE + 64 && offset % SMALL_ERASE == 0
    requires spi.Valid() && spi.Quiet() && spi.chip.busy == 0
    modifies sram, spi
    ensures 0 < count <= |buf| && (count < |buf| ==> (offset + count) % SMALL_ERASE == 0)
    ensures spi.Valid() && spi.Quiet() && spi.chip.busy == 0
    ensures spi.chip.mem
         == WrittenTo(old(spi.chip.mem), offset, buf[..count], RoundUp(offset + count, SMALL_ERASE))
  {
    hide WrittenTo, RoundUp;
    if offset % LARGE_ERASE != 0 || |buf| < LARGE_ERASE {
      count := if SMALL_ERASE > |buf| then |buf| else SMALL_ERASE;
      WriteHelper(sram, addr, spi, offset, buf[..count], SMALL_ERASE, CMD_ERASE_4K);
    } else {
      count := LARGE_ERASE;
      WriteHelper(sram, addr, spi, offset, buf[..count], LARGE_ERASE, CMD_ERASE_64K);
      RoundLarge(offset + count);
    }
  }

  /**
   `aw_fel_spiflash_write`: refuses an offset that is not 4 KiB aligned, and
   otherwise leaves the buffer in flash, erased bytes up to the next 4 KiB
   boundary, everything else in the flash and the whole SRAM as they were.
   */
  method SpiflashWrite(sram: array<byte>, addr: nat, spi: Spi, offset0: nat, buf: seq<byte>) returns (ok: bool)
    requires offset0 + |buf| <= SIZE && MaxChunk(sram.Length) > PAGE + 64
    requires spi.Valid() && spi.Quiet() && spi.chip.busy == 0
    modifies sram, spi
    ensures ok <==> offset0 % SMALL_ERASE == 0
    ensures spi.Valid() && spi.Quiet() && spi.chip.busy == 0 && sram[..] == old(sram[..])
    ensures spi.chip.mem == if ok
                            then WrittenTo(old(spi.chip.mem), offset0, buf, RoundUp(offset0 + |buf|, SMALL_ERASE))
                            else old(spi.chip.mem)
  {
    hide WrittenTo, RoundUp;
    var backup := sram[..];
    if offset0 % SMALL_ERASE != 0 {
      return false;
    }
    ghost var mem0 := spi.chip.mem;
    var offset, len := offset0, |buf|;
    WrittenNothing(mem0, offset0);
    RoundAligned(offset0);
    while len > 0
      invariant 0 <= len <= |buf| && offset == offset0 + |buf| - len
      invariant len > 0 ==> offset % SMALL_ERASE == 0
      invariant spi.Valid() && spi.Quiet() && spi.chip.busy == 0
      invariant spi.chip.mem == WrittenTo(mem0, offset0, buf[..|buf| - len], RoundUp(offset, SMALL_ERASE))
      decreases len
    {
      var from := |buf| - len;
      RoundAligned(offset);
      var count := WriteBlock(sram, addr, spi, offset, buf[from..]);
      assert buf[from..][..count] == buf[from..from + count];
      WrittenTwice(mem0, offset0, buf[..from], buf[from..from + count], RoundUp(offset + count, SMALL_ERASE));
      assert buf[..from] + buf[from..from + count] == buf[..from + count];
      len, offset := len - count, offset + count;
    }
    assert buf[..|buf|] == buf;
    Upload(backup, sram);
    return true;
  }

  // ----- reading

  /** `len` bytes of flash from `offset`, at addresses modulo the chip size. */
  function Contents(mem: Memory, offset: nat, len: nat): (r: seq<byte>)
    ensures |r| == len
  {
    seq(len, i requires 0 <= i < len => mem[(offset + i) % SIZE])
  }

  lemma ContentsConcat(mem: Memory, offset: nat, a: nat, b: nat)
    ensures Contents(mem, offset, a) + Contents(mem, offset + a, b) == Contents(mem, offset, a + b)
  {}

  /** A read command returns the flash contents after its four header bytes. */
  lemma ReadReplies(c: Chip, offset: nat, dummy: seq<byte>)
    requires c.busy == 0
    ensures var tx := [CMD_READ] + AddressBytes(offset) + dummy;
            && Replies(c, tx)[4..] == Contents(c.mem, offset, |dummy|)
            && Finish(c, tx) == c
  {
    var tx := [CMD_READ] + AddressBytes(offset) + dummy;
    var r := Replies(c, tx);
    hide AddressBytes;
    forall i | 0 <= i < |dummy| ensures r[4..][i] == c.mem[(offset + i) % SIZE] {
      var pre := tx[..4 + i];
      assert pre == [CMD_READ] + AddressBytes(offset) + dummy[..i];
      AddressOf(CMD_READ, offset, dummy[..i]);
      ModTwice(offset, i);
      assert r[4 + i] == Reply(c, pre);
    }
  }

  lemma ModTwice(o: nat, i: nat)
    ensures (o % SIZE + i) % SIZE == (o + i) % SIZE
  {}

  /** Command bytes of a read: code, opcode, address. */
  function ReadCommand(offset: nat, chunk: nat): (r: seq<byte>)
    requires chunk + 4 < 0x1_0000
    ensures |r| == 6
  {
    Header(chunk + 4) + [CMD_READ] + AddressBytes(offset)
  }

  /** The single read command found in memory. */
  lemma ReadBatch(all: seq<byte>, offset: nat, chunk: nat)
    requires 0 < chunk < 0x1000 && chunk + 8 <= |all|
    requires all[..6] == ReadCommand(offset, chunk) && all[chunk + 6] == 0 && all[chunk + 7] == 0
    ensures var cs := [Transfer([CMD_READ] + AddressBytes(offset) + all[6..6 + chunk])];
            && BatchOk(cs) && Encode(cs) == all[..chunk + 6] && Encode(cs) + [0, 0] <= all
  {
    hide AddressBytes, Header;
    var tx := [CMD_READ] + AddressBytes(offset) + all[6..6 + chunk];
    var cs := [Transfer(tx)];
    assert cs[1..] == [];
    assert Encode(cs) == Encode1(cs[0]) + Encode([]) == Header(|tx|) + tx;
    assert all[..chunk + 6] == all[..6] + all[6..6 + chunk];
    assert all[..chunk + 8] == all[..chunk + 6] + [0, 0];
  }

  /** Run the uploaded read command; only the transferred bytes change. */
  method RunRead(sram: array<byte>, addr: nat, spi: Spi, offset: nat, chunk: nat)
    requires 0 < chunk < 0x1000 && chunk + 8 <= sram.Length
    requires sram[..6] == ReadCommand(offset, chunk) && sram[chunk + 6] == 0 && sram[chunk + 7] == 0
    requires spi.Valid() && spi.Quiet() && spi.chip.busy == 0
    modifies sram, spi
    ensures spi.Valid() && spi.Quiet() && spi.chip == old(spi.chip)
    ensures sram[6..6 + chunk] == Contents(spi.chip.mem, offset, chunk)
    ensures forall i :: chunk + 6 <= i < sram.Length ==> sram[i] == old(sram[i])
  {
    hide Encode, After, RunCmds, Finish, Replies, ReadCommand, AddressBytes, Contents;
    ghost var all, c := sram[..], spi.chip;
    ghost var dummy := all[6..6 + chunk];
    ghost var tx := [CMD_READ] + AddressBytes(offset) + dummy;
    ghost var cs := [Transfer(tx)];
    ReadBatch(all, offset, chunk);
    BatchDataTransfer(sram, addr, spi, cs);
    ReadReplies(c, offset, dummy);
    OneTransfer(c, tx);
    ghost var now := After(c, cs) + all[chunk + 6..];
    assert sram[..] == now;
    assert sram[6..6 + chunk] == now[6..6 + chunk] == Replies(c, tx)[4..];
  }

  lemma OneTransfer(c: Chip, tx: seq<byte>)
    requires 0 < |tx| < 0xFFFF
    ensures RunCmds(c, [Transfer(tx)]) == Finish(c, tx)
    ensures After(c, [Transfer(tx)]) == Header(|tx|) + Replies(c, tx)
  {
    hide Finish, Replies, Header;
    var cs := [Transfer(tx)];
    assert cs[1..] == [];
    assert After(c, cs) == After1(c, cs[0]) + After(Finish(c, tx), []);
    assert RunCmds(c, cs) == RunCmds(Finish(c, tx), []);
  }

  /**
   `aw_fel_spiflash_read`: returns the flash contents for every offset and
   length and restores the SRAM.  A full-size chunk uploads only its six command
   bytes: the end marker it needs is still there from the initial zero fill.
   */
  method SpiflashRead(sram: array<byte>, addr: nat, spi: Spi, offset0: nat, len0: nat) returns (buf: seq<byte>)
    requires MaxChunk(sram.Length) > 8
    requires spi.Valid() && spi.Quiet() && spi.chip.busy == 0
    modifies sram, spi
    ensures buf == Contents(old(spi.chip.mem), offset0, len0)
    ensures spi.Valid() && spi.Quiet() && spi.chip == old(spi.chip) && sram[..] == old(sram[..])
  {
    hide Contents, ReadCommand;
    var backup := sram[..];
    var maxChunk := MaxChunk(sram.Length);
    Upload(seq(maxChunk, _ => 0), sram);
    var offset, len := offset0, len0;
    buf := [];
    while len > 0
      invariant 0 <= len <= len0 && offset == offset0 + len0 - len
      invariant spi.Valid() && spi.Quiet() && spi.chip == old(spi.chip)
      invariant sram[maxChunk - 2] == 0 && sram[maxChunk - 1] == 0
      invariant buf == Contents(old(spi.chip.mem), offset0, len0 - len)
      decreases len
    {
      var chunk := if len > maxChunk - 8 then maxChunk - 8 else len;
      UploadRead(sram, maxChunk, offset, chunk);
      RunRead(sram, addr, spi, offset, chunk);
      ContentsConcat(spi.chip.mem, offset0, len0 - len, chunk);
      buf := buf + sram[6..6 + chunk];
      len, offset := len - chunk, offset + chunk;
    }
    Upload(backup, sram);
  }

  /** Place the read command; an end marker follows it in either case. */
  method UploadRead(sram: array<byte>, maxChunk: nat, offset: nat, chunk: nat)
    requires 8 < maxChunk <= sram.Length && maxChunk <= 0x1000 && 0 < chunk <= maxChunk - 8
    requires sram[maxChunk - 2] == 0 && sram[maxChunk - 1] == 0
    modifies sram
    ensures sram[..6] == ReadCommand(offset, chunk) && sram[chunk + 6] == 0 && sram[chunk + 7] == 0
    ensures sram[maxChunk - 2] == 0 && sram[maxChunk - 1] == 0
  {
    hide ReadCommand;
    var cmd := ReadCommand(offset, chunk);
    if chunk == maxChunk - 8 {
      Upload(cmd, sram);
    } else {
      Upload(cmd + seq(chunk + 2, _ => 0), sram);
    }
    assert sram[..6] == cmd;
  }
}
