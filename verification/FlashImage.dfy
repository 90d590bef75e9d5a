/**
 What writing a buffer does to the flash contents, and the erase and page
 program operations that bring it about.
 */
module FlashImage {
  import opened BitVectors
  import opened SpiChip
  import opened SpiBatch

  /** `data` at `off`, erased bytes from its end up to `top`, the rest as before. */
  function WrittenTo(mem: Memory, off: nat, data: seq<byte>, top: nat): (r: Memory) {
    seq(SIZE, i requires 0 <= i < SIZE =>
      if off <= i < off + |data| then data[i - off]
      else if off + |data| <= i < top then 0xFF
      else mem[i])
  }

  /** The sizes a block erase works on. */
  predicate BlockSize(e: nat) {
    e == 0x1000 || e == 0x1_0000
  }

  /** The next multiple of `e` that is at least `x`. */
  lemma RoundFacts(x: nat)
    ensures x <= (x + 0xFFF) / 0x1000 * 0x1000 < x + 0x1000
    ensures x <= (x + 0xFFFF) / 0x1_0000 * 0x1_0000 < x + 0x1_0000
  {
    var y, z := x + 0xFFF, x + 0xFFFF;
    assert y == 0x1000 * (y / 0x1000) + y % 0x1000;
    assert z == 0x1_0000 * (z / 0x1_0000) + z % 0x1_0000;
  }

  function RoundUp(x: nat, e: nat): (r: nat)
    requires BlockSize(e)
    ensures x <= r < x + e && r % e == 0
  {
    RoundFacts(x);
    if e == 0x1000 then (x + 0xFFF) / 0x1000 * 0x1000 else (x + 0xFFFF) / 0x1_0000 * 0x1_0000
  }

  lemma EraseStep(mem: Memory, off: nat, data: seq<byte>, e: nat)
    requires BlockSize(e) && (off + |data|) % e == 0
    ensures var o := off + |data|; EraseBlock(WrittenTo(mem, off, data, o), o, e) == WrittenTo(mem, off, data, o + e)
  {
    var o := off + |data|;
    forall i | 0 <= i < SIZE ensures i / e == o / e <==> o <= i < o + e { SameBlock(i, o, e); }
  }

  lemma SameBlock(i: nat, o: nat, e: nat)
    requires (BlockSize(e) || e == PAGE) && o % e == 0
    ensures i / e == o / e <==> o <= i < o + e
  {}

  /** A short chunk from column 0 fills the front of the page buffer. */
  lemma {:induction false} PageBufferAt(data: seq<byte>, i: nat)
    requires |data| <= PAGE && i < PAGE
    ensures PageBuffer(0, data)[i] == if i < |data| then data[i] else 0xFF
    decreases |data|
  {
    if data != [] { PageBufferAt(data[..|data| - 1], i); }
  }

  lemma ProgramStep(mem: Memory, off: nat, data: seq<byte>, chunk: seq<byte>, top: nat)
    requires (off + |data|) % PAGE == 0 && |chunk| <= PAGE && off + |data| + PAGE <= top
    ensures ProgramPage(WrittenTo(mem, off, data, top), off + |data|, chunk) == WrittenTo(mem, off, data + chunk, top)
  {
    var o := off + |data|;
    var now, goal := WrittenTo(mem, off, data, top), WrittenTo(mem, off, data + chunk, top);
    hide PageBuffer, And;
    forall i | 0 <= i < SIZE
      ensures (if i / PAGE == o / PAGE then AndByte(now[i], PageBuffer(o % PAGE, chunk)[i % PAGE]) else now[i]) == goal[i]
    {
      SameBlock(i, o, PAGE);
      if o <= i < o + PAGE {
        assert i % PAGE == i - o;
        PageBufferAt(chunk, i - o);
        AndErased(if i - o < |chunk| then chunk[i - o] else 0xFF);
      }
    }
  }

  /** Writing in two steps. */
  lemma WrittenTwice(mem: Memory, off: nat, a: seq<byte>, b: seq<byte>, top: nat)
    ensures WrittenTo(WrittenTo(mem, off, a, off + |a|), off + |a|, b, top) == WrittenTo(mem, off, a + b, top)
  {}

  lemma WrittenNothing(mem: Memory, off: nat)
    ensures WrittenTo(mem, off, [], off) == mem
  {}

  // ----- the commands

  function AddressBytes(o: nat): (r: seq<byte>)
    ensures |r| == 3
  {
    [(o / 0x1_0000) % 0x100, (o / 0x100) % 0x100, o % 0x100]
  }

  lemma ThreeBytes(o: nat)
    ensures 0x1_0000 * ((o / 0x1_0000) % 0x100) + 0x100 * ((o / 0x100) % 0x100) + o % 0x100 == o % SIZE
  {
    var a, b, c, d := o / SIZE, (o / 0x1_0000) % 0x100, (o / 0x100) % 0x100, o % 0x100;
    assert o == 0x100 * (o / 0x100) + d;
    assert o / 0x100 == 0x100 * (o / 0x1_0000) + c;
    assert o / 0x1_0000 == 0x100 * a + b;
  }

  lemma AddressOf(cmd: byte, o: nat, rest: seq<byte>)
    ensures Address([cmd] + AddressBytes(o) + rest) == o % SIZE
  {
    var tx := [cmd] + AddressBytes(o) + rest;
    ThreeBytes(o);
    assert tx[1] == (o / 0x1_0000) % 0x100 && tx[2] == (o / 0x100) % 0x100 && tx[3] == o % 0x100;
  }

  function EraseCmds(cmd: byte, o: nat): (cs: seq<Cmd>)
    ensures BatchOk(cs)
  {
    [Transfer([CMD_WRITE_ENABLE]), Transfer([cmd] + AddressBytes(o)), Wait]
  }

  function ProgramCmds(o: nat, chunk: seq<byte>): (cs: seq<Cmd>)
    requires |chunk| <= PAGE
    ensures BatchOk(cs)
  {
    [Transfer([CMD_WRITE_ENABLE]), Transfer([CMD_PROGRAM] + AddressBytes(o) + chunk), Wait]
  }

  lemma RunThree(c: Chip, x: Cmd, y: Cmd, z: Cmd)
    ensures RunCmds(c, [x, y, z]) == Perform(Perform(Perform(c, x), y), z)
  {
    hide Perform;
    assert [x, y, z][1..] == [y, z] && [y, z][1..] == [z] && [z][1..] == [];
    assert RunCmds(Perform(c, x), [y, z]) == RunCmds(Perform(Perform(c, x), y), [z]);
    assert RunCmds(Perform(Perform(c, x), y), [z]) == RunCmds(Perform(Perform(Perform(c, x), y), z), []);
  }

  /** Enable, erase, wait: an idle chip ends up idle with the block erased. */
  lemma EraseRuns(c: Chip, cmd: byte, o: nat)
    requires c.busy == 0 && EraseSize(cmd) > 0 && o < SIZE
    ensures var r := RunCmds(c, EraseCmds(cmd, o)); r.busy == 0 && r.mem == EraseBlock(c.mem, o, EraseSize(cmd))
  {
    hide EraseBlock;
    var cs := EraseCmds(cmd, o);
    RunThree(c, cs[0], cs[1], cs[2]);
    AddressOf(cmd, o, []);
    assert [cmd] + AddressBytes(o) + [] == [cmd] + AddressBytes(o);
  }

  /** Enable, program, wait. */
  lemma ProgramRuns(c: Chip, o: nat, chunk: seq<byte>)
    requires c.busy == 0 && 0 < |chunk| <= PAGE && o < SIZE
    ensures var r := RunCmds(c, ProgramCmds(o, chunk)); r.busy == 0 && r.mem == ProgramPage(c.mem, o, chunk)
  {
    hide ProgramPage, RunCmds, AddressBytes;
    var tx := [CMD_PROGRAM] + AddressBytes(o) + chunk;
    RunThree(c, Transfer([CMD_WRITE_ENABLE]), Transfer(tx), Wait);
    AddressOf(CMD_PROGRAM, o, chunk);
    assert tx[4..] == chunk;
  }

  lemma EncodeThree(x: Cmd, y: Cmd, z: Cmd)
    requires CmdOk(x) && CmdOk(y) && CmdOk(z)
    ensures BatchOk([x, y, z]) && Encode([x, y, z]) == Encode1(x) + Encode1(y) + Encode1(z)
  {
    hide Encode1;
    assert [x, y, z][1..] == [y, z] && [y, z][1..] == [z] && [z][1..] == [];
    assert Encode([z]) == Encode1(z) + Encode([]);
    assert Encode([y, z]) == Encode1(y) + Encode([z]);
  }
}
