/**
 The bytes of the flash protocol: what the host puts into its batches, and what
 the chip does on receiving them.
 */
module SpiProtocol {
  import opened BitVectors
  import opened SpiChip
  import opened SpiBatch
  import opened FlashImage
  import opened SpiHost

  /** A 24-bit address from its three bytes. */
  function Addr(a2: byte, a1: byte, a0: byte): (o: nat)
    ensures o < SIZE
  {
    0x1_0000 * (a2 as nat) + 0x100 * (a1 as nat) + a0 as nat
  }

  lemma AddrBytes(a2: byte, a1: byte, a0: byte)
    ensures AddressBytes(Addr(a2, a1, a0)) == [a2, a1, a0]
  {
    var o, h: nat := Addr(a2, a1, a0), 0x100 * (a2 as nat) + a1 as nat;
    LowByte(h, a0);
    LowByte(a2, a1);
    LowWord(a2, 0x100 * (a1 as nat) + a0 as nat);
  }

  lemma LowByte(h: nat, l: byte)
    ensures (0x100 * h + l) / 0x100 == h && (0x100 * h + l) % 0x100 == l
  {}

  lemma LowWord(h: nat, l: nat)
    requires l < 0x1_0000
    ensures (0x1_0000 * h + l) / 0x1_0000 == h
  {}

  /** Erasing a small and a large block: write enable, erase, wait. */
  lemma EraseBatchBytes(a2: byte, a1: byte, a0: byte)
    ensures Encode(EraseCmds(CMD_ERASE_4K, Addr(a2, a1, a0))) == [0, 1, 0x06, 0, 4, 0x20, a2, a1, a0, 0xFF, 0xFF]
    ensures Encode(EraseCmds(CMD_ERASE_64K, Addr(a2, a1, a0))) == [0, 1, 0x06, 0, 4, 0xD8, a2, a1, a0, 0xFF, 0xFF]
    ensures SMALL_ERASE == 4096 == EraseSize(0x20) && LARGE_ERASE == 65536 == EraseSize(0xD8)
  {
    hide Encode, EraseCmds, AddressBytes;
    AddrBytes(a2, a1, a0);
    EncodeErase(CMD_ERASE_4K, Addr(a2, a1, a0));
    EncodeErase(CMD_ERASE_64K, Addr(a2, a1, a0));
  }

  /** Programming up to 256 bytes: write enable, page program, wait; the length in two bytes, high byte first. */
  lemma ProgramBatchBytes(a2: byte, a1: byte, a0: byte, chunk: seq<byte>)
    requires |chunk| <= 256
    ensures var n := |chunk| + 4;
      Encode(ProgramCmds(Addr(a2, a1, a0), chunk))
      == [0, 1, 0x06, n / 256, n % 256, 0x02, a2, a1, a0] + chunk + [0xFF, 0xFF]
  {
    hide Encode, ProgramCmds, AddressBytes;
    AddrBytes(a2, a1, a0);
    EncodeProgram(Addr(a2, a1, a0), chunk);
  }

  /** A read command: length, opcode and address. */
  lemma ReadCommandBytes(a2: byte, a1: byte, a0: byte, chunk: nat)
    requires chunk + 4 < 0x1_0000
    ensures ReadCommand(Addr(a2, a1, a0), chunk) == [(chunk + 4) / 256, (chunk + 4) % 256, 0x03, a2, a1, a0]
  {
    hide AddressBytes;
    AddrBytes(a2, a1, a0);
  }

  /** What an idle chip does on an erase command once writing is enabled. */
  lemma ChipErases(c: Chip, a2: byte, a1: byte, a0: byte)
    requires c.busy == 0
    ensures Finish(c, [0x06]) == c.(wel := true)
    ensures c.wel ==> Finish(c, [0x20, a2, a1, a0]).mem == EraseBlock(c.mem, Addr(a2, a1, a0), 4096)
    ensures c.wel ==> Finish(c, [0xD8, a2, a1, a0]).mem == EraseBlock(c.mem, Addr(a2, a1, a0), 65536)
  {
    hide EraseBlock;
  }

  /** On a program command. */
  lemma ChipPrograms(c: Chip, a2: byte, a1: byte, a0: byte, data: seq<byte>)
    requires c.busy == 0 && c.wel && data != []
    ensures Finish(c, [0x02, a2, a1, a0] + data).mem == ProgramPage(c.mem, Addr(a2, a1, a0), data)
  {
    hide EraseBlock, ProgramPage;
    var tx := [0x02, a2, a1, a0] + data;
    assert tx[0] == 0x02 && tx[1] == a2 && tx[2] == a1 && tx[3] == a0 && |tx| > 4;
    assert tx[4..] == data;
  }

  /** And on a read command: behind its four bytes the chip answers with its contents from that address on. */
  lemma ChipReads(c: Chip, a2: byte, a1: byte, a0: byte, dummy: seq<byte>)
    requires c.busy == 0
    ensures Replies(c, [0x03, a2, a1, a0] + dummy)[4..] == Contents(c.mem, Addr(a2, a1, a0), |dummy|)
  {
    hide Replies, Contents, AddressBytes, Addr, Finish;
    AddrBytes(a2, a1, a0);
    ReadReplies(c, Addr(a2, a1, a0), dummy);
    assert [CMD_READ] + [a2, a1, a0] + dummy == [0x03, a2, a1, a0] + dummy;
  }

  /** Bit 0 of the answer to opcode 5 says that the chip is busy. */
  lemma StatusBit(c: Chip)
    ensures Replies(c, [0x05, 0])[1] % 2 == if c.busy > 0 then 1 else 0
  {
    assert [0x05, 0][..1] == [0x05];
    assert Replies(c, [0x05, 0])[1] == Reply(c, [0x05]);
  }
}
