/**
 A serial NOR flash chip as seen from its SPI pins: write-enable latch, busy
 counter, sector and block erase, page program.  A transaction is the byte
 string clocked in while the chip is selected.
 */
module SpiChip {
  import opened BitVectors

  const SIZE: nat := 0x100_0000
  const PAGE: nat := 0x100

  const CMD_PROGRAM: byte := 0x02
  const CMD_READ: byte := 0x03
  const CMD_STATUS: byte := 0x05
  const CMD_WRITE_ENABLE: byte := 0x06
  const CMD_ERASE_4K: byte := 0x20
  const CMD_ERASE_64K: byte := 0xD8

  type Memory = m: seq<byte> | |m| == SIZE witness seq(SIZE, _ => 0)

  /**
   `busy` counts the status reads still answered "busy".  How long operation
   number `ops` takes is up to the chip: `timing` is arbitrary.
   */
  datatype Chip = Chip(mem: Memory, wel: bool, busy: nat, ops: nat, timing: nat -> nat)

  /** Bitwise and. */
  function And(a: nat, b: nat): nat {
    if a == 0 || b == 0 then 0
    else 2 * And(a / 2, b / 2) + (if a % 2 == 1 && b % 2 == 1 then 1 else 0)
  }

  lemma {:induction false} AndBound(a: nat, b: nat)
    ensures And(a, b) <= a
  {
    if a != 0 && b != 0 { AndBound(a / 2, b / 2); }
  }

  /** Programming over erased bits stores the value; 0xFF leaves it alone. */
  lemma {:induction false} AndOnes(k: nat, x: nat)
    requires x < Pow2(k)
    ensures And(Pow2(k) - 1, x) == x && And(x, Pow2(k) - 1) == x
  {
    if k > 0 && x > 0 { AndOnes(k - 1, x / 2); }
  }

  lemma AndErased(x: byte)
    ensures And(0xFF, x) == x && And(x, 0xFF) == x
  {
    assert Pow2(8) == 0x100;
    AndOnes(8, x);
  }

  function Address(tx: seq<byte>): (a: nat)
    requires |tx| >= 4
    ensures a < SIZE
  {
    var a2: nat, a1: nat, a0: nat := tx[1], tx[2], tx[3];
    0x1_0000 * a2 + 0x100 * a1 + a0
  }

  /** The byte the chip returns after having received `prefix`. */
  function Reply(c: Chip, prefix: seq<byte>): byte {
    if prefix == [] then 0xFF
    else if prefix[0] == CMD_STATUS then
      (if c.busy > 0 then 1 else 0) + (if c.wel then 2 else 0)
    else if prefix[0] == CMD_READ && c.busy == 0 && |prefix| >= 4 then
      c.mem[(Address(prefix) + |prefix| - 4) % SIZE]
    else 0xFF
  }

  /** All bytes returned during the transaction `tx`. */
  function Replies(c: Chip, tx: seq<byte>): (r: seq<byte>)
    ensures |r| == |tx|
  {
    seq(|tx|, i requires 0 <= i < |tx| => Reply(c, tx[..i]))
  }

  function EraseBlock(mem: Memory, a: nat, size: nat): (r: Memory)
    requires size > 0
  {
    seq(SIZE, i requires 0 <= i < SIZE => if i / size == a / size then 0xFF else mem[i])
  }

  /** The page buffer after `data` was clocked in from column `col`; it wraps. */
  function PageBuffer(col: nat, data: seq<byte>): (r: seq<byte>)
    ensures |r| == PAGE
  {
    if data == [] then seq(PAGE, _ => 0xFF)
    else
      var n := |data| - 1;
      PageBuffer(col, data[..n])[(col + n) % PAGE := data[n]]
  }

  function AndByte(a: byte, b: byte): byte {
    AndBound(a, b);
    And(a, b)
  }

  function ProgramPage(mem: Memory, a: nat, data: seq<byte>): (r: Memory) {
    var page := PageBuffer(a % PAGE, data);
    seq(SIZE, i requires 0 <= i < SIZE => if i / PAGE == a / PAGE then AndByte(mem[i], page[i % PAGE]) else mem[i])
  }

  function EraseSize(cmd: byte): nat {
    if cmd == CMD_ERASE_4K then 0x1000 else if cmd == CMD_ERASE_64K then 0x1_0000 else 0
  }

  /** Start an operation that clears the latch and keeps the chip busy. */
  function Started(c: Chip, mem: Memory): Chip {
    Chip(mem, false, c.timing(c.ops), c.ops + 1, c.timing)
  }

  /** The effect of the transaction, taken when the chip is deselected. */
  function Finish(c: Chip, tx: seq<byte>): Chip {
    if tx == [] then c
    else if tx[0] == CMD_STATUS then c.(busy := if c.busy > 0 then c.busy - 1 else 0)
    else if c.busy > 0 then c
    else if tx[0] == CMD_WRITE_ENABLE && |tx| == 1 then c.(wel := true)
    else if EraseSize(tx[0]) > 0 && |tx| == 4 && c.wel then
      Started(c, EraseBlock(c.mem, Address(tx), EraseSize(tx[0])))
    else if tx[0] == CMD_PROGRAM && |tx| > 4 && c.wel then
      Started(c, ProgramPage(c.mem, Address(tx), tx[4..]))
    else c
  }

  lemma RepliesPrefix(c: Chip, a: seq<byte>, b: seq<byte>)
    ensures Replies(c, a + b)[..|a|] == Replies(c, a)
  {
    hide Reply;
    forall i | 0 <= i < |a| ensures (a + b)[..i] == a[..i] {}
  }
}
