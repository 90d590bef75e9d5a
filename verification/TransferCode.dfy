/**
 The words of the two transfer thunks are ARM programs that move words between
 a range and the data behind the code, as the word loop was proved to do.
 */
module TransferCode {
  import opened BitVectors
  import opened Memory
  import opened Memmove
  import opened WordTransfer
  import opened Arm
  import opened MemcpyCode

  /** A transfer to be done by the block at `base`: from the data behind the code when writing, else to it. */
  datatype Transfer = Transfer(base: nat, write: bool, addr: u32, count: u32)

  function From(j: Transfer): nat {
    if j.write then j.base + 48 else j.addr
  }

  function To(j: Transfer): nat {
    if j.write then j.addr else j.base + 48
  }

  function TransferWords(j: Transfer): (r: seq<u32>)
    ensures |r| == 12
  {
    (if j.write then WRITE_CODE else READ_CODE) + [j.addr, j.count]
  }

  function TransferInstr(write: bool, k: nat): Instr {
    match k
    case 0 => Instr(Al, Ldr(0, 15, 32))
    case 1 => Instr(Al, AddI(1, 15, 36))
    case 2 => Instr(Al, Ldr(2, 15, 28))
    case 3 => Instr(Al, CmpI(2, 244))
    case 4 => Instr(Gt, MovI(2, 244))
    case 5 => Instr(Al, SubsI(2, 2, 1))
    case 6 => Instr(Mi, Bx(14))
    case 7 => Instr(Al, LdrPost(3, if write then 1 else 0, 4))
    case 8 => Instr(Al, StrPost(3, if write then 0 else 1, 4))
    case _ => Instr(Al, Branch(-6))
  }

  /** The uploaded words are that program. */
  lemma TransferDecodes(j: Transfer, k: nat)
    requires k < 10
    ensures Decode(TransferWords(j)[k]) == TransferInstr(j.write, k)
  {
    hide Decode, TransferInstr;
    if k < 5 {
      TransferDecodes1(j.write, k);
    } else {
      TransferDecodes2(j.write, k);
    }
  }

  lemma TransferDecodes1(write: bool, k: nat)
    requires k < 5
    ensures Decode(READ_CODE[k]) == TransferInstr(write, k) && READ_CODE[k] == WRITE_CODE[k]
  {
    hide Decode;
    if k == 0 {
      Fields(0xe59f0020, 14, 0x59, 15, 0, 0x20);
    } else if k == 1 {
      Fields(0xe28f1024, 14, 0x28, 15, 1, 0x24);
    } else if k == 2 {
      Fields(0xe59f201c, 14, 0x59, 15, 2, 0x1c);
    } else if k == 3 {
      Fields(0xe35200f4, 14, 0x35, 2, 0, 0xf4);
    } else {
      Fields(0xc3a020f4, 12, 0x3a, 0, 2, 0xf4);
    }
  }

  lemma TransferDecodes2(write: bool, k: nat)
    requires 5 <= k < 10
    ensures Decode(if write then WRITE_CODE[k] else READ_CODE[k]) == TransferInstr(write, k)
  {
    hide Decode;
    if k == 5 {
      Fields(0xe2522001, 14, 0x25, 2, 2, 0x1);
    } else if k == 6 {
      Fields(0x412fff1e, 4, 0x12, 15, 15, 0xf1e);
    } else if k == 7 {
      Fields(0xe4903004, 14, 0x49, 0, 3, 0x4);
      Fields(0xe4913004, 14, 0x49, 1, 3, 0x4);
    } else if k == 8 {
      Fields(0xe4813004, 14, 0x48, 1, 3, 0x4);
      Fields(0xe4803004, 14, 0x48, 0, 3, 0x4);
    } else {
      BranchFields(0xeafffffa, 14, 0xfffffa);
    }
  }

  predicate TransferLoaded(m: seq<byte>, j: Transfer) {
    Loaded(m, j.base, TransferWords(j))
  }

  /** The block is in memory and the next instruction is its `k`-th. */
  predicate TransferAt(c: Cpu, j: Transfer, k: nat) {
    TransferLoaded(c.mem, j) && c.pc == j.base + 4 * k
  }

  lemma TransferOperand(m: seq<byte>, j: Transfer, k: nat)
    requires TransferLoaded(m, j) && 10 <= k < 12
    ensures j.base + 48 <= |m| <= TWO32
    ensures Load(m, j.base + 4 * k) == if k == 10 then j.addr else j.count
  {
    hide WordAt;
    var b := TransferWords(j);
    assert b[10] == j.addr && b[11] == j.count;
    assert WordAt(m, j.base + 4 * k) == b[k];
  }

  lemma TransferFetch(c: Cpu, j: Transfer, k: nat)
    requires TransferAt(c, j, k) && k < 10
    ensures Step(c) == Perform(TransferInstr(j.write, k), c) && j.base + 48 <= TWO32
  {
    hide Decode, Perform, TransferInstr, WordAt, TransferWords;
    TransferDecodes(j, k);
    Fetch(c, j.base, TransferWords(j), k, TransferInstr(j.write, k));
  }

  // what each instruction does

  lemma Transfer0(c: Cpu, j: Transfer)
    requires TransferAt(c, j, 0)
    ensures Step(c) == c.(r0 := j.addr, pc := j.base + 4)
  {
    hide Step, TransferLoaded, Load, Store;
    TransferOperand(c.mem, j, 10);
    TransferFetch(c, j, 0);
  }

  lemma Transfer1(c: Cpu, j: Transfer)
    requires TransferAt(c, j, 1)
    ensures Step(c) == c.(r1 := Cut32(j.base + 48), pc := j.base + 8)
  {
    hide Step, TransferLoaded, Load, Store;
    TransferFetch(c, j, 1);
  }

  lemma Transfer2(c: Cpu, j: Transfer)
    requires TransferAt(c, j, 2)
    ensures Step(c) == c.(r2 := j.count, pc := j.base + 12)
  {
    hide Step, TransferLoaded, Load, Store;
    TransferOperand(c.mem, j, 11);
    TransferFetch(c, j, 2);
  }

  lemma Transfer3(c: Cpu, j: Transfer)
    requires TransferAt(c, j, 3)
    ensures Step(c) == Flags(c.(pc := j.base + 16), c.r2, 244)
  {
    hide Step, TransferLoaded, Load, Store;
    TransferFetch(c, j, 3);
  }

  lemma Transfer4(c: Cpu, j: Transfer)
    requires TransferAt(c, j, 4)
    ensures Step(c) == c.(r2 := if !c.z && c.n == c.v then 244 else c.r2, pc := j.base + 20)
  {
    hide Step, TransferLoaded, Load, Store;
    TransferFetch(c, j, 4);
  }

  lemma Transfer5(c: Cpu, j: Transfer)
    requires TransferAt(c, j, 5)
    ensures Step(c) == Flags(c.(r2 := Minus(c.r2, 1), pc := j.base + 24), c.r2, 1)
  {
    hide Step, TransferLoaded, Load, Store;
    TransferFetch(c, j, 5);
  }

  lemma Transfer6(c: Cpu, j: Transfer)
    requires TransferAt(c, j, 6)
    ensures Step(c) == c.(pc := if c.n then c.lr else j.base + 28)
  {
    hide Step, TransferLoaded, Load, Store;
    TransferFetch(c, j, 6);
  }

  lemma Transfer7(c: Cpu, j: Transfer)
    requires TransferAt(c, j, 7)
    ensures Step(c) == c.(r3 := Load(c.mem, if j.write then c.r1 else c.r0),
                         r0 := if j.write then c.r0 else Plus(c.r0, 4), r1 := if j.write then Plus(c.r1, 4) else c.r1,
                         pc := j.base + 32)
  {
    hide Step, TransferLoaded, Load, Store;
    TransferFetch(c, j, 7);
  }

  lemma Transfer8(c: Cpu, j: Transfer)
    requires TransferAt(c, j, 8)
    ensures Step(c) == c.(mem := Store(c.mem, if j.write then c.r0 else c.r1, c.r3),
                         r0 := if j.write then Plus(c.r0, 4) else c.r0, r1 := if j.write then c.r1 else Plus(c.r1, 4),
                         pc := j.base + 36)
  {
    hide Step, TransferLoaded, Load, Store;
    TransferFetch(c, j, 8);
  }

  lemma Transfer9(c: Cpu, j: Transfer)
    requires TransferAt(c, j, 9)
    ensures Step(c) == c.(pc := j.base + 20)
  {
    hide Step, TransferLoaded, Load, Store, Jump;
    TransferFetch(c, j, 9);
    Jumps(j.base, 9, -6);
  }

  // ----- the program as a whole

  /** `k` of `n` words are moved and the next instruction is the `i`-th. */
  ghost predicate Moving(c0: Cpu, c: Cpu, j: Transfer, n: nat, k: nat, i: nat) {
    && k <= n && TransferAt(c, j, i) && Up(c0.mem, c.mem, To(j), From(j), 4 * k, 4 * n) && Apart(j.base, 48, To(j), 4 * n)
    && c.r0 == Cut32(j.addr + 4 * k) && c.r1 == Cut32(j.base + 48 + 4 * k) && c.lr == c0.lr && c.sp == c0.sp
  }

  lemma MovingOther(c0: Cpu, c: Cpu, d: Cpu, j: Transfer, n: nat, k: nat, i: nat, i': nat)
    requires Moving(c0, c, j, n, k, i)
    requires d == c.(r2 := d.r2, r3 := d.r3, n := d.n, z := d.z, v := d.v, pc := d.pc) && d.pc == j.base + 4 * i'
    ensures Moving(c0, d, j, n, k, i')
  {
    hide TransferLoaded, Up;
  }

  lemma MovingSame(c: Cpu, x: Cpu, j: Transfer, i: nat, i': nat)
    requires TransferAt(c, j, i) && x.mem == c.mem && x.pc == j.base + 4 * i'
    ensures TransferAt(x, j, i')
  {}

  lemma MovingBounds(c0: Cpu, c: Cpu, j: Transfer, n: nat, k: nat, i: nat)
    requires Moving(c0, c, j, n, k, i)
    ensures TransferAt(c, j, i) && c.lr == c0.lr && c.sp == c0.sp
    ensures |c.mem| == |c0.mem| <= TWO32 && j.addr + 4 * n <= |c.mem| && j.base + 48 + 4 * n <= |c.mem|
    ensures c.r0 == Cut32(j.addr + 4 * k) && c.r1 == Cut32(j.base + 48 + 4 * k)
  {
    hide TransferAt, Copied;
  }

  lemma MovingCopies(c0: Cpu, c: Cpu, d: Cpu, j: Transfer, n: nat, k: nat, i: nat, i': nat)
    requires Moving(c0, c, j, n, k, i) && k < n
    requires j.addr + 4 * n <= |c.mem| <= TWO32 && j.base + 48 + 4 * n <= |c.mem| && d.mem == Copied(c.mem, To(j) + 4 * k, From(j) + 4 * k, 4)
    requires d == c.(r0 := Cut32(j.addr + 4 * k + 4), r1 := Cut32(j.base + 48 + 4 * k + 4), r3 := d.r3, mem := d.mem, pc := d.pc)
    requires d.pc == j.base + 4 * i'
    ensures Moving(c0, d, j, n, k + 1, i')
  {
    hide Up, Put, TransferWords;
    var to, from := To(j), From(j);
    UpNext(c0.mem, c.mem, d.mem, to, from, 4 * k, 4, 4 * n);
    CodeIntact(c.mem, j.base, TransferWords(j), to + 4 * k, c.mem[from + 4 * k..from + 4 * k + 4]);
  }

  /** One round of the loop. */
  lemma MovingRound(c0: Cpu, c: Cpu, j: Transfer, n: nat, k: nat) returns (d: Cpu)
    requires Moving(c0, c, j, n, k, 7) && k < n
    ensures Runs(c, d) && Moving(c0, d, j, n, k + 1, 5) && d.r2 == c.r2
  {
    hide TransferAt, Up, Moving, Runs, Step, Copied, Load, Store;
    MovingBounds(c0, c, j, n, k, 7);
    Transfer7(c, j);
    var x := Step(c);
    MovingSame(c, x, j, 7, 8);
    Transfer8(x, j);
    var y := Step(x);
    WordCopied(c.mem, To(j) + 4 * k, From(j) + 4 * k);
    MovingCopies(c0, c, y, j, n, k, 7, 9);
    MovingBounds(c0, y, j, n, k + 1, 9);
    Transfer9(y, j);
    d := Step(y);
    MovingOther(c0, y, d, j, n, k + 1, 9, 5);
    RunsStep(c, c);
    RunsStep(c, x);
    RunsStep(c, y);
  }

  lemma {:induction false} MovingRuns(c0: Cpu, c: Cpu, j: Transfer, n: nat, k: nat) returns (d: Cpu)
    requires Moving(c0, c, j, n, k, 5) && c.r2 == n - k < 0x8000_0000
    ensures Runs(c, d) && Finished(c0, d, j, n)
    decreases n - k
  {
    hide TransferAt, Up, Moving, Runs, Step, Finished;
    MovingBounds(c0, c, j, n, k, 5);
    Transfer5(c, j);
    var x := Step(c);
    MovingOther(c0, c, x, j, n, k, 5, 6);
    MovingSame(c, x, j, 5, 6);
    Transfer6(x, j);
    var y := Step(x);
    RunsStep(c, c);
    RunsStep(c, x);
    if k == n {
      MovingEnds(c0, x, y, j, n, 6);
      d := y;
    } else {
      MovingOther(c0, x, y, j, n, k, 6, 7);
      var z := MovingRound(c0, y, j, n, k);
      RunsOn(c, y, z);
      d := MovingRuns(c0, z, j, n, k + 1);
      RunsOn(c, z, d);
    }
  }

  /** All words are moved and the caller goes on. */
  ghost predicate Finished(c0: Cpu, d: Cpu, j: Transfer, n: nat) {
    && d.pc == d.lr == c0.lr && d.sp == c0.sp
    && To(j) + 4 * n <= |c0.mem| && From(j) + 4 * n <= |c0.mem|
    && d.mem == Copied(c0.mem, To(j), From(j), 4 * n)
  }

  lemma MovingEnds(c0: Cpu, c: Cpu, d: Cpu, j: Transfer, n: nat, i: nat)
    requires Moving(c0, c, j, n, n, i) && d == c.(pc := c.lr)
    ensures Finished(c0, d, j, n)
  {
    hide TransferAt, Copied;
  }

  /** Operands loaded, count capped. */
  lemma MovingEntry(c: Cpu, j: Transfer, n: nat) returns (d: Cpu)
    requires TransferAt(c, j, 0) && Up(c.mem, c.mem, To(j), From(j), 0, 4 * n) && Apart(j.base, 48, To(j), 4 * n)
    requires j.count < 0x8000_0000 && n == Capped(j.count)
    ensures Runs(c, d) && d.r2 == n && Moving(c, d, j, n, 0, 5)
  {
    hide TransferLoaded, TransferAt, Up, Runs, Step, Load;
    Transfer0(c, j);
    var a := Step(c);
    MovingSame(c, a, j, 0, 1);
    Transfer1(a, j);
    var b := Step(a);
    MovingSame(a, b, j, 1, 2);
    Transfer2(b, j);
    var x := Step(b);
    MovingSame(b, x, j, 2, 3);
    Transfer3(x, j);
    var y := Step(x);
    MovingSame(x, y, j, 3, 4);
    Transfer4(y, j);
    d := Step(y);
    MovingSame(y, d, j, 4, 5);
    RunsStep(c, c);
    RunsStep(c, a);
    RunsStep(c, b);
    RunsStep(c, x);
    RunsStep(c, y);
  }

  /**
   A transfer block, run from its first word with any return address: it gets
   there with `Capped(count)` words moved, whatever count below 2^31 it states.
   */
  lemma TransferRuns(c: Cpu, j: Transfer) returns (d: Cpu)
    requires TransferAt(c, j, 0) && j.count < 0x8000_0000
    requires ScratchClear(|c.mem|, j.base, j.addr, Capped(j.count))
    ensures Runs(c, d) && Finished(c, d, j, Capped(j.count))
  {
    hide Moving, Runs, Finished, Up, TransferLoaded;
    var n := Capped(j.count);
    Start(c.mem, To(j), From(j), 4 * n);
    var x := MovingEntry(c, j, n);
    d := MovingRuns(c, x, j, n, 0);
    RunsOn(c, x, d);
  }

  // ----- from the upload on

  /** What was uploaded is loaded, whatever data follows it. */
  lemma UploadStarts(m: seq<byte>, a: nat, block: seq<u32>, data: seq<u32>)
    requires a + 4 * |block| + 4 * |data| <= |m| <= TWO32
    ensures Loaded(Put(m, a, LeWords(block + data)), a, block)
  {
    hide Put, LeWords, WordAt;
    var r := Put(m, a, LeWords(block + data));
    UploadLoads(m, a, block + data);
    forall k | 0 <= k < |block| ensures WordAt(r, a + 4 * k) == block[k] {
      assert (block + data)[k] == block[k];
    }
  }

  /** Reading: the words behind the code become those of the range. */
  lemma UploadedReadRuns(c: Cpu, m: seq<byte>, j: Transfer)
    requires !j.write && Called(c, m, j.base, TransferWords(j)) && j.count < 0x8000_0000
    requires ScratchClear(|m|, j.base, j.addr, Capped(j.count))
    ensures exists d :: Runs(c, d) && d.pc == c.lr && d.sp == c.sp && |d.mem| == |m|
                     && WordsAt(d.mem, j.base + 48, Capped(j.count)) == WordsAt(m, j.addr, Capped(j.count))
  {
    hide Put, LeWords, Runs, Copied, Loaded, WordsAt, TransferWords;
    var n := Capped(j.count);
    UploadLoads(m, j.base, TransferWords(j));
    var d := TransferRuns(c, j);
    ReadWords(m, j.base, TransferWords(j), j.addr, n);
  }

  lemma ReadWords(m: seq<byte>, base: nat, block: seq<u32>, addr: nat, n: nat)
    requires |block| == 12 && n <= MAX_WORDS && ScratchClear(|m|, base, addr, n)
    ensures WordsAt(Copied(Put(m, base, LeWords(block)), base + 48, addr, 4 * n), base + 48, n) == WordsAt(m, addr, n)
  {
    hide Put, LeWords, Copied, WordsAt;
    PutLeaves(m, base, LeWords(block));
    ReadRight(m, Put(m, base, LeWords(block)), base + 48, addr, n);
  }

  /** Writing: the words of the range become those behind the code. */
  lemma UploadedWriteRuns(c: Cpu, m: seq<byte>, j: Transfer, data: seq<u32>)
    requires j.write && Called(c, m, j.base, TransferWords(j) + data) && j.count < 0x8000_0000
    requires |data| == Capped(j.count) && ScratchClear(|m|, j.base, j.addr, |data|)
    ensures exists d :: Runs(c, d) && d.pc == c.lr && d.sp == c.sp && |d.mem| == |m|
                     && WordsAt(d.mem, j.addr, |data|) == data
  {
    hide Put, LeWords, Runs, Copied, Loaded, WordsAt, TransferWords;
    UploadStarts(m, j.base, TransferWords(j), data);
    var d := TransferRuns(c, j);
    WrittenWords(m, j.base, TransferWords(j), j.addr, data);
  }

  lemma WrittenWords(m: seq<byte>, base: nat, block: seq<u32>, addr: nat, data: seq<u32>)
    requires |block| == 12 && |data| <= MAX_WORDS && ScratchClear(|m|, base, addr, |data|)
    ensures WordsAt(Copied(Put(m, base, LeWords(block + data)), addr, base + 48, 4 * |data|), addr, |data|) == data
  {
    hide Put, LeWords, Copied, WordsAt;
    var r := Put(m, base, LeWords(block + data));
    UploadedData(m, base, block, data);
    WriteRight(r, base + 48, addr, 4 * |data|);
    WordsOfUpload(Copied(r, addr, base + 48, 4 * |data|), addr, data);
  }
}
