/**
 The words of the two copy thunks are ARM programs, and running them has the
 effect the copy machines were proved to have.
 */
module MemcpyCode {
  import opened BitVectors
  import opened Memory
  import opened Memmove
  import opened Arm

  // ----- single transfers as copies

  lemma LeOfWord(m: seq<byte>, a: nat)
    requires a + 4 <= |m|
    ensures Le(WordAt(m, a)) == m[a..a + 4]
  {
    var b0: nat, b1: nat, b2: nat, b3: nat := m[a], m[a + 1], m[a + 2], m[a + 3];
    WordParts(b0, b1, b2, b3);
  }

  lemma WordParts(b0: nat, b1: nat, b2: nat, b3: nat)
    requires b0 < 0x100 && b1 < 0x100 && b2 < 0x100 && b3 < 0x100
    ensures var w := b0 + 0x100 * b1 + 0x1_0000 * b2 + 0x100_0000 * b3;
      w % 0x100 == b0 && w / 0x100 % 0x100 == b1 && w / 0x1_0000 % 0x100 == b2 && w / 0x100_0000 == b3
  {
    var w2 := b2 + 0x100 * b3;
    var w1 := b1 + 0x100 * w2;
    var w := b0 + 0x100 * w1;
    LowByteOf(b0, w1);
    LowByteOf(b1, w2);
    LowByteOf(b2, b3);
    assert w / 0x1_0000 == w / 0x100 / 0x100 && w / 0x100_0000 == w / 0x100 / 0x100 / 0x100;
  }

  lemma LowByteOf(b: nat, x: nat)
    requires b < 0x100
    ensures (b + 0x100 * x) % 0x100 == b && (b + 0x100 * x) / 0x100 == x
  {}

  lemma WordCopied(m: seq<byte>, a: nat, b: nat)
    requires a + 4 <= |m| && b + 4 <= |m|
    ensures Store(m, a, Load(m, b)) == Copied(m, a, b, 4)
  {
    hide Le, WordAt;
    LeOfWord(m, b);
  }

  lemma ByteCopied(m: seq<byte>, a: nat, b: nat)
    requires a < |m| && b < |m|
    ensures StoreByte(m, a, LoadByte(m, b)) == Copied(m, a, b, 1)
  {}

  /** Copying outside the block leaves the block alone. */
  lemma CodeIntact(m: seq<byte>, base: nat, block: seq<u32>, dst: nat, bs: seq<byte>)
    requires Loaded(m, base, block) && dst + |bs| <= |m| && Apart(base, 4 * |block|, dst, |bs|)
    ensures Loaded(Put(m, dst, bs), base, block)
  {
    hide Put, WordAt;
    var r, n := Put(m, dst, bs), 4 * |block|;
    PutOutside(m, dst, bs, base, n);
    forall k | 0 <= k < |block| ensures WordAt(r, base + 4 * k) == block[k] {
      SameWord(r, base, m, base, n, 4 * k);
    }
  }

  /** A copy to be done by the block at `base`. */
  datatype Job = Job(base: nat, dst: u32, src: u32, size: u32)

  // ----- the upward program

  /** The program behind `UP_CODE`. */
  function UpInstr(k: nat): Instr {
    match k
    case 0 => Instr(Al, Ldr(0, 15, 84))
    case 1 => Instr(Al, Ldr(1, 15, 84))
    case 2 => Instr(Al, Ldr(2, 15, 84))
    case 3 => Instr(Al, SubR(3, 1, 0))
    case 4 => Instr(Al, TstI(3, 3))
    case 5 => Instr(Ne, Branch(11))
    // copyup_head
    case 6 => Instr(Al, TstI(1, 3))
    case 7 => Instr(Eq, Branch(4))
    case 8 => Instr(Al, LdrbPost(3, 1, 1))
    case 9 => Instr(Al, StrbPost(3, 0, 1))
    case 10 => Instr(Al, SubsI(2, 2, 1))
    case 11 => Instr(Pl, Branch(-7))
    case 12 => Instr(Al, Bx(14))
    // copyup_loop
    case 13 => Instr(Al, SubsI(2, 2, 4))
    case 14 => Instr(Pl, LdrPost(3, 1, 4))
    case 15 => Instr(Pl, StrPost(3, 0, 4))
    case 16 => Instr(Pl, Branch(-5))
    case 17 => Instr(Al, AddI(2, 2, 4))
    // copyup_tail
    case 18 => Instr(Al, SubsI(2, 2, 1))
    case 19 => Instr(Mi, Bx(14))
    case 20 => Instr(Al, LdrbPost(3, 1, 1))
    case 21 => Instr(Al, StrbPost(3, 0, 1))
    case _ => Instr(Al, Branch(-6))
  }

  /** The uploaded words are that program. */
  lemma UpDecodes(k: nat)
    requires k < 23
    ensures |UP_CODE| == 23 && Decode(UP_CODE[k]) == UpInstr(k)
  {
    hide Decode, UpInstr;
    if k < 5 {
      UpDecodes1(k);
    } else if k < 10 {
      UpDecodes2(k);
    } else if k < 15 {
      UpDecodes3(k);
    } else if k < 20 {
      UpDecodes4(k);
    } else {
      UpDecodes5(k);
    }
  }

  lemma UpDecodes1(k: nat)
    requires 0 <= k < 5
    ensures Decode(UP_CODE[k]) == UpInstr(k)
  {
    hide Decode;
    if k == 0 {
      Fields(0xe59f0054, 14, 0x59, 15, 0, 0x54);
    } else if k == 1 {
      Fields(0xe59f1054, 14, 0x59, 15, 1, 0x54);
    } else if k == 2 {
      Fields(0xe59f2054, 14, 0x59, 15, 2, 0x54);
    } else if k == 3 {
      Fields(0xe0413000, 14, 0x4, 1, 3, 0x0);
    } else {
      Fields(0xe3130003, 14, 0x31, 3, 0, 0x3);
    }
  }

  lemma UpDecodes2(k: nat)
    requires 5 <= k < 10
    ensures Decode(UP_CODE[k]) == UpInstr(k)
  {
    hide Decode;
    if k == 5 {
      BranchFields(0x1a00000b, 1, 0xb);
    } else if k == 6 {
      Fields(0xe3110003, 14, 0x31, 1, 0, 0x3);
    } else if k == 7 {
      BranchFields(0xa000004, 0, 0x4);
    } else if k == 8 {
      Fields(0xe4d13001, 14, 0x4d, 1, 3, 0x1);
    } else {
      Fields(0xe4c03001, 14, 0x4c, 0, 3, 0x1);
    }
  }

  lemma UpDecodes3(k: nat)
    requires 10 <= k < 15
    ensures Decode(UP_CODE[k]) == UpInstr(k)
  {
    hide Decode;
    if k == 10 {
      Fields(0xe2522001, 14, 0x25, 2, 2, 0x1);
    } else if k == 11 {
      BranchFields(0x5afffff9, 5, 0xfffff9);
    } else if k == 12 {
      Fields(0xe12fff1e, 14, 0x12, 15, 15, 0xf1e);
    } else if k == 13 {
      Fields(0xe2522004, 14, 0x25, 2, 2, 0x4);
    } else {
      Fields(0x54913004, 5, 0x49, 1, 3, 0x4);
    }
  }

  lemma UpDecodes4(k: nat)
    requires 15 <= k < 20
    ensures Decode(UP_CODE[k]) == UpInstr(k)
  {
    hide Decode;
    if k == 15 {
      Fields(0x54803004, 5, 0x48, 0, 3, 0x4);
    } else if k == 16 {
      BranchFields(0x5afffffb, 5, 0xfffffb);
    } else if k == 17 {
      Fields(0xe2822004, 14, 0x28, 2, 2, 0x4);
    } else if k == 18 {
      Fields(0xe2522001, 14, 0x25, 2, 2, 0x1);
    } else {
      Fields(0x412fff1e, 4, 0x12, 15, 15, 0xf1e);
    }
  }

  lemma UpDecodes5(k: nat)
    requires 20 <= k < 23
    ensures Decode(UP_CODE[k]) == UpInstr(k)
  {
    hide Decode;
    if k == 20 {
      Fields(0xe4d13001, 14, 0x4d, 1, 3, 0x1);
    } else if k == 21 {
      Fields(0xe4c03001, 14, 0x4c, 0, 3, 0x1);
    } else {
      BranchFields(0xeafffffa, 14, 0xfffffa);
    }
  }

  /** The block is in memory and the next instruction is its `k`-th. */
  predicate UpAt(c: Cpu, j: Job, k: nat) {
    UpLoaded(c.mem, j) && c.pc == j.base + 4 * k
  }

  predicate UpLoaded(m: seq<byte>, j: Job) {
    Loaded(m, j.base, Block(UP_CODE, j.dst, j.src, j.size))
  }

  lemma UpOperand(m: seq<byte>, j: Job, k: nat)
    requires UpLoaded(m, j) && 23 <= k < 26
    ensures j.base + 104 <= |m| <= TWO32
    ensures Load(m, j.base + 4 * k) == if k == 23 then j.dst else if k == 24 then j.src else j.size
  {
    hide WordAt;
    var b := Block(UP_CODE, j.dst, j.src, j.size);
    assert |b| == 26 && b[23] == j.dst && b[24] == j.src && b[25] == j.size;
    assert WordAt(m, j.base + 4 * k) == b[k];
  }

  lemma UpFetch(c: Cpu, j: Job, k: nat)
    requires UpAt(c, j, k) && k < 23
    ensures Step(c) == Perform(UpInstr(k), c) && j.base + 104 <= TWO32
  {
    hide Decode, Perform, UpInstr, WordAt;
    UpDecodes(k);
    assert |Block(UP_CODE, j.dst, j.src, j.size)| == 26;
    Fetch(c, j.base, Block(UP_CODE, j.dst, j.src, j.size), k, UpInstr(k));
  }

  // what each instruction does

  lemma Up0(c: Cpu, j: Job)
    requires UpAt(c, j, 0)
    ensures Step(c) == c.(r0 := j.dst, pc := j.base + 4)
  {
    hide Step, UpLoaded, Load, LoadByte, Store, StoreByte;
    UpOperand(c.mem, j, 23);
    UpFetch(c, j, 0);
  }

  lemma Up1(c: Cpu, j: Job)
    requires UpAt(c, j, 1)
    ensures Step(c) == c.(r1 := j.src, pc := j.base + 8)
  {
    hide Step, UpLoaded, Load, LoadByte, Store, StoreByte;
    UpOperand(c.mem, j, 24);
    UpFetch(c, j, 1);
  }

  lemma Up2(c: Cpu, j: Job)
    requires UpAt(c, j, 2)
    ensures Step(c) == c.(r2 := j.size, pc := j.base + 12)
  {
    hide Step, UpLoaded, Load, LoadByte, Store, StoreByte;
    UpOperand(c.mem, j, 25);
    UpFetch(c, j, 2);
  }

  lemma Up3(c: Cpu, j: Job)
    requires UpAt(c, j, 3)
    ensures Step(c) == c.(r3 := Minus(c.r1, c.r0), pc := j.base + 16)
  {
    hide Step, UpLoaded, Load, LoadByte, Store, StoreByte;
    UpFetch(c, j, 3);
  }

  lemma Up4(c: Cpu, j: Job)
    requires UpAt(c, j, 4)
    ensures Step(c) == c.(n := false, z := c.r3 % 4 == 0, pc := j.base + 20)
  {
    hide Step, UpLoaded, Load, LoadByte, Store, StoreByte;
    UpFetch(c, j, 4);
  }

  lemma Up5(c: Cpu, j: Job)
    requires UpAt(c, j, 5)
    ensures Step(c) == c.(pc := if c.z then j.base + 24 else j.base + 72)
  {
    hide Step, UpLoaded, Load, LoadByte, Store, StoreByte, Jump;
    UpFetch(c, j, 5);
    Jumps(j.base, 5, 11);
  }

  lemma Up6(c: Cpu, j: Job)
    requires UpAt(c, j, 6)
    ensures Step(c) == c.(n := false, z := c.r1 % 4 == 0, pc := j.base + 28)
  {
    hide Step, UpLoaded, Load, LoadByte, Store, StoreByte;
    UpFetch(c, j, 6);
  }

  lemma Up7(c: Cpu, j: Job)
    requires UpAt(c, j, 7)
    ensures Step(c) == c.(pc := if c.z then j.base + 52 else j.base + 32)
  {
    hide Step, UpLoaded, Load, LoadByte, Store, StoreByte, Jump;
    UpFetch(c, j, 7);
    Jumps(j.base, 7, 4);
  }

  lemma Up8(c: Cpu, j: Job)
    requires UpAt(c, j, 8)
    ensures Step(c) == c.(r3 := LoadByte(c.mem, c.r1), r1 := Plus(c.r1, 1), pc := j.base + 36)
  {
    hide Step, UpLoaded, Load, LoadByte, Store, StoreByte;
    UpFetch(c, j, 8);
  }

  lemma Up9(c: Cpu, j: Job)
    requires UpAt(c, j, 9)
    ensures Step(c) == c.(mem := StoreByte(c.mem, c.r0, c.r3), r0 := Plus(c.r0, 1), pc := j.base + 40)
  {
    hide Step, UpLoaded, Load, LoadByte, Store, StoreByte;
    UpFetch(c, j, 9);
  }

  lemma Up10(c: Cpu, j: Job)
    requires UpAt(c, j, 10)
    ensures Step(c) == Flags(c.(r2 := Minus(c.r2, 1), pc := j.base + 44), c.r2, 1)
  {
    hide Step, UpLoaded, Load, LoadByte, Store, StoreByte;
    UpFetch(c, j, 10);
  }

  lemma Up11(c: Cpu, j: Job)
    requires UpAt(c, j, 11)
    ensures Step(c) == c.(pc := if c.n then j.base + 48 else j.base + 24)
  {
    hide Step, UpLoaded, Load, LoadByte, Store, StoreByte, Jump;
    UpFetch(c, j, 11);
    Jumps(j.base, 11, -7);
  }

  lemma Up12(c: Cpu, j: Job)
    requires UpAt(c, j, 12)
    ensures Step(c) == c.(pc := c.lr)
  {
    hide Step, UpLoaded, Load, LoadByte, Store, StoreByte;
    UpFetch(c, j, 12);
  }

  lemma Up13(c: Cpu, j: Job)
    requires UpAt(c, j, 13)
    ensures Step(c) == Flags(c.(r2 := Minus(c.r2, 4), pc := j.base + 56), c.r2, 4)
  {
    hide Step, UpLoaded, Load, LoadByte, Store, StoreByte;
    UpFetch(c, j, 13);
  }

  lemma Up14(c: Cpu, j: Job)
    requires UpAt(c, j, 14)
    ensures Step(c) == c.(r3 := if c.n then c.r3 else Load(c.mem, c.r1), r1 := if c.n then c.r1 else Plus(c.r1, 4), pc := j.base + 60)
  {
    hide Step, UpLoaded, Load, LoadByte, Store, StoreByte;
    UpFetch(c, j, 14);
  }

  lemma Up15(c: Cpu, j: Job)
    requires UpAt(c, j, 15)
    ensures Step(c) == c.(mem := if c.n then c.mem else Store(c.mem, c.r0, c.r3), r0 := if c.n then c.r0 else Plus(c.r0, 4), pc := j.base + 64)
  {
    hide Step, UpLoaded, Load, LoadByte, Store, StoreByte;
    UpFetch(c, j, 15);
  }

  lemma Up16(c: Cpu, j: Job)
    requires UpAt(c, j, 16)
    ensures Step(c) == c.(pc := if c.n then j.base + 68 else j.base + 52)
  {
    hide Step, UpLoaded, Load, LoadByte, Store, StoreByte, Jump;
    UpFetch(c, j, 16);
    Jumps(j.base, 16, -5);
  }

  lemma Up17(c: Cpu, j: Job)
    requires UpAt(c, j, 17)
    ensures Step(c) == c.(r2 := Plus(c.r2, 4), pc := j.base + 72)
  {
    hide Step, UpLoaded, Load, LoadByte, Store, StoreByte;
    UpFetch(c, j, 17);
  }

  lemma Up18(c: Cpu, j: Job)
    requires UpAt(c, j, 18)
    ensures Step(c) == Flags(c.(r2 := Minus(c.r2, 1), pc := j.base + 76), c.r2, 1)
  {
    hide Step, UpLoaded, Load, LoadByte, Store, StoreByte;
    UpFetch(c, j, 18);
  }

  lemma Up19(c: Cpu, j: Job)
    requires UpAt(c, j, 19)
    ensures Step(c) == c.(pc := if c.n then c.lr else j.base + 80)
  {
    hide Step, UpLoaded, Load, LoadByte, Store, StoreByte;
    UpFetch(c, j, 19);
  }

  lemma Up20(c: Cpu, j: Job)
    requires UpAt(c, j, 20)
    ensures Step(c) == c.(r3 := LoadByte(c.mem, c.r1), r1 := Plus(c.r1, 1), pc := j.base + 84)
  {
    hide Step, UpLoaded, Load, LoadByte, Store, StoreByte;
    UpFetch(c, j, 20);
  }

  lemma Up21(c: Cpu, j: Job)
    requires UpAt(c, j, 21)
    ensures Step(c) == c.(mem := StoreByte(c.mem, c.r0, c.r3), r0 := Plus(c.r0, 1), pc := j.base + 88)
  {
    hide Step, UpLoaded, Load, LoadByte, Store, StoreByte;
    UpFetch(c, j, 21);
  }

  lemma Up22(c: Cpu, j: Job)
    requires UpAt(c, j, 22)
    ensures Step(c) == c.(pc := j.base + 72)
  {
    hide Step, UpLoaded, Load, LoadByte, Store, StoreByte, Jump;
    UpFetch(c, j, 22);
    Jumps(j.base, 22, -6);
  }

  // ----- the upward program as a whole

  /** `k` of `n` bytes are copied and the next instruction is the `i`-th. */
  ghost predicate Upward(c0: Cpu, c: Cpu, j: Job, n: nat, k: nat, i: nat) {
    && UpAt(c, j, i) && Up(c0.mem, c.mem, j.dst, j.src, k, n) && Apart(j.base, 104, j.dst, n)
    && c.r0 == Cut32(j.dst + k) && c.r1 == Cut32(j.src + k) && c.lr == c0.lr && c.sp == c0.sp
  }

  /** The copy is done and the caller goes on. */
  ghost predicate Returned(c0: Cpu, d: Cpu, j: Job, n: nat) {
    && d.pc == d.lr == c0.lr && d.sp == c0.sp
    && j.dst + n <= |c0.mem| && j.src + n <= |c0.mem|
    && d.mem == Copied(c0.mem, j.dst, j.src, n)
  }

  /** An instruction that only changes the count, the scratch register or the flags. */
  lemma UpOther(c0: Cpu, c: Cpu, d: Cpu, j: Job, n: nat, k: nat, i: nat, i': nat)
    requires Upward(c0, c, j, n, k, i) && d == c.(r2 := d.r2, r3 := d.r3, n := d.n, z := d.z, v := d.v, pc := d.pc) && d.pc == j.base + 4 * i'
    ensures Upward(c0, d, j, n, k, i')
  {
    hide UpLoaded, Up;
  }

  /** Copied bytes leave the program in place. */
  lemma UpCopies(c0: Cpu, c: Cpu, d: Cpu, j: Job, n: nat, k: nat, w: nat, i: nat, i': nat)
    requires Upward(c0, c, j, n, k, i) && k + w <= n
    requires j.dst + k + w <= |c.mem| && j.src + k + w <= |c.mem| && d.mem == Copied(c.mem, j.dst + k, j.src + k, w)
    requires d == c.(r0 := Cut32(j.dst + k + w), r1 := Cut32(j.src + k + w), r2 := d.r2, r3 := d.r3, mem := d.mem, pc := d.pc)
    requires d.pc == j.base + 4 * i'
    ensures Upward(c0, d, j, n, k + w, i')
  {
    hide Up, Put;
    UpNext(c0.mem, c.mem, d.mem, j.dst, j.src, k, w, n);
    CodeIntact(c.mem, j.base, Block(UP_CODE, j.dst, j.src, j.size), j.dst + k, c.mem[j.src + k..j.src + k + w]);
  }

  lemma UpBounds(c0: Cpu, c: Cpu, j: Job, n: nat, k: nat, i: nat)
    requires Upward(c0, c, j, n, k, i)
    ensures |c.mem| == |c0.mem| <= TWO32 && j.dst + n <= |c.mem| && j.src + n <= |c.mem| && k <= n
    ensures k < n ==> c.r0 == j.dst + k && c.r1 == j.src + k
  {
    hide UpLoaded, Copied;
  }

  /** The pair `ldrb`, `strb`. */
  lemma UpByte(c0: Cpu, c: Cpu, j: Job, n: nat, k: nat, i: nat) returns (d: Cpu)
    requires Upward(c0, c, j, n, k, i) && k < n && (i == 8 || i == 20)
    ensures Runs(c, d) && Upward(c0, d, j, n, k + 1, i + 2) && d.r2 == c.r2
  {
    hide UpAt, Up, Upward, Runs, Step, Copied, Load, LoadByte, Store, StoreByte;
    UpBounds(c0, c, j, n, k, i);
    UpPlace(c0, c, j, n, k, i);
    if i == 8 { Up8(c, j); } else { Up20(c, j); }
    var x := Step(c);
    UpSame(c, x, j, i, i + 1);
    if i == 8 { Up9(x, j); } else { Up21(x, j); }
    d := Step(x);
    ByteCopied(c.mem, j.dst + k, j.src + k);
    RunsStep(c, c);
    RunsStep(c, x);
    UpCopies(c0, c, d, j, n, k, 1, i, i + 2);
  }

  /** With memory unchanged the program is still there. */
  lemma UpSame(c: Cpu, x: Cpu, j: Job, i: nat, i': nat)
    requires UpAt(c, j, i) && x.mem == c.mem && x.pc == j.base + 4 * i'
    ensures UpAt(x, j, i')
  {}

  lemma UpPlace(c0: Cpu, c: Cpu, j: Job, n: nat, k: nat, i: nat)
    requires Upward(c0, c, j, n, k, i)
    ensures UpAt(c, j, i) && c.lr == c0.lr && c.sp == c0.sp && c.r0 == Cut32(j.dst + k) && c.r1 == Cut32(j.src + k)
  {
    hide UpAt;
  }

  lemma UpEnds(c0: Cpu, c: Cpu, d: Cpu, j: Job, n: nat, i: nat)
    requires Upward(c0, c, j, n, n, i) && d == c.(pc := c.lr)
    ensures Returned(c0, d, j, n)
  {
    hide UpAt, Copied;
  }

  lemma {:induction false} UpTailRuns(c0: Cpu, c: Cpu, j: Job, n: nat, k: nat) returns (d: Cpu)
    requires Upward(c0, c, j, n, k, 18) && n < 0x8000_0000 && c.r2 == n - k
    ensures Runs(c, d) && Returned(c0, d, j, n)
    decreases n - k
  {
    hide UpAt, Up, Upward, Runs, Step, Returned;
    UpPlace(c0, c, j, n, k, 18);
    Up18(c, j);
    var x := Step(c);
    UpOther(c0, c, x, j, n, k, 18, 19);
    RunsStep(c, c);
    RunsStep(c, x);
    UpSame(c, x, j, 18, 19);
    Up19(x, j);
    var y := Step(x);
    if k == n {
      UpEnds(c0, x, y, j, n, 19);
      d := y;
    } else {
      UpOther(c0, x, y, j, n, k, 19, 20);
      var z := UpByte(c0, y, j, n, k, 20);
      UpPlace(c0, z, j, n, k + 1, 22);
      Up22(z, j);
      var w := Step(z);
      UpOther(c0, z, w, j, n, k + 1, 22, 18);
      RunsOn(c, y, z);
      RunsStep(c, z);
      d := UpTailRuns(c0, w, j, n, k + 1);
      RunsOn(c, w, d);
    }
  }

  /** One round of `copyup_loop`; without four bytes left it falls into the tail. */
  lemma UpWord(c0: Cpu, c: Cpu, j: Job, n: nat, k: nat) returns (d: Cpu)
    requires Upward(c0, c, j, n, k, 13) && n < 0x8000_0000 && c.r2 == n - k >= 4
    ensures Runs(c, d) && Upward(c0, d, j, n, k + 4, 13) && d.r2 == c.r2 - 4
  {
    hide UpAt, Up, Upward, Runs, Step, Copied, Load, LoadByte, Store, StoreByte;
    UpBounds(c0, c, j, n, k, 13);
    UpPlace(c0, c, j, n, k, 13);
    Up13(c, j);
    var x := Step(c);
    UpOther(c0, c, x, j, n, k, 13, 14);
    UpSame(c, x, j, 13, 14);
    Up14(x, j);
    var y := Step(x);
    UpSame(x, y, j, 14, 15);
    Up15(y, j);
    var z := Step(y);
    WordCopied(c.mem, j.dst + k, j.src + k);
    UpCopies(c0, x, z, j, n, k, 4, 14, 16);
    UpPlace(c0, z, j, n, k + 4, 16);
    Up16(z, j);
    d := Step(z);
    UpOther(c0, z, d, j, n, k + 4, 16, 13);
    RunsStep(c, c);
    RunsStep(c, x);
    RunsStep(c, y);
    RunsStep(c, z);
  }

  lemma UpLeaves(c0: Cpu, c: Cpu, j: Job, n: nat, k: nat) returns (d: Cpu)
    requires Upward(c0, c, j, n, k, 13) && n < 0x8000_0000 && c.r2 == n - k < 4
    ensures Runs(c, d) && Upward(c0, d, j, n, k, 18) && d.r2 == c.r2
  {
    hide UpAt, Up, Upward, Runs, Step, Copied, Load, LoadByte, Store, StoreByte;
    UpPlace(c0, c, j, n, k, 13);
    Up13(c, j);
    var x := Step(c);
    UpSame(c, x, j, 13, 14);
    Up14(x, j);
    var y := Step(x);
    UpSame(x, y, j, 14, 15);
    Up15(y, j);
    var z := Step(y);
    UpSame(y, z, j, 15, 16);
    Up16(z, j);
    var w := Step(z);
    UpSame(z, w, j, 16, 17);
    Up17(w, j);
    d := Step(w);
    UpOther(c0, c, d, j, n, k, 13, 18);
    RunsStep(c, c);
    RunsStep(c, x);
    RunsStep(c, y);
    RunsStep(c, z);
    RunsStep(c, w);
  }

  lemma {:induction false} UpWordsRun(c0: Cpu, c: Cpu, j: Job, n: nat, k: nat) returns (d: Cpu)
    requires Upward(c0, c, j, n, k, 13) && n < 0x8000_0000 && c.r2 == n - k
    ensures Runs(c, d) && Returned(c0, d, j, n)
    decreases n - k
  {
    hide Upward, Runs, Returned;
    if n - k < 4 {
      var x := UpLeaves(c0, c, j, n, k);
      d := UpTailRuns(c0, x, j, n, k);
      RunsOn(c, x, d);
    } else {
      var x := UpWord(c0, c, j, n, k);
      d := UpWordsRun(c0, x, j, n, k + 4);
      RunsOn(c, x, d);
    }
  }

  /** The test at `copyup_head`. */
  lemma UpHeadTest(c0: Cpu, c: Cpu, j: Job, n: nat, k: nat) returns (d: Cpu)
    requires Upward(c0, c, j, n, k, 6)
    ensures Runs(c, d) && d.r2 == c.r2 && Upward(c0, d, j, n, k, if (j.src + k) % 4 == 0 then 13 else 8)
  {
    hide UpAt, Up, Upward, Runs, Step;
    UpBounds(c0, c, j, n, k, 6);
    UpPlace(c0, c, j, n, k, 6);
    Up6(c, j);
    var x := Step(c);
    UpSame(c, x, j, 6, 7);
    Up7(x, j);
    d := Step(x);
    assert c.r1 % 4 == (j.src + k) % 4;
    UpOther(c0, c, d, j, n, k, 6, if (j.src + k) % 4 == 0 then 13 else 8);
    RunsStep(c, c);
    RunsStep(c, x);
  }

  /** The count goes down after the byte was copied: below zero the program returns. */
  lemma UpHeadCount(c0: Cpu, c: Cpu, j: Job, n: nat, k: nat) returns (d: Cpu)
    requires Upward(c0, c, j, n, k, 10) && c.r2 < 0x8000_0000 && (c.r2 == 0 ==> k == n)
    ensures Runs(c, d)
    ensures c.r2 > 0 ==> Upward(c0, d, j, n, k, 6) && d.r2 == c.r2 - 1
    ensures c.r2 == 0 ==> Returned(c0, d, j, n)
  {
    hide UpAt, Up, Upward, Runs, Step, Returned;
    UpPlace(c0, c, j, n, k, 10);
    Up10(c, j);
    var x := Step(c);
    UpSame(c, x, j, 10, 11);
    Up11(x, j);
    var y := Step(x);
    RunsStep(c, c);
    RunsStep(c, x);
    RunsStep(c, y);
    if c.r2 > 0 {
      d := y;
      UpOther(c0, c, d, j, n, k, 10, 6);
    } else {
      UpOther(c0, c, y, j, n, k, 10, 12);
      UpSame(x, y, j, 11, 12);
      Up12(y, j);
      d := Step(y);
      UpEnds(c0, y, d, j, n, 12);
    }
  }

  lemma {:induction false} UpHeadRuns(c0: Cpu, c: Cpu, j: Job, k: nat) returns (d: Cpu)
    requires 0 < j.size < 0x8000_0000 && j.dst % 4 == j.src % 4 && k <= j.size && c.r2 == j.size - k
    requires Upward(c0, c, j, UpCount(j.dst, j.src, j.size), k, 6)
    requires j.src % 4 + k <= 4 && (j.src % 4 == 0 ==> k == 0)
    ensures Runs(c, d) && Returned(c0, d, j, UpCount(j.dst, j.src, j.size))
    decreases j.size - k
  {
    hide Upward, Runs, Returned, UpCount;
    var n := UpCount(j.dst, j.src, j.size);
    var x := UpHeadTest(c0, c, j, n, k);
    if (j.src + k) % 4 == 0 {
      HeadDone(j.dst, j.src, j.size, j.size - k);
      d := UpWordsRun(c0, x, j, n, k);
      RunsOn(c, x, d);
    } else {
      HeadRoom(j.dst, j.src, j.size, j.size - k);
      HeadLast(j.dst, j.src, j.size);
      var y := UpByte(c0, x, j, n, k, 8);
      var z := UpHeadCount(c0, y, j, n, k + 1);
      RunsOn(c, x, y);
      RunsOn(c, y, z);
      if k == j.size {
        d := z;
      } else {
        d := UpHeadRuns(c0, z, j, k + 1);
        RunsOn(c, z, d);
      }
    }
  }

  lemma HeadLast(dst: nat, src: nat, size: nat)
    ensures Overrun(dst, src, size) ==> UpCount(dst, src, size) == size + 1
  {}

  /** The operands are loaded and the alignment is compared. */
  lemma UpEntry(c: Cpu, j: Job, n: nat) returns (d: Cpu)
    requires UpAt(c, j, 0) && Up(c.mem, c.mem, j.dst, j.src, 0, n) && Apart(j.base, 104, j.dst, n)
    ensures Runs(c, d) && d.r2 == j.size && Upward(c, d, j, n, 0, if j.dst % 4 == j.src % 4 then 6 else 18)
  {
    hide UpLoaded, UpAt, Up, Runs, Step, Load;
    Up0(c, j);
    var a := Step(c);
    UpSame(c, a, j, 0, 1);
    Up1(a, j);
    var b := Step(a);
    UpSame(a, b, j, 1, 2);
    Up2(b, j);
    var x := Step(b);
    UpSame(b, x, j, 2, 3);
    Up3(x, j);
    var y := Step(x);
    UpSame(x, y, j, 3, 4);
    Up4(y, j);
    var z := Step(y);
    UpSame(y, z, j, 4, 5);
    Up5(z, j);
    d := Step(z);
    AlignedDifference(j.src, j.dst);
    UpSame(z, d, j, 5, if j.dst % 4 == j.src % 4 then 6 else 18);
    RunsStep(c, c);
    RunsStep(c, a);
    RunsStep(c, b);
    RunsStep(c, x);
    RunsStep(c, y);
    RunsStep(c, z);
  }

  lemma AlignedDifference(a: u32, b: u32)
    ensures Minus(a, b) % 4 == 0 <==> a % 4 == b % 4
  {}

  /**
   The upward block, run from its first word with any return address: it gets
   there with the bytes copied that the upward copy machine copies.
   */
  lemma UpRuns(c: Cpu, j: Job) returns (d: Cpu)
    requires UpAt(c, j, 0) && 0 < j.size < 0x8000_0000
    requires var n := UpCount(j.dst, j.src, j.size);
      j.dst + n <= |c.mem| && j.src + n <= |c.mem| && (j.dst <= j.src || j.src + n <= j.dst) && Apart(j.base, 104, j.dst, n)
    ensures Runs(c, d) && Returned(c, d, j, UpCount(j.dst, j.src, j.size))
  {
    hide Upward, Runs, Returned, UpCount, Up, UpLoaded;
    var n := UpCount(j.dst, j.src, j.size);
    UpOperand(c.mem, j, 23);
    Start(c.mem, j.dst, j.src, n);
    var x := UpEntry(c, j, n);
    if j.dst % 4 == j.src % 4 {
      d := UpHeadRuns(c, x, j, 0);
    } else {
      Misaligned(j.dst, j.src, j.size);
      d := UpTailRuns(c, x, j, n, 0);
    }
    RunsOn(c, x, d);
  }

  // ----- the downward program

  /** The program behind `DOWN_CODE`. */
  function DownInstr(k: nat): Instr {
    match k
    case 0 => Instr(Al, Ldr(0, 15, 88))
    case 1 => Instr(Al, Ldr(1, 15, 88))
    case 2 => Instr(Al, Ldr(2, 15, 88))
    case 3 => Instr(Al, SubR(3, 0, 1))
    case 4 => Instr(Al, TstI(3, 3))
    case 5 => Instr(Ne, Branch(12))
    // copydn_head
    case 6 => Instr(Al, AddR(3, 1, 2))
    case 7 => Instr(Al, TstI(3, 3))
    case 8 => Instr(Eq, Branch(4))
    case 9 => Instr(Al, SubsI(2, 2, 1))
    case 10 => Instr(Mi, Bx(14))
    case 11 => Instr(Al, LdrbIdx(3, 1, 2))
    case 12 => Instr(Al, StrbIdx(3, 0, 2))
    case 13 => Instr(Al, Branch(-9))
    // copydn_loop
    case 14 => Instr(Al, SubsI(2, 2, 4))
    case 15 => Instr(Pl, LdrIdx(3, 1, 2))
    case 16 => Instr(Pl, StrIdx(3, 0, 2))
    case 17 => Instr(Pl, Branch(-5))
    case 18 => Instr(Al, AddI(2, 2, 4))
    // copydn_tail
    case 19 => Instr(Al, SubsI(2, 2, 1))
    case 20 => Instr(Mi, Bx(14))
    case 21 => Instr(Al, LdrbIdx(3, 1, 2))
    case 22 => Instr(Al, StrbIdx(3, 0, 2))
    case _ => Instr(Al, Branch(-6))
  }

  /** The uploaded words are that program. */
  lemma DownDecodes(k: nat)
    requires k < 24
    ensures |DOWN_CODE| == 24 && Decode(DOWN_CODE[k]) == DownInstr(k)
  {
    hide Decode, DownInstr;
    if k < 5 {
      DownDecodes1(k);
    } else if k < 10 {
      DownDecodes2(k);
    } else if k < 15 {
      DownDecodes3(k);
    } else if k < 20 {
      DownDecodes4(k);
    } else {
      DownDecodes5(k);
    }
  }

  lemma DownDecodes1(k: nat)
    requires 0 <= k < 5
    ensures Decode(DOWN_CODE[k]) == DownInstr(k)
  {
    hide Decode;
    if k == 0 {
      Fields(0xe59f0058, 14, 0x59, 15, 0, 0x58);
    } else if k == 1 {
      Fields(0xe59f1058, 14, 0x59, 15, 1, 0x58);
    } else if k == 2 {
      Fields(0xe59f2058, 14, 0x59, 15, 2, 0x58);
    } else if k == 3 {
      Fields(0xe0403001, 14, 0x4, 0, 3, 0x1);
    } else {
      Fields(0xe3130003, 14, 0x31, 3, 0, 0x3);
    }
  }

  lemma DownDecodes2(k: nat)
    requires 5 <= k < 10
    ensures Decode(DOWN_CODE[k]) == DownInstr(k)
  {
    hide Decode;
    if k == 5 {
      BranchFields(0x1a00000c, 1, 0xc);
    } else if k == 6 {
      Fields(0xe0813002, 14, 0x8, 1, 3, 0x2);
    } else if k == 7 {
      Fields(0xe3130003, 14, 0x31, 3, 0, 0x3);
    } else if k == 8 {
      BranchFields(0xa000004, 0, 0x4);
    } else {
      Fields(0xe2522001, 14, 0x25, 2, 2, 0x1);
    }
  }

  lemma DownDecodes3(k: nat)
    requires 10 <= k < 15
    ensures Decode(DOWN_CODE[k]) == DownInstr(k)
  {
    hide Decode;
    if k == 10 {
      Fields(0x412fff1e, 4, 0x12, 15, 15, 0xf1e);
    } else if k == 11 {
      Fields(0xe7d13002, 14, 0x7d, 1, 3, 0x2);
    } else if k == 12 {
      Fields(0xe7c03002, 14, 0x7c, 0, 3, 0x2);
    } else if k == 13 {
      BranchFields(0xeafffff7, 14, 0xfffff7);
    } else {
      Fields(0xe2522004, 14, 0x25, 2, 2, 0x4);
    }
  }

  lemma DownDecodes4(k: nat)
    requires 15 <= k < 20
    ensures Decode(DOWN_CODE[k]) == DownInstr(k)
  {
    hide Decode;
    if k == 15 {
      Fields(0x57913002, 5, 0x79, 1, 3, 0x2);
    } else if k == 16 {
      Fields(0x57803002, 5, 0x78, 0, 3, 0x2);
    } else if k == 17 {
      BranchFields(0x5afffffb, 5, 0xfffffb);
    } else if k == 18 {
      Fields(0xe2822004, 14, 0x28, 2, 2, 0x4);
    } else {
      Fields(0xe2522001, 14, 0x25, 2, 2, 0x1);
    }
  }

  lemma DownDecodes5(k: nat)
    requires 20 <= k < 24
    ensures Decode(DOWN_CODE[k]) == DownInstr(k)
  {
    hide Decode;
    if k == 20 {
      Fields(0x412fff1e, 4, 0x12, 15, 15, 0xf1e);
    } else if k == 21 {
      Fields(0xe7d13002, 14, 0x7d, 1, 3, 0x2);
    } else if k == 22 {
      Fields(0xe7c03002, 14, 0x7c, 0, 3, 0x2);
    } else {
      BranchFields(0xeafffffa, 14, 0xfffffa);
    }
  }

  /** The block is in memory and the next instruction is its `k`-th. */
  predicate DownAt(c: Cpu, j: Job, k: nat) {
    DownLoaded(c.mem, j) && c.pc == j.base + 4 * k
  }

  predicate DownLoaded(m: seq<byte>, j: Job) {
    Loaded(m, j.base, Block(DOWN_CODE, j.dst, j.src, j.size))
  }

  lemma DownOperand(m: seq<byte>, j: Job, k: nat)
    requires DownLoaded(m, j) && 24 <= k < 27
    ensures j.base + 108 <= |m| <= TWO32
    ensures Load(m, j.base + 4 * k) == if k == 24 then j.dst else if k == 25 then j.src else j.size
  {
    hide WordAt;
    var b := Block(DOWN_CODE, j.dst, j.src, j.size);
    assert |b| == 27 && b[24] == j.dst && b[25] == j.src && b[26] == j.size;
    assert WordAt(m, j.base + 4 * k) == b[k];
  }

  lemma DownFetch(c: Cpu, j: Job, k: nat)
    requires DownAt(c, j, k) && k < 24
    ensures Step(c) == Perform(DownInstr(k), c) && j.base + 108 <= TWO32
  {
    hide Decode, Perform, DownInstr, WordAt;
    DownDecodes(k);
    assert |Block(DOWN_CODE, j.dst, j.src, j.size)| == 27;
    Fetch(c, j.base, Block(DOWN_CODE, j.dst, j.src, j.size), k, DownInstr(k));
  }

  // what each instruction does

  lemma Down0(c: Cpu, j: Job)
    requires DownAt(c, j, 0)
    ensures Step(c) == c.(r0 := j.dst, pc := j.base + 4)
  {
    hide Step, DownLoaded, Load, LoadByte, Store, StoreByte;
    DownOperand(c.mem, j, 24);
    DownFetch(c, j, 0);
  }

  lemma Down1(c: Cpu, j: Job)
    requires DownAt(c, j, 1)
    ensures Step(c) == c.(r1 := j.src, pc := j.base + 8)
  {
    hide Step, DownLoaded, Load, LoadByte, Store, StoreByte;
    DownOperand(c.mem, j, 25);
    DownFetch(c, j, 1);
  }

  lemma Down2(c: Cpu, j: Job)
    requires DownAt(c, j, 2)
    ensures Step(c) == c.(r2 := j.size, pc := j.base + 12)
  {
    hide Step, DownLoaded, Load, LoadByte, Store, StoreByte;
    DownOperand(c.mem, j, 26);
    DownFetch(c, j, 2);
  }

  lemma Down3(c: Cpu, j: Job)
    requires DownAt(c, j, 3)
    ensures Step(c) == c.(r3 := Minus(c.r0, c.r1), pc := j.base + 16)
  {
    hide Step, DownLoaded, Load, LoadByte, Store, StoreByte;
    DownFetch(c, j, 3);
  }

  lemma Down4(c: Cpu, j: Job)
    requires DownAt(c, j, 4)
    ensures Step(c) == c.(n := false, z := c.r3 % 4 == 0, pc := j.base + 20)
  {
    hide Step, DownLoaded, Load, LoadByte, Store, StoreByte;
    DownFetch(c, j, 4);
  }

  lemma Down5(c: Cpu, j: Job)
    requires DownAt(c, j, 5)
    ensures Step(c) == c.(pc := if c.z then j.base + 24 else j.base + 76)
  {
    hide Step, DownLoaded, Load, LoadByte, Store, StoreByte, Jump;
    DownFetch(c, j, 5);
    Jumps(j.base, 5, 12);
  }

  lemma Down6(c: Cpu, j: Job)
    requires DownAt(c, j, 6)
    ensures Step(c) == c.(r3 := Plus(c.r1, c.r2), pc := j.base + 28)
  {
    hide Step, DownLoaded, Load, LoadByte, Store, StoreByte;
    DownFetch(c, j, 6);
  }

  lemma Down7(c: Cpu, j: Job)
    requires DownAt(c, j, 7)
    ensures Step(c) == c.(n := false, z := c.r3 % 4 == 0, pc := j.base + 32)
  {
    hide Step, DownLoaded, Load, LoadByte, Store, StoreByte;
    DownFetch(c, j, 7);
  }

  lemma Down8(c: Cpu, j: Job)
    requires DownAt(c, j, 8)
    ensures Step(c) == c.(pc := if c.z then j.base + 56 else j.base + 36)
  {
    hide Step, DownLoaded, Load, LoadByte, Store, StoreByte, Jump;
    DownFetch(c, j, 8);
    Jumps(j.base, 8, 4);
  }

  lemma Down9(c: Cpu, j: Job)
    requires DownAt(c, j, 9)
    ensures Step(c) == Flags(c.(r2 := Minus(c.r2, 1), pc := j.base + 40), c.r2, 1)
  {
    hide Step, DownLoaded, Load, LoadByte, Store, StoreByte;
    DownFetch(c, j, 9);
  }

  lemma Down10(c: Cpu, j: Job)
    requires DownAt(c, j, 10)
    ensures Step(c) == c.(pc := if c.n then c.lr else j.base + 44)
  {
    hide Step, DownLoaded, Load, LoadByte, Store, StoreByte;
    DownFetch(c, j, 10);
  }

  lemma Down11(c: Cpu, j: Job)
    requires DownAt(c, j, 11)
    ensures Step(c) == c.(r3 := LoadByte(c.mem, Plus(c.r1, c.r2)), pc := j.base + 48)
  {
    hide Step, DownLoaded, Load, LoadByte, Store, StoreByte;
    DownFetch(c, j, 11);
  }

  lemma Down12(c: Cpu, j: Job)
    requires DownAt(c, j, 12)
    ensures Step(c) == c.(mem := StoreByte(c.mem, Plus(c.r0, c.r2), c.r3), pc := j.base + 52)
  {
    hide Step, DownLoaded, Load, LoadByte, Store, StoreByte;
    DownFetch(c, j, 12);
  }

  lemma Down13(c: Cpu, j: Job)
    requires DownAt(c, j, 13)
    ensures Step(c) == c.(pc := j.base + 24)
  {
    hide Step, DownLoaded, Load, LoadByte, Store, StoreByte, Jump;
    DownFetch(c, j, 13);
    Jumps(j.base, 13, -9);
  }

  lemma Down14(c: Cpu, j: Job)
    requires DownAt(c, j, 14)
    ensures Step(c) == Flags(c.(r2 := Minus(c.r2, 4), pc := j.base + 60), c.r2, 4)
  {
    hide Step, DownLoaded, Load, LoadByte, Store, StoreByte;
    DownFetch(c, j, 14);
  }

  lemma Down15(c: Cpu, j: Job)
    requires DownAt(c, j, 15)
    ensures Step(c) == c.(r3 := if c.n then c.r3 else Load(c.mem, Plus(c.r1, c.r2)), pc := j.base + 64)
  {
    hide Step, DownLoaded, Load, LoadByte, Store, StoreByte;
    DownFetch(c, j, 15);
  }

  lemma Down16(c: Cpu, j: Job)
    requires DownAt(c, j, 16)
    ensures Step(c) == c.(mem := if c.n then c.mem else Store(c.mem, Plus(c.r0, c.r2), c.r3), pc := j.base + 68)
  {
    hide Step, DownLoaded, Load, LoadByte, Store, StoreByte;
    DownFetch(c, j, 16);
  }

  lemma Down17(c: Cpu, j: Job)
    requires DownAt(c, j, 17)
    ensures Step(c) == c.(pc := if c.n then j.base + 72 else j.base + 56)
  {
    hide Step, DownLoaded, Load, LoadByte, Store, StoreByte, Jump;
    DownFetch(c, j, 17);
    Jumps(j.base, 17, -5);
  }

  lemma Down18(c: Cpu, j: Job)
    requires DownAt(c, j, 18)
    ensures Step(c) == c.(r2 := Plus(c.r2, 4), pc := j.base + 76)
  {
    hide Step, DownLoaded, Load, LoadByte, Store, StoreByte;
    DownFetch(c, j, 18);
  }

  lemma Down19(c: Cpu, j: Job)
    requires DownAt(c, j, 19)
    ensures Step(c) == Flags(c.(r2 := Minus(c.r2, 1), pc := j.base + 80), c.r2, 1)
  {
    hide Step, DownLoaded, Load, LoadByte, Store, StoreByte;
    DownFetch(c, j, 19);
  }

  lemma Down20(c: Cpu, j: Job)
    requires DownAt(c, j, 20)
    ensures Step(c) == c.(pc := if c.n then c.lr else j.base + 84)
  {
    hide Step, DownLoaded, Load, LoadByte, Store, StoreByte;
    DownFetch(c, j, 20);
  }

  lemma Down21(c: Cpu, j: Job)
    requires DownAt(c, j, 21)
    ensures Step(c) == c.(r3 := LoadByte(c.mem, Plus(c.r1, c.r2)), pc := j.base + 88)
  {
    hide Step, DownLoaded, Load, LoadByte, Store, StoreByte;
    DownFetch(c, j, 21);
  }

  lemma Down22(c: Cpu, j: Job)
    requires DownAt(c, j, 22)
    ensures Step(c) == c.(mem := StoreByte(c.mem, Plus(c.r0, c.r2), c.r3), pc := j.base + 92)
  {
    hide Step, DownLoaded, Load, LoadByte, Store, StoreByte;
    DownFetch(c, j, 22);
  }

  lemma Down23(c: Cpu, j: Job)
    requires DownAt(c, j, 23)
    ensures Step(c) == c.(pc := j.base + 76)
  {
    hide Step, DownLoaded, Load, LoadByte, Store, StoreByte, Jump;
    DownFetch(c, j, 23);
    Jumps(j.base, 23, -6);
  }

  // ----- the downward program as a whole

  /** All but the first `k` bytes are copied and the next instruction is the `i`-th. */
  ghost predicate Downward(c0: Cpu, c: Cpu, j: Job, k: nat, i: nat) {
    && DownAt(c, j, i) && Down(c0.mem, c.mem, j.dst, j.src, k, j.size) && Apart(j.base, 108, j.dst, j.size)
    && c.r0 == j.dst && c.r1 == j.src && c.lr == c0.lr && c.sp == c0.sp
  }

  lemma DownOther(c0: Cpu, c: Cpu, d: Cpu, j: Job, k: nat, i: nat, i': nat)
    requires Downward(c0, c, j, k, i)
    requires d == c.(r2 := d.r2, r3 := d.r3, n := d.n, z := d.z, v := d.v, pc := d.pc) && d.pc == j.base + 4 * i'
    ensures Downward(c0, d, j, k, i')
  {
    hide DownLoaded, Down;
  }

  lemma DownCopies(c0: Cpu, c: Cpu, d: Cpu, j: Job, k: nat, w: nat, i: nat, i': nat)
    requires Downward(c0, c, j, k, i) && w <= k
    requires j.dst + k <= |c.mem| && j.src + k <= |c.mem| && d.mem == Copied(c.mem, j.dst + k - w, j.src + k - w, w)
    requires d == c.(r2 := d.r2, r3 := d.r3, mem := d.mem, pc := d.pc) && d.pc == j.base + 4 * i'
    ensures Downward(c0, d, j, k - w, i')
  {
    hide Down, Put;
    DownNext(c0.mem, c.mem, d.mem, j.dst, j.src, k, w, j.size);
    DownBounds(c0, c, j, k, i);
    CodeIntact(c.mem, j.base, Block(DOWN_CODE, j.dst, j.src, j.size), j.dst + k - w, c.mem[j.src + k - w..j.src + k]);
  }

  lemma DownBounds(c0: Cpu, c: Cpu, j: Job, k: nat, i: nat)
    requires Downward(c0, c, j, k, i)
    ensures |c.mem| == |c0.mem| <= TWO32 && j.dst + j.size <= |c.mem| && j.src + j.size <= |c.mem| && k <= j.size
  {
    hide DownLoaded, Copied;
  }

  lemma DownSame(c: Cpu, x: Cpu, j: Job, i: nat, i': nat)
    requires DownAt(c, j, i) && x.mem == c.mem && x.pc == j.base + 4 * i'
    ensures DownAt(x, j, i')
  {}

  lemma DownPlace(c0: Cpu, c: Cpu, j: Job, k: nat, i: nat)
    requires Downward(c0, c, j, k, i)
    ensures DownAt(c, j, i) && c.lr == c0.lr && c.sp == c0.sp && c.r0 == j.dst && c.r1 == j.src
  {
    hide DownAt;
  }

  lemma DownEnds(c0: Cpu, c: Cpu, d: Cpu, j: Job, i: nat)
    requires Downward(c0, c, j, 0, i) && d == c.(pc := c.lr)
    ensures Returned(c0, d, j, j.size)
  {
    hide DownAt, Copied;
  }

  /** The count goes down before a byte is copied: below zero the program returns. */
  lemma DownCount(c0: Cpu, c: Cpu, j: Job, k: nat, i: nat) returns (d: Cpu)
    requires Downward(c0, c, j, k, i) && c.r2 == k < 0x8000_0000 && (i == 9 || i == 19)
    ensures Runs(c, d)
    ensures k == 0 ==> Returned(c0, d, j, j.size)
    ensures k > 0 ==> Downward(c0, d, j, k, i + 2) && d.r2 == k - 1
  {
    hide DownAt, Down, Downward, Runs, Step, Returned;
    DownPlace(c0, c, j, k, i);
    if i == 9 { Down9(c, j); } else { Down19(c, j); }
    var x := Step(c);
    DownOther(c0, c, x, j, k, i, i + 1);
    DownSame(c, x, j, i, i + 1);
    if i == 9 { Down10(x, j); } else { Down20(x, j); }
    d := Step(x);
    RunsStep(c, c);
    RunsStep(c, x);
    if k == 0 {
      DownEnds(c0, x, d, j, i + 1);
    } else {
      DownOther(c0, x, d, j, k, i + 1, i + 2);
    }
  }

  /** The pair `ldrb`, `strb` and the branch back. */
  lemma DownByte(c0: Cpu, c: Cpu, j: Job, k: nat, i: nat) returns (d: Cpu)
    requires Downward(c0, c, j, k, i) && 0 < k && c.r2 == k - 1 && (i == 11 || i == 21)
    ensures Runs(c, d) && Downward(c0, d, j, k - 1, if i == 11 then 6 else 19) && d.r2 == k - 1
  {
    hide DownAt, Down, Downward, Runs, Step, Copied, Load, LoadByte, Store, StoreByte;
    DownBounds(c0, c, j, k, i);
    DownPlace(c0, c, j, k, i);
    if i == 11 { Down11(c, j); } else { Down21(c, j); }
    var x := Step(c);
    DownSame(c, x, j, i, i + 1);
    if i == 11 { Down12(x, j); } else { Down22(x, j); }
    var y := Step(x);
    ByteCopied(c.mem, j.dst + k - 1, j.src + k - 1);
    DownCopies(c0, c, y, j, k, 1, i, i + 2);
    DownPlace(c0, y, j, k - 1, i + 2);
    if i == 11 { Down13(y, j); } else { Down23(y, j); }
    d := Step(y);
    DownOther(c0, y, d, j, k - 1, i + 2, if i == 11 then 6 else 19);
    RunsStep(c, c);
    RunsStep(c, x);
    RunsStep(c, y);
  }

  lemma {:induction false} DownTailRuns(c0: Cpu, c: Cpu, j: Job, k: nat) returns (d: Cpu)
    requires Downward(c0, c, j, k, 19) && c.r2 == k < 0x8000_0000
    ensures Runs(c, d) && Returned(c0, d, j, j.size)
    decreases k
  {
    hide Downward, Runs, Returned;
    var x := DownCount(c0, c, j, k, 19);
    d := x;
    if k > 0 {
      var y := DownByte(c0, x, j, k, 21);
      RunsOn(c, x, y);
      d := DownTailRuns(c0, y, j, k - 1);
      RunsOn(c, y, d);
    }
  }

  /** One round of `copydn_loop`; without four bytes left it falls into the tail. */
  lemma DownWord(c0: Cpu, c: Cpu, j: Job, k: nat) returns (d: Cpu)
    requires Downward(c0, c, j, k, 14) && 4 <= c.r2 == k < 0x8000_0000
    ensures Runs(c, d) && Downward(c0, d, j, k - 4, 14) && d.r2 == k - 4
  {
    hide DownAt, Down, Downward, Runs, Step, Copied, Load, LoadByte, Store, StoreByte;
    DownBounds(c0, c, j, k, 14);
    DownPlace(c0, c, j, k, 14);
    Down14(c, j);
    var x := Step(c);
    DownOther(c0, c, x, j, k, 14, 15);
    DownSame(c, x, j, 14, 15);
    Down15(x, j);
    var y := Step(x);
    DownSame(x, y, j, 15, 16);
    Down16(y, j);
    var z := Step(y);
    WordCopied(c.mem, j.dst + k - 4, j.src + k - 4);
    DownCopies(c0, x, z, j, k, 4, 15, 17);
    DownPlace(c0, z, j, k - 4, 17);
    Down17(z, j);
    d := Step(z);
    DownOther(c0, z, d, j, k - 4, 17, 14);
    RunsStep(c, c);
    RunsStep(c, x);
    RunsStep(c, y);
    RunsStep(c, z);
  }

  lemma DownLeaves(c0: Cpu, c: Cpu, j: Job, k: nat) returns (d: Cpu)
    requires Downward(c0, c, j, k, 14) && c.r2 == k < 4
    ensures Runs(c, d) && Downward(c0, d, j, k, 19) && d.r2 == k
  {
    hide DownAt, Down, Downward, Runs, Step, Copied, Load, LoadByte, Store, StoreByte;
    DownPlace(c0, c, j, k, 14);
    Down14(c, j);
    var x := Step(c);
    DownSame(c, x, j, 14, 15);
    Down15(x, j);
    var y := Step(x);
    DownSame(x, y, j, 15, 16);
    Down16(y, j);
    var z := Step(y);
    DownSame(y, z, j, 16, 17);
    Down17(z, j);
    var w := Step(z);
    DownSame(z, w, j, 17, 18);
    Down18(w, j);
    d := Step(w);
    DownOther(c0, c, d, j, k, 14, 19);
    RunsStep(c, c);
    RunsStep(c, x);
    RunsStep(c, y);
    RunsStep(c, z);
    RunsStep(c, w);
  }

  lemma {:induction false} DownWordsRun(c0: Cpu, c: Cpu, j: Job, k: nat) returns (d: Cpu)
    requires Downward(c0, c, j, k, 14) && c.r2 == k < 0x8000_0000
    ensures Runs(c, d) && Returned(c0, d, j, j.size)
    decreases k
  {
    hide Downward, Runs, Returned;
    if k < 4 {
      var x := DownLeaves(c0, c, j, k);
      d := DownTailRuns(c0, x, j, k);
      RunsOn(c, x, d);
    } else {
      var x := DownWord(c0, c, j, k);
      d := DownWordsRun(c0, x, j, k - 4);
      RunsOn(c, x, d);
    }
  }

  /** The test at `copydn_head`. */
  lemma DownHeadTest(c0: Cpu, c: Cpu, j: Job, k: nat) returns (d: Cpu)
    requires Downward(c0, c, j, k, 6) && c.r2 == k
    ensures Runs(c, d) && d.r2 == k && Downward(c0, d, j, k, if (j.src + k) % 4 == 0 then 14 else 9)
  {
    hide DownAt, Down, Downward, Runs, Step;
    DownBounds(c0, c, j, k, 6);
    DownPlace(c0, c, j, k, 6);
    Down6(c, j);
    var x := Step(c);
    DownSame(c, x, j, 6, 7);
    Down7(x, j);
    var y := Step(x);
    DownSame(x, y, j, 7, 8);
    Down8(y, j);
    d := Step(y);
    assert x.r3 % 4 == (j.src + k) % 4;
    DownOther(c0, c, d, j, k, 6, if (j.src + k) % 4 == 0 then 14 else 9);
    RunsStep(c, c);
    RunsStep(c, x);
    RunsStep(c, y);
  }

  lemma {:induction false} DownHeadRuns(c0: Cpu, c: Cpu, j: Job, k: nat) returns (d: Cpu)
    requires Downward(c0, c, j, k, 6) && c.r2 == k < 0x8000_0000
    ensures Runs(c, d) && Returned(c0, d, j, j.size)
    decreases k
  {
    hide Downward, Runs, Returned;
    var x := DownHeadTest(c0, c, j, k);
    if (j.src + k) % 4 == 0 {
      d := DownWordsRun(c0, x, j, k);
      RunsOn(c, x, d);
    } else {
      var y := DownCount(c0, x, j, k, 9);
      RunsOn(c, x, y);
      d := y;
      if k > 0 {
        var z := DownByte(c0, y, j, k, 11);
        RunsOn(c, y, z);
        d := DownHeadRuns(c0, z, j, k - 1);
        RunsOn(c, z, d);
      }
    }
  }

  lemma DownEntry(c: Cpu, j: Job) returns (d: Cpu)
    requires DownAt(c, j, 0) && Down(c.mem, c.mem, j.dst, j.src, j.size, j.size) && Apart(j.base, 108, j.dst, j.size)
    ensures Runs(c, d) && d.r2 == j.size && Downward(c, d, j, j.size, if j.dst % 4 == j.src % 4 then 6 else 19)
  {
    hide DownLoaded, DownAt, Down, Runs, Step, Load;
    Down0(c, j);
    var a := Step(c);
    DownSame(c, a, j, 0, 1);
    Down1(a, j);
    var b := Step(a);
    DownSame(a, b, j, 1, 2);
    Down2(b, j);
    var x := Step(b);
    DownSame(b, x, j, 2, 3);
    Down3(x, j);
    var y := Step(x);
    DownSame(x, y, j, 3, 4);
    Down4(y, j);
    var z := Step(y);
    DownSame(y, z, j, 4, 5);
    Down5(z, j);
    d := Step(z);
    AlignedDifference(j.dst, j.src);
    DownSame(z, d, j, 5, if j.dst % 4 == j.src % 4 then 6 else 19);
    RunsStep(c, c);
    RunsStep(c, a);
    RunsStep(c, b);
    RunsStep(c, x);
    RunsStep(c, y);
    RunsStep(c, z);
  }

  /** The downward block likewise; here the count is always the size. */
  lemma DownRuns(c: Cpu, j: Job) returns (d: Cpu)
    requires DownAt(c, j, 0) && j.size < 0x8000_0000 && j.src <= j.dst
    requires j.dst + j.size <= |c.mem| && Apart(j.base, 108, j.dst, j.size)
    ensures Runs(c, d) && Returned(c, d, j, j.size)
  {
    hide Downward, Runs, Returned, Down, DownLoaded;
    DownOperand(c.mem, j, 24);
    Start(c.mem, j.dst, j.src, j.size);
    var x := DownEntry(c, j);
    if j.dst % 4 == j.src % 4 {
      d := DownHeadRuns(c, x, j, j.size);
    } else {
      d := DownTailRuns(c, x, j, j.size);
    }
    RunsOn(c, x, d);
  }

  // ----- from the upload on

  /** What was uploaded at `a` is loaded there. */
  lemma UploadLoads(m: seq<byte>, a: nat, block: seq<u32>)
    requires a + 4 * |block| <= |m| <= TWO32
    ensures Loaded(Put(m, a, LeWords(block)), a, block)
  {
    hide Put, LeWords, WordAt;
    forall k | 0 <= k < |block| ensures WordAt(Put(m, a, LeWords(block)), a + 4 * k) == block[k] {
      UploadedWord(m, a, block, k);
    }
  }

  /** A program at `base` is running with the upload in memory, and has just been called. */
  predicate Called(c: Cpu, m: seq<byte>, base: nat, block: seq<u32>) {
    base + 4 * |block| <= |m| <= TWO32 && c.pc == base && c.mem == Put(m, base, LeWords(block))
  }

  /** The memory `MemcpyUp` leaves is the memory the uploaded words leave. */
  lemma UploadedUpRuns(c: Cpu, m: seq<byte>, j: Job)
    requires Called(c, m, j.base, Block(UP_CODE, j.dst, j.src, j.size)) && 0 < j.size < 0x8000_0000
    requires var n := UpCount(j.dst, j.src, j.size);
      j.dst + n <= |m| && j.src + n <= |m| && (j.dst <= j.src || j.src + n <= j.dst) && Apart(j.base, 104, j.dst, n)
    ensures exists d :: Runs(c, d) && d.pc == c.lr && d.sp == c.sp
                     && d.mem == Copied(Put(m, j.base, LeWords(Block(UP_CODE, j.dst, j.src, j.size))), j.dst, j.src, UpCount(j.dst, j.src, j.size))
  {
    hide Put, LeWords, Runs, Copied, UpCount, Loaded;
    UploadLoads(m, j.base, Block(UP_CODE, j.dst, j.src, j.size));
    var d := UpRuns(c, j);
  }

  /** And `MemcpyDown` likewise. */
  lemma UploadedDownRuns(c: Cpu, m: seq<byte>, j: Job)
    requires Called(c, m, j.base, Block(DOWN_CODE, j.dst, j.src, j.size)) && j.size < 0x8000_0000 && j.src <= j.dst
    requires j.dst + j.size <= |m| && Apart(j.base, 108, j.dst, j.size)
    ensures exists d :: Runs(c, d) && d.pc == c.lr && d.sp == c.sp
                     && d.mem == Copied(Put(m, j.base, LeWords(Block(DOWN_CODE, j.dst, j.src, j.size))), j.dst, j.src, j.size)
  {
    hide Put, LeWords, Runs, Copied, Loaded;
    UploadLoads(m, j.base, Block(DOWN_CODE, j.dst, j.src, j.size));
    var d := DownRuns(c, j);
  }
}
