/**
 The ARM instructions the uploaded code is made of: their encodings, and what
 each does to registers, flags and memory.
 */
module Arm {
  import opened BitVectors
  import opened Memory

  // ----- the machine

  /**
   The registers the code uses, the flags, the address of the next instruction,
   and memory.  An instruction that names another register is unknown here.
   */
  datatype Cpu = Cpu(r0: u32, r1: u32, r2: u32, r3: u32, ip: u32, sp: u32, lr: u32, pc: u32,
                     n: bool, z: bool, v: bool, mem: seq<byte>)

  // Arithmetic in 32 bits.

  /** A sum of at most two words, cut to 32 bits. */
  function Cut32(x: nat): u32
    requires x < 2 * TWO32
  {
    if x < TWO32 then x else x - TWO32
  }

  function Plus(a: u32, b: u32): u32 {
    Cut32(a + b)
  }

  function Minus(a: u32, b: u32): u32 {
    if b <= a then a - b else a + TWO32 - b
  }

  /** The target of a branch by that many words, counted from two words ahead. */
  function Jump(pc: u32, words: int): u32 {
    (pc + 8 + 4 * words) % TWO32
  }

  lemma Jumps(base: nat, k: nat, words: int)
    requires 0 <= k + 2 + words && base + 4 * k < TWO32 && base + 4 * (k + 2 + words) < TWO32
    ensures Jump(base + 4 * k, words) == base + 4 * (k + 2 + words)
  {
    assert base + 4 * k + 8 + 4 * words == base + 4 * (k + 2 + words);
  }

  /** Reading register 15 gives the address of the instruction plus eight. */
  function Get(c: Cpu, r: nat): u32 {
    match r
    case 0 => c.r0
    case 1 => c.r1
    case 2 => c.r2
    case 3 => c.r3
    case 12 => c.ip
    case 13 => c.sp
    case 14 => c.lr
    case _ => Plus(c.pc, 8)
  }

  function With(c: Cpu, r: nat, x: u32): Cpu {
    match r
    case 0 => c.(r0 := x)
    case 1 => c.(r1 := x)
    case 2 => c.(r2 := x)
    case 3 => c.(r3 := x)
    case 12 => c.(ip := x)
    case 13 => c.(sp := x)
    case 14 => c.(lr := x)
    case _ => c
  }

  function Next(c: Cpu): Cpu {
    c.(pc := Plus(c.pc, 4))
  }

  /** A result in a register; the next instruction follows. */
  function Set(c: Cpu, r: nat, x: u32): Cpu {
    Next(With(c, r, x))
  }

  /** Reads outside the modelled memory give zero, writes there do nothing. */
  function Load(m: seq<byte>, a: nat): u32 {
    if a + 4 <= |m| then WordAt(m, a) else 0
  }

  function LoadByte(m: seq<byte>, a: nat): u32 {
    if a < |m| then m[a] else 0
  }

  function Store(m: seq<byte>, a: nat, w: u32): seq<byte> {
    if a + 4 <= |m| then Put(m, a, Le(w)) else m
  }

  function StoreByte(m: seq<byte>, a: nat, w: u32): seq<byte> {
    if a < |m| then m[a := w % 0x100] else m
  }

  // ----- instructions

  datatype Cond = Eq | Ne | Mi | Pl | Gt | Al | Other

  datatype Op =
    | Ldr(rd: nat, rn: nat, off: u32)
    | Str(rd: nat, rn: nat, off: u32)
    | LdrPost(rd: nat, rn: nat, inc: u32)
    | StrPost(rd: nat, rn: nat, inc: u32)
    | LdrbPost(rd: nat, rn: nat, inc: u32)
    | StrbPost(rd: nat, rn: nat, inc: u32)
    | LdrIdx(rd: nat, rn: nat, rm: nat)
    | StrIdx(rd: nat, rn: nat, rm: nat)
    | LdrbIdx(rd: nat, rn: nat, rm: nat)
    | StrbIdx(rd: nat, rn: nat, rm: nat)
    | AddI(rd: nat, rn: nat, imm: u32)
    | AddR(rd: nat, rn: nat, rm: nat)
    | SubR(rd: nat, rn: nat, rm: nat)
    | SubsI(rd: nat, rn: nat, imm: u32)
    | CmpI(rn: nat, imm: u32)
    | TstI(rn: nat, imm: u32)
    | MovI(rd: nat, imm: u32)
    | MovR(rd: nat, rm: nat)
    | Branch(words: int)
    | Bx(rm: nat)
    | Blx(rm: nat)
    | LdmFour(rn: nat)
    | Unknown

  datatype Instr = Instr(cond: Cond, op: Op)

  function CondOf(k: nat): Cond {
    match k
    case 0 => Eq
    case 1 => Ne
    case 4 => Mi
    case 5 => Pl
    case 12 => Gt
    case 14 => Al
    case _ => Other
  }

  /** Registers 0 to 3 and 12 to 14. */
  predicate Kept(r: nat) {
    r < 4 || 12 <= r < 15
  }

  /**
   The fields of a word, by the opcode bits 27 to 20.  Shifted operands, rotated
   immediates and masks other than 3 do not occur.
   */
  function OpOf(code: nat, rn: nat, rd: nat, low: u32): Op {
    if code == 0x12 then
      if !Kept(low % 16) then Unknown
      else if low / 16 == 0xF1 then Bx(low % 16)
      else if low / 16 == 0xF3 then Blx(low % 16)
      else Unknown
    else if !Kept(rd) || !(Kept(rn) || rn == 15) then Unknown
    else if low < 0x10 && Kept(low) then RegisterOp(code, rn, rd, low)
    else ImmediateOp(code, rn, rd, low)
  }

  function RegisterOp(code: nat, rn: nat, rd: nat, rm: u32): Op {
    match code
    case 0x79 => LdrIdx(rd, rn, rm)
    case 0x78 => StrIdx(rd, rn, rm)
    case 0x7D => LdrbIdx(rd, rn, rm)
    case 0x7C => StrbIdx(rd, rn, rm)
    case 0x08 => AddR(rd, rn, rm)
    case 0x04 => SubR(rd, rn, rm)
    case 0x1A => MovR(rd, rm)
    case _ => ImmediateOp(code, rn, rd, rm)
  }

  function ImmediateOp(code: nat, rn: nat, rd: nat, low: u32): Op {
    match code
    case 0x59 => Ldr(rd, rn, low)
    case 0x58 => Str(rd, rn, low)
    case 0x49 => LdrPost(rd, rn, low)
    case 0x48 => StrPost(rd, rn, low)
    case 0x4D => LdrbPost(rd, rn, low)
    case 0x4C => StrbPost(rd, rn, low)
    case 0x28 => if low < 0x100 then AddI(rd, rn, low) else Unknown
    case 0x25 => if low < 0x100 then SubsI(rd, rn, low) else Unknown
    case 0x35 => if low < 0x100 then CmpI(rn, low) else Unknown
    case 0x31 => if low == 3 then TstI(rn, low) else Unknown
    case 0x3A => if low < 0x100 then MovI(rd, low) else Unknown
    case 0x8B => if rd == 0 && low == 0xF then LdmFour(rn) else Unknown
    case _ => Unknown
  }

  function Decode(w: u32): Instr {
    var cond, code := CondOf(w / 0x1000_0000), w / 0x10_0000 % 0x100;
    var off := w % 0x100_0000;
    if code / 16 == 0xA then Instr(cond, Branch(if off >= 0x80_0000 then off - 0x100_0000 else off))
    else Instr(cond, OpOf(code, w / 0x1_0000 % 16, w / 0x1000 % 16, w % 0x1000))
  }

  /** A word put together from its fields decodes into them. */
  lemma Fields(w: u32, cond: nat, code: nat, rn: nat, rd: nat, low: u32)
    requires w == 0x1000_0000 * cond + 0x10_0000 * code + 0x1_0000 * rn + 0x1000 * rd + low
    requires code < 0x100 && rn < 16 && rd < 16 && low < 0x1000 && code / 16 != 0xA
    ensures Decode(w) == Instr(CondOf(cond), OpOf(code, rn, rd, low))
  {
    hide CondOf, OpOf;
    var x3 := 0x100 * cond + code;
    var x2 := 0x10 * x3 + rn;
    var x1 := 0x10 * x2 + rd;
    assert w == 0x1000 * x1 + low;
    assert w / 0x1000 == x1 && w % 0x1000 == low;
    Shifts(w);
    assert x1 / 16 == x2 && x1 % 16 == rd;
    assert x2 / 16 == x3 && x2 % 16 == rn;
    assert x3 / 0x100 == cond && x3 % 0x100 == code;
  }

  lemma Shifts(w: nat)
    ensures w / 0x1_0000 == w / 0x1000 / 16 && w / 0x10_0000 == w / 0x1000 / 16 / 16
    ensures w / 0x1000_0000 == w / 0x1000 / 16 / 16 / 0x100
  {}

  lemma BranchFields(w: u32, cond: nat, off: u32)
    requires w == 0x1000_0000 * cond + 0xA00_0000 + off && off < 0x100_0000
    ensures Decode(w) == Instr(CondOf(cond), Branch(if off >= 0x80_0000 then off - 0x100_0000 else off))
  {
    hide CondOf, OpOf;
    var hi := off / 0x10_0000;
    assert w == 0x10_0000 * (0x100 * cond + 0xA0 + hi) + off % 0x10_0000 && hi < 16;
    assert w / 0x10_0000 == 0x100 * cond + 0xA0 + hi;
    assert w / 0x1000_0000 == cond;
    assert (0x100 * cond + 0xA0 + hi) % 0x100 == 0xA0 + hi;
    assert w == 0x100_0000 * (0x10 * cond + 0xA) + off;
  }

  predicate Passes(c: Cpu, cond: Cond) {
    match cond
    case Eq => c.z
    case Ne => !c.z
    case Mi => c.n
    case Pl => !c.n
    case Gt => !c.z && c.n == c.v
    case Al => true
    case Other => false
  }

  /** The flags of a subtraction. */
  function Flags(c: Cpu, a: u32, imm: u32): Cpu {
    var d := Minus(a, imm);
    c.(n := d >= 0x8000_0000, z := d == 0, v := a >= 0x8000_0000 && d < 0x8000_0000)
  }

  function Exec(op: Op, c: Cpu): Cpu {
    match op
    case Ldr(rd, rn, off) => Set(c, rd, Load(c.mem, Plus(Get(c, rn), off)))
    case Str(rd, rn, off) => Next(c).(mem := Store(c.mem, Plus(Get(c, rn), off), Get(c, rd)))
    case LdrPost(rd, rn, inc) => Set(With(c, rd, Load(c.mem, Get(c, rn))), rn, Plus(Get(c, rn), inc))
    case StrPost(rd, rn, inc) => Set(c.(mem := Store(c.mem, Get(c, rn), Get(c, rd))), rn, Plus(Get(c, rn), inc))
    case LdrbPost(rd, rn, inc) => Set(With(c, rd, LoadByte(c.mem, Get(c, rn))), rn, Plus(Get(c, rn), inc))
    case StrbPost(rd, rn, inc) => Set(c.(mem := StoreByte(c.mem, Get(c, rn), Get(c, rd))), rn, Plus(Get(c, rn), inc))
    case LdrIdx(rd, rn, rm) => Set(c, rd, Load(c.mem, Plus(Get(c, rn), Get(c, rm))))
    case StrIdx(rd, rn, rm) => Next(c).(mem := Store(c.mem, Plus(Get(c, rn), Get(c, rm)), Get(c, rd)))
    case LdrbIdx(rd, rn, rm) => Set(c, rd, LoadByte(c.mem, Plus(Get(c, rn), Get(c, rm))))
    case StrbIdx(rd, rn, rm) => Next(c).(mem := StoreByte(c.mem, Plus(Get(c, rn), Get(c, rm)), Get(c, rd)))
    case AddI(rd, rn, imm) => Set(c, rd, Plus(Get(c, rn), imm))
    case AddR(rd, rn, rm) => Set(c, rd, Plus(Get(c, rn), Get(c, rm)))
    case SubR(rd, rn, rm) => Set(c, rd, Minus(Get(c, rn), Get(c, rm)))
    case SubsI(rd, rn, imm) => Flags(Set(c, rd, Minus(Get(c, rn), imm)), Get(c, rn), imm)
    case CmpI(rn, imm) => Flags(Next(c), Get(c, rn), imm)
    case TstI(rn, imm) => Next(c).(n := false, z := Get(c, rn) % (imm + 1) == 0)
    case MovI(rd, imm) => Set(c, rd, imm)
    case MovR(rd, rm) => Set(c, rd, Get(c, rm))
    case Branch(words) => c.(pc := Jump(c.pc, words))
    case Bx(rm) => c.(pc := Get(c, rm))
    case Blx(rm) => c.(lr := Plus(c.pc, 4), pc := Get(c, rm))
    case LdmFour(rn) => FourLoaded(c, Get(c, rn), rn)
    case Unknown => c
  }

  function FourLoaded(c: Cpu, a: u32, rn: nat): Cpu {
    var d := c.(r0 := Load(c.mem, a), r1 := Load(c.mem, Plus(a, 4)), r2 := Load(c.mem, Plus(a, 8)), r3 := Load(c.mem, Plus(a, 12)));
    Set(d, rn, Plus(a, 16))
  }

  /** What is not known here never gets any further. */
  function Perform(i: Instr, c: Cpu): Cpu {
    if i.cond == Other then c
    else if Passes(c, i.cond) then Exec(i.op, c)
    else Next(c)
  }

  function Step(c: Cpu): Cpu {
    Perform(Decode(Load(c.mem, c.pc)), c)
  }

  /** The state after `k` instructions. */
  function Steps(c: Cpu, k: nat): Cpu
    decreases k
  {
    if k == 0 then c else Steps(Step(c), k - 1)
  }

  lemma {:induction false} StepsJoin(c: Cpu, a: nat, b: nat)
    ensures Steps(Steps(c, a), b) == Steps(c, a + b)
    decreases a
  {
    hide Step;
    if a > 0 { StepsJoin(Step(c), a - 1, b); }
  }

  lemma StepsSnoc(c: Cpu, k: nat)
    ensures Steps(c, 0) == c && Steps(c, k + 1) == Step(Steps(c, k))
  {
    hide Step;
    StepsJoin(c, k, 1);
    assert Steps(Steps(c, k), 1) == Steps(Step(Steps(c, k)), 0);
  }

  /** Execution from `c` passes through `d`. */
  ghost predicate Runs(c: Cpu, d: Cpu) {
    exists k: nat :: Steps(c, k) == d
  }

  lemma RunsStep(c: Cpu, x: Cpu)
    ensures Runs(c, c) && (Runs(c, x) ==> Runs(c, Step(x)))
  {
    hide Step;
    assert Steps(c, 0) == c;
    if Runs(c, x) {
      var k: nat :| Steps(c, k) == x;
      StepsSnoc(c, k);
    }
  }

  lemma RunsOn(c: Cpu, x: Cpu, d: Cpu)
    requires Runs(c, x) && Runs(x, d)
    ensures Runs(c, d)
  {
    hide Step;
    var a: nat :| Steps(c, a) == x;
    var b: nat :| Steps(x, b) == d;
    StepsJoin(c, a, b);
  }

  // ----- code in memory

  /** The words of `code` are in memory from `base` on. */
  predicate Loaded(m: seq<byte>, base: nat, code: seq<u32>) {
    && base + 4 * |code| <= |m| <= TWO32
    && forall k :: 0 <= k < |code| ==> WordAt(m, base + 4 * k) == code[k]
  }

  lemma Fetch(c: Cpu, base: nat, code: seq<u32>, k: nat, i: Instr)
    requires Loaded(c.mem, base, code) && k < |code| && c.pc == base + 4 * k && Decode(code[k]) == i
    ensures Step(c) == Perform(i, c)
  {
    hide Decode, Perform, WordAt;
  }
}
