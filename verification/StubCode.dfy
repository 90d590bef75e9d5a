/**
 The words of the entry stub are an ARM program that calls a function as the
 procedure call standard prescribes and returns with its result.
 */
module StubCode {
  import opened BitVectors
  import opened Memory
  import opened RemoteCall
  import opened Arm

  /** The program behind `ENTRY_CODE`. */
  function StubInstr(k: nat): Instr {
    match k
    case 0 => Instr(Al, Str(14, 15, 64))
    case 1 => Instr(Al, Str(13, 15, 64))
    case 2 => Instr(Al, Ldr(13, 15, 64))
    case 3 => Instr(Al, AddI(12, 15, 64))
    case 4 => Instr(Al, MovR(2, 13))
    case 5 => Instr(Al, LdrPost(0, 12, 4))
    case 6 => Instr(Al, CmpI(0, 0))
    case 7 => Instr(Eq, Branch(3))
    // copy_stack_args
    case 8 => Instr(Al, LdrPost(1, 12, 4))
    case 9 => Instr(Al, StrPost(1, 2, 4))
    case 10 => Instr(Al, SubsI(0, 0, 1))
    case 11 => Instr(Ne, Branch(-5))
    case 12 => Instr(Al, LdmFour(12))
    case 13 => Instr(Al, Blx(12))
    case 14 => Instr(Al, Ldr(14, 15, 8))
    case 15 => Instr(Al, Ldr(13, 15, 8))
    case 16 => Instr(Al, Str(0, 15, 0))
    case _ => Instr(Al, Bx(14))
  }

  /** The uploaded words are that program. */
  lemma StubDecodes(k: nat)
    requires k < 18
    ensures |ENTRY_CODE| == 20 && Decode(ENTRY_CODE[k]) == StubInstr(k)
  {
    hide Decode, StubInstr;
    if k < 5 {
      StubDecodes1(k);
    } else if k < 10 {
      StubDecodes2(k);
    } else if k < 15 {
      StubDecodes3(k);
    } else {
      StubDecodes4(k);
    }
  }

  lemma StubDecodes1(k: nat)
    requires 0 <= k < 5
    ensures Decode(ENTRY_CODE[k]) == StubInstr(k)
  {
    hide Decode;
    if k == 0 {
      Fields(0xe58fe040, 14, 0x58, 15, 14, 0x40);
    } else if k == 1 {
      Fields(0xe58fd040, 14, 0x58, 15, 13, 0x40);
    } else if k == 2 {
      Fields(0xe59fd040, 14, 0x59, 15, 13, 0x40);
    } else if k == 3 {
      Fields(0xe28fc040, 14, 0x28, 15, 12, 0x40);
    } else {
      Fields(0xe1a0200d, 14, 0x1a, 0, 2, 0xd);
    }
  }

  lemma StubDecodes2(k: nat)
    requires 5 <= k < 10
    ensures Decode(ENTRY_CODE[k]) == StubInstr(k)
  {
    hide Decode;
    if k == 5 {
      Fields(0xe49c0004, 14, 0x49, 12, 0, 0x4);
    } else if k == 6 {
      Fields(0xe3500000, 14, 0x35, 0, 0, 0x0);
    } else if k == 7 {
      BranchFields(0xa000003, 0, 0x3);
    } else if k == 8 {
      Fields(0xe49c1004, 14, 0x49, 12, 1, 0x4);
    } else {
      Fields(0xe4821004, 14, 0x48, 2, 1, 0x4);
    }
  }

  lemma StubDecodes3(k: nat)
    requires 10 <= k < 15
    ensures Decode(ENTRY_CODE[k]) == StubInstr(k)
  {
    hide Decode;
    if k == 10 {
      Fields(0xe2500001, 14, 0x25, 0, 0, 0x1);
    } else if k == 11 {
      BranchFields(0x1afffffb, 1, 0xfffffb);
    } else if k == 12 {
      Fields(0xe8bc000f, 14, 0x8b, 12, 0, 0xf);
    } else if k == 13 {
      Fields(0xe12fff3c, 14, 0x12, 15, 15, 0xf3c);
    } else {
      Fields(0xe59fe008, 14, 0x59, 15, 14, 0x8);
    }
  }

  lemma StubDecodes4(k: nat)
    requires 15 <= k < 18
    ensures Decode(ENTRY_CODE[k]) == StubInstr(k)
  {
    hide Decode;
    if k == 15 {
      Fields(0xe59fd008, 14, 0x59, 15, 13, 0x8);
    } else if k == 16 {
      Fields(0xe58f0000, 14, 0x58, 15, 0, 0x0);
    } else {
      Fields(0xe12fff1e, 14, 0x12, 15, 15, 0xf1e);
    }
  }

  predicate StubLoaded(m: seq<byte>, base: nat) {
    base + 0x58 <= |m| <= TWO32 && forall i :: 0 <= i < 18 ==> WordAt(m, StubSource(base, i)) == ENTRY_CODE[i]
  }

  /** The stub is in memory and the next instruction is its `k`-th. */
  predicate StubAt(c: Cpu, base: nat, k: nat) {
    StubLoaded(c.mem, base) && c.pc == base + 4 * k
  }

  lemma StubFetch(c: Cpu, base: nat, k: nat)
    requires StubAt(c, base, k) && k < 18
    ensures Step(c) == Perform(StubInstr(k), c) && base + 0x58 <= TWO32
  {
    hide Decode, Perform, StubInstr, WordAt;
    StubDecodes(k);
    assert WordAt(c.mem, StubSource(base, k)) == ENTRY_CODE[k];
  }

  lemma StubSame(c: Cpu, x: Cpu, base: nat, i: nat, i': nat)
    requires StubAt(c, base, i) && x.mem == c.mem && x.pc == base + 4 * i'
    ensures StubAt(x, base, i')
  {}

  // what each instruction does

  lemma Stub0(c: Cpu, base: nat)
    requires StubAt(c, base, 0)
    ensures Step(c) == c.(mem := Store(c.mem, base + 0x48, c.lr), pc := base + 4)
  {
    hide Step, StubLoaded, Load, Store;
    StubFetch(c, base, 0);
  }

  lemma Stub1(c: Cpu, base: nat)
    requires StubAt(c, base, 1)
    ensures Step(c) == c.(mem := Store(c.mem, base + 0x4C, c.sp), pc := base + 8)
  {
    hide Step, StubLoaded, Load, Store;
    StubFetch(c, base, 1);
  }

  lemma Stub2(c: Cpu, base: nat)
    requires StubAt(c, base, 2)
    ensures Step(c) == c.(sp := Load(c.mem, base + 0x50), pc := base + 12)
  {
    hide Step, StubLoaded, Load, Store;
    StubFetch(c, base, 2);
  }

  lemma Stub3(c: Cpu, base: nat)
    requires StubAt(c, base, 3)
    ensures Step(c) == c.(ip := base + 0x54, pc := base + 16)
  {
    hide Step, StubLoaded, Load, Store;
    StubFetch(c, base, 3);
  }

  lemma Stub4(c: Cpu, base: nat)
    requires StubAt(c, base, 4)
    ensures Step(c) == c.(r2 := c.sp, pc := base + 20)
  {
    hide Step, StubLoaded, Load, Store;
    StubFetch(c, base, 4);
  }

  lemma Stub5(c: Cpu, base: nat)
    requires StubAt(c, base, 5)
    ensures Step(c) == c.(r0 := Load(c.mem, c.ip), ip := Plus(c.ip, 4), pc := base + 24)
  {
    hide Step, StubLoaded, Load, Store;
    StubFetch(c, base, 5);
  }

  lemma Stub6(c: Cpu, base: nat)
    requires StubAt(c, base, 6)
    ensures Step(c) == c.(n := c.r0 >= 0x8000_0000, z := c.r0 == 0, v := false, pc := base + 28)
  {
    hide Step, StubLoaded, Load, Store;
    StubFetch(c, base, 6);
  }

  lemma Stub7(c: Cpu, base: nat)
    requires StubAt(c, base, 7)
    ensures Step(c) == c.(pc := if c.z then base + 48 else base + 32)
  {
    hide Step, StubLoaded, Load, Store, Jump;
    StubFetch(c, base, 7);
    Jumps(base, 7, 3);
  }

  lemma Stub8(c: Cpu, base: nat)
    requires StubAt(c, base, 8)
    ensures Step(c) == c.(r1 := Load(c.mem, c.ip), ip := Plus(c.ip, 4), pc := base + 36)
  {
    hide Step, StubLoaded, Load, Store;
    StubFetch(c, base, 8);
  }

  lemma Stub9(c: Cpu, base: nat)
    requires StubAt(c, base, 9)
    ensures Step(c) == c.(mem := Store(c.mem, c.r2, c.r1), r2 := Plus(c.r2, 4), pc := base + 40)
  {
    hide Step, StubLoaded, Load, Store;
    StubFetch(c, base, 9);
  }

  lemma Stub10(c: Cpu, base: nat)
    requires StubAt(c, base, 10)
    ensures Step(c) == Flags(c.(r0 := Minus(c.r0, 1), pc := base + 44), c.r0, 1)
  {
    hide Step, StubLoaded, Load, Store;
    StubFetch(c, base, 10);
  }

  lemma Stub11(c: Cpu, base: nat)
    requires StubAt(c, base, 11)
    ensures Step(c) == c.(pc := if c.z then base + 48 else base + 32)
  {
    hide Step, StubLoaded, Load, Store, Jump;
    StubFetch(c, base, 11);
    Jumps(base, 11, -5);
  }

  lemma Stub12(c: Cpu, base: nat)
    requires StubAt(c, base, 12)
    ensures Step(c) == c.(r0 := Load(c.mem, c.ip), r1 := Load(c.mem, Plus(c.ip, 4)),
                         r2 := Load(c.mem, Plus(c.ip, 8)), r3 := Load(c.mem, Plus(c.ip, 12)),
                         ip := Plus(c.ip, 16), pc := base + 52)
  {
    hide Step, StubLoaded, Load, Store;
    StubFetch(c, base, 12);
  }

  lemma Stub13(c: Cpu, base: nat)
    requires StubAt(c, base, 13)
    ensures Step(c) == c.(lr := base + 56, pc := c.ip)
  {
    hide Step, StubLoaded, Load, Store;
    StubFetch(c, base, 13);
  }

  lemma Stub14(c: Cpu, base: nat)
    requires StubAt(c, base, 14)
    ensures Step(c) == c.(lr := Load(c.mem, base + 0x48), pc := base + 60)
  {
    hide Step, StubLoaded, Load, Store;
    StubFetch(c, base, 14);
  }

  lemma Stub15(c: Cpu, base: nat)
    requires StubAt(c, base, 15)
    ensures Step(c) == c.(sp := Load(c.mem, base + 0x4C), pc := base + 64)
  {
    hide Step, StubLoaded, Load, Store;
    StubFetch(c, base, 15);
  }

  lemma Stub16(c: Cpu, base: nat)
    requires StubAt(c, base, 16)
    ensures Step(c) == c.(mem := Store(c.mem, base + 0x48, c.r0), pc := base + 68)
  {
    hide Step, StubLoaded, Load, Store;
    StubFetch(c, base, 16);
  }

  lemma Stub17(c: Cpu, base: nat)
    requires StubAt(c, base, 17)
    ensures Step(c) == c.(pc := c.lr)
  {
    hide Step, StubLoaded, Load, Store;
    StubFetch(c, base, 17);
  }

  // ----- up to the call

  /** A prepared call: the block's address, its arguments and code, and the stack pointer. */
  datatype Frame = Frame(scratch: nat, args: seq<u32>, code: seq<byte>, top: nat)

  ghost predicate Ready(m: seq<byte>, f: Frame) {
    Prepared(m, f.scratch, f.args, f.code, f.top)
  }

  /** `i` arguments are on the new stack and the next instruction is the `k`-th. */
  ghost predicate Pushing(c0: Cpu, c: Cpu, f: Frame, i: nat, k: nat) {
    && Pushed(c.mem, f.scratch, f.args, f.code, f.top, i, c0.lr, c0.sp) && c.sp == f.top
    && c.pc == f.scratch + 4 * k && c.ip == StackSource(f.scratch, i) && c.r2 == Cut32(StackSlot(f.top, i))
  }

  lemma ReadyLoaded(m: seq<byte>, f: Frame)
    requires Ready(m, f)
    ensures StubLoaded(m, f.scratch) && CodeAt(f.scratch, f.args) <= f.top < TWO32 && f.top + 4 * OnStack(f.args) <= |m|
    ensures Load(m, f.scratch + 0x50) == f.top && Load(m, f.scratch + 0x54) == OnStack(f.args)
  {
    hide WordAt;
  }

  lemma PushingAt(c0: Cpu, c: Cpu, f: Frame, i: nat, k: nat)
    requires Pushing(c0, c, f, i, k)
    ensures StubAt(c, f.scratch, k) && Ready(c.mem, f) && i <= OnStack(f.args)
    ensures c.sp == f.top && c.ip == StackSource(f.scratch, i) && f.top + 4 * i <= |c.mem| <= TWO32
    ensures CodeAt(f.scratch, f.args) <= f.top && c.r2 == Cut32(StackSlot(f.top, i))
  {
    hide WordAt;
  }

  /** Saving the return state and setting up the copy of the stack arguments. */
  lemma StubStarts(c: Cpu, f: Frame) returns (d: Cpu)
    requires Ready(c.mem, f) && c.pc == f.scratch
    ensures Runs(c, d) && Pushing(c, d, f, 0, if OnStack(f.args) == 0 then 12 else 8) && d.r0 == OnStack(f.args)
  {
    hide StubLoaded, Step, Runs, Prepared, Pushed, Put, Le, WordAt;
    var base := f.scratch;
    ReadyLoaded(c.mem, f);
    Stub0(c, base);
    var a := Step(c);
    StillPrepared(c.mem, base, f.args, f.code, f.top, base + 0x48, Le(c.lr));
    ReadyLoaded(a.mem, f);
    Stub1(a, base);
    var b := Step(a);
    PushStart(c.mem, base, f.args, f.code, f.top, c.lr, c.sp);
    StillPrepared(a.mem, base, f.args, f.code, f.top, base + 0x4C, Le(c.sp));
    ReadyLoaded(b.mem, f);
    var x := StubCounts(b, f);
    d := StubBranches(x, base);
    RunsStep(c, c);
    RunsStep(c, a);
    RunsOn(c, b, x);
    RunsOn(c, x, d);
  }

  lemma StubCounts(b: Cpu, f: Frame) returns (d: Cpu)
    requires Ready(b.mem, f) && StubAt(b, f.scratch, 2)
    ensures Runs(b, d) && StubAt(d, f.scratch, 6)
    ensures d == b.(sp := f.top, r0 := OnStack(f.args), r2 := f.top, ip := f.scratch + 0x58, pc := f.scratch + 24)
  {
    hide StubLoaded, Step, Runs, Ready, Load;
    var base := f.scratch;
    ReadyLoaded(b.mem, f);
    Stub2(b, base);
    var x := Step(b);
    Stub3(x, base);
    var y := Step(x);
    Stub4(y, base);
    var z := Step(y);
    Stub5(z, base);
    d := Step(z);
    RunsStep(b, b);
    RunsStep(b, x);
    RunsStep(b, y);
    RunsStep(b, z);
  }

  lemma StubBranches(c: Cpu, base: nat) returns (d: Cpu)
    requires StubAt(c, base, 6)
    ensures Runs(c, d) && d == c.(n := d.n, z := d.z, v := d.v, pc := d.pc) && d.pc == base + 4 * if c.r0 == 0 then 12 else 8
  {
    hide StubLoaded, Step, Runs;
    Stub6(c, base);
    var x := Step(c);
    StubSame(c, x, base, 6, 7);
    Stub7(x, base);
    d := Step(x);
    RunsStep(c, c);
    RunsStep(c, x);
  }

  /** One argument goes onto the stack. */
  lemma StubPushes(c0: Cpu, c: Cpu, f: Frame, i: nat) returns (d: Cpu)
    requires Pushing(c0, c, f, i, 8) && i < OnStack(f.args) && c.r0 == OnStack(f.args) - i
    ensures Runs(c, d) && Pushing(c0, d, f, i + 1, if i + 1 == OnStack(f.args) then 12 else 8) && d.r0 == OnStack(f.args) - i - 1
  {
    hide StubLoaded, StubAt, Step, Runs, Prepared, Ready, Pushed, Put, Le, WordAt;
    var base := f.scratch;
    PushingAt(c0, c, f, i, 8);
    PushNext(c.mem, base, f.args, f.code, f.top, i, c0.lr, c0.sp);
    Stub8(c, base);
    var x := Step(c);
    StubSame(c, x, base, 8, 9);
    Stub9(x, base);
    var y := Step(x);
    assert Pushing(c0, y, f, i + 1, 10);
    PushingAt(c0, y, f, i + 1, 10);
    Stub10(y, base);
    var z := Step(y);
    StubSame(y, z, base, 10, 11);
    Stub11(z, base);
    d := Step(z);
    RunsStep(c, c);
    RunsStep(c, x);
    RunsStep(c, y);
    RunsStep(c, z);
  }

  lemma {:induction false} StubPushesAll(c0: Cpu, c: Cpu, f: Frame, i: nat) returns (d: Cpu)
    requires i <= OnStack(f.args) && Pushing(c0, c, f, i, if i == OnStack(f.args) then 12 else 8) && c.r0 == OnStack(f.args) - i
    ensures Runs(c, d) && Pushing(c0, d, f, OnStack(f.args), 12)
    decreases OnStack(f.args) - i
  {
    hide Runs, Pushing, Step;
    if i == OnStack(f.args) {
      RunsStep(c, c);
      d := c;
    } else {
      var x := StubPushes(c0, c, f, i);
      d := StubPushesAll(c0, x, f, i + 1);
      RunsOn(c, x, d);
    }
  }

  /** The state in which the function finds the machine. */
  function CallOf(d: Cpu): Call {
    Call(d.pc, d.r0, d.r1, d.r2, d.r3, d.sp, d.lr, d.mem)
  }

  /** The stub and the saved return state are in place. */
  ghost predicate Saved(m: seq<byte>, base: nat, lr: u32, sp: u32) {
    StubLoaded(m, base) && WordAt(m, base + 0x48) == lr && WordAt(m, base + 0x4C) == sp
  }

  lemma StubEnters(c: Cpu, f: Frame) returns (d: Cpu)
    requires Ready(c.mem, f) && c.pc == f.scratch
    ensures Runs(c, d) && Standard(CallOf(d), f.scratch, f.args, f.code) && d.sp == f.top
    ensures Saved(d.mem, f.scratch, c.lr, c.sp)
  {
    hide StubLoaded, StubAt, Step, Runs, Prepared, Ready, Pushed, Put, Le, WordAt, Standard;
    var base, n := f.scratch, OnStack(f.args);
    var a := StubStarts(c, f);
    var b := StubPushesAll(c, a, f, 0);
    PushingAt(c, b, f, n, 12);
    Operands(b.mem, base, f.args, f.code, f.top, n, c.lr, c.sp);
    Stub12(b, base);
    var x := Step(b);
    StubSame(b, x, base, 12, 13);
    Stub13(x, base);
    d := Step(x);
    SavedIs(d.mem, f, c.lr, c.sp);
    Entered(CallOf(d), base, f.args, f.code, c.lr, c.sp);
    RunsOn(c, a, b);
    RunsStep(c, b);
    RunsStep(c, x);
  }

  lemma SavedIs(m: seq<byte>, f: Frame, lr: u32, sp: u32)
    requires Pushed(m, f.scratch, f.args, f.code, f.top, OnStack(f.args), lr, sp)
    ensures Saved(m, f.scratch, lr, sp)
  {
    hide WordAt;
  }

  // ----- from the return on

  lemma StubKept(m: seq<byte>, base: nat, w: u32)
    requires StubLoaded(m, base)
    ensures StubLoaded(Store(m, base + 0x48, w), base)
  {
    hide Put, Le, WordAt;
    forall i | 0 <= i < 18 ensures WordAt(Store(m, base + 0x48, w), StubSource(base, i)) == ENTRY_CODE[i] {
      StoreElsewhere(m, base + 0x48, Le(w), StubSource(base, i));
    }
  }

  lemma StubLeaves(e: Cpu, base: nat, lr: u32, sp: u32) returns (g: Cpu)
    requires Saved(e.mem, base, lr, sp) && e.pc == base + 56
    ensures base + 0x58 <= |e.mem|
    ensures Runs(e, g) && g.pc == lr && g.lr == lr && g.sp == sp && g.mem == Put(e.mem, base + 0x48, Le(e.r0))
  {
    hide Step, Runs, Put, Le, WordAt;
    assert base + 0x58 <= |e.mem| by { hide WordAt; }
    Stub14(e, base);
    var x := Step(e);
    StubSame(e, x, base, 14, 15);
    Stub15(x, base);
    var y := Step(x);
    StubSame(x, y, base, 15, 16);
    Stub16(y, base);
    var z := Step(y);
    StubKept(y.mem, base, y.r0);
    Stub17(z, base);
    g := Step(z);
    RunsStep(e, e);
    RunsStep(e, x);
    RunsStep(e, y);
    RunsStep(e, z);
  }

  /** The function came back with the stub's part of memory as it was. */
  ghost predicate CameBack(d: Cpu, e: Cpu, base: nat) {
    && Runs(d, e) && e.pc == d.lr && base + 0x58 <= |d.mem| == |e.mem|
    && e.mem[base..base + 0x58] == d.mem[base..base + 0x58]
  }

  lemma SavedStill(m: seq<byte>, m': seq<byte>, base: nat, lr: u32, sp: u32)
    requires Saved(m, base, lr, sp) && |m'| == |m| && base + 0x58 <= |m|
    requires m'[base..base + 0x58] == m[base..base + 0x58]
    ensures Saved(m', base, lr, sp)
  {
    hide WordAt;
    forall i | 0 <= i < 18 ensures WordAt(m', StubSource(base, i)) == ENTRY_CODE[i] {
      SameWord(m', base, m, base, 0x58, 4 * i);
    }
    SameWord(m', base, m, base, 0x58, 0x48);
    SameWord(m', base, m, base, 0x58, 0x4C);
  }

  /**
   The whole call on the machine: the stub enters the function as the standard
   prescribes, and whatever the function does, when it returns the stub gives
   control back with the caller's stack pointer and the result in the block.
   */
  lemma StubRuns(c: Cpu, f: Frame) returns (d: Cpu)
    requires Ready(c.mem, f) && c.pc == f.scratch
    ensures Runs(c, d) && Standard(CallOf(d), f.scratch, f.args, f.code) && d.sp == f.top
    ensures forall e :: CameBack(d, e, f.scratch)
              ==> exists g :: Runs(c, g) && g.pc == c.lr && g.sp == c.sp && g.mem == Put(e.mem, f.scratch + 0x48, Le(e.r0))
  {
    hide Ready, Step, Runs, Put, Le, Standard, Saved;
    d := StubEnters(c, f);
    assert d.lr == f.scratch + 56 by { ReturnAddress(d, f); }
    forall e | CameBack(d, e, f.scratch)
      ensures exists g :: Runs(c, g) && g.pc == c.lr && g.sp == c.sp && g.mem == Put(e.mem, f.scratch + 0x48, Le(e.r0))
    {
      SavedStill(d.mem, e.mem, f.scratch, c.lr, c.sp);
      var g := StubLeaves(e, f.scratch, c.lr, c.sp);
      RunsOn(c, d, e);
      RunsOn(c, e, g);
    }
  }

  lemma ReturnAddress(d: Cpu, f: Frame)
    requires Standard(CallOf(d), f.scratch, f.args, f.code)
    ensures d.lr == f.scratch + 56
  {
    hide WordAt;
  }
}
