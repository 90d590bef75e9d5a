/**
 Calling a function on the SoC: the block uploaded with the entry stub, and the
 stub as a register machine that follows the ARM procedure call standard.
 */
module RemoteCall {
  import opened BitVectors
  import opened Memory

  const ENTRY_CODE: seq<u32> := [
    0xe58fe040, 0xe58fd040, 0xe59fd040, 0xe28fc040, 0xe1a0200d, 0xe49c0004, 0xe3500000, 0x0a000003, 0xe49c1004, 0xe4821004,
    0xe2500001, 0x1afffffb, 0xe8bc000f, 0xe12fff3c, 0xe59fe008, 0xe59fd008, 0xe58f0000, 0xe12fff1e, 0, 0]

  /** Arguments that go onto the stack. */
  function OnStack(args: seq<u32>): nat {
    if |args| <= 4 then 0 else |args| - 4
  }

  /** Argument `i`, zero when there is none. */
  function Arg(args: seq<u32>, i: nat): u32 {
    if i < |args| then args[i] else 0
  }

  /** Where the function's code starts, behind stub, operands and arguments. */
  function CodeAt(scratch: nat, args: seq<u32>): nat {
    scratch + 0x58 + 4 * OnStack(args) + 16
  }

  /** The stack pointer: above everything, a multiple of eight. */
  function NewSp(scratch: nat, args: seq<u32>, codeSize: nat, stackSize: nat): (sp: nat)
    ensures sp % 8 == 0 && CodeAt(scratch, args) + codeSize + stackSize <= sp < CodeAt(scratch, args) + codeSize + stackSize + 8
  {
    (CodeAt(scratch, args) + codeSize + stackSize + 7) / 8 * 8
  }

  /** Enough memory for the block and for the stack arguments above it. */
  predicate Fits(top: nat, scratch: nat, args: seq<u32>, codeSize: nat, stackSize: nat) {
    top <= TWO32 && NewSp(scratch, args, codeSize, stackSize) < TWO32
    && NewSp(scratch, args, codeSize, stackSize) + 4 * OnStack(args) <= top
  }

  // ----- the uploaded block

  function StackArgs(args: seq<u32>): (r: seq<u32>)
    ensures |r| == OnStack(args)
  {
    if |args| <= 4 then [] else args[4..]
  }

  function RegArgs(args: seq<u32>): (r: seq<u32>)
    ensures |r| == 4
  {
    [Arg(args, 0), Arg(args, 1), Arg(args, 2), Arg(args, 3)]
  }

  function BlockWords(sp: u32, n: u32, args: seq<u32>): (r: seq<u32>)
    ensures |r| == 26 + OnStack(args)
  {
    ENTRY_CODE + [sp, n] + StackArgs(args) + RegArgs(args)
  }

  /** What is in memory for the stub: its own instructions, operands, arguments and the function. */
  ghost predicate Prepared(m: seq<byte>, scratch: nat, args: seq<u32>, code: seq<byte>, sp: nat) {
    && sp % 8 == 0 && sp < TWO32 && CodeAt(scratch, args) + |code| <= sp && sp + 4 * OnStack(args) <= |m| <= TWO32
    && (forall i :: 0 <= i < 18 ==> WordAt(m, StubSource(scratch, i)) == ENTRY_CODE[i])
    && WordAt(m, scratch + 0x50) == sp && WordAt(m, scratch + 0x54) == OnStack(args)
    && (forall i :: 0 <= i < OnStack(args) ==> WordAt(m, StackSource(scratch, i)) == args[4 + i])
    && (forall i :: 0 <= i < 4 ==> WordAt(m, RegSource(scratch, args, i)) == Arg(args, i))
    && m[CodeAt(scratch, args)..CodeAt(scratch, args) + |code|] == code
  }

  function StubSource(scratch: nat, i: nat): nat {
    scratch + 4 * i
  }

  function StackSource(scratch: nat, i: nat): nat {
    scratch + 0x58 + 4 * i
  }

  function RegSource(scratch: nat, args: seq<u32>, i: nat): nat {
    scratch + 0x58 + 4 * OnStack(args) + 4 * i
  }

  /** The words behind the stub, in the order they are written. */
  method FillBlock(sp: u32, args: seq<u32>) returns (words: seq<u32>)
    requires OnStack(args) < TWO32
    ensures words == BlockWords(sp, OnStack(args), args)
  {
    var n := OnStack(args);
    words := ENTRY_CODE + [sp] + [n];
    ghost var head := words;
    var i := |args| - n;
    while i < |args|
      invariant |args| - n <= i <= |args|
      invariant words == head + args[|args| - n..i]
    {
      assert args[|args| - n..i + 1] == args[|args| - n..i] + [args[i]];
      words := words + [args[i]];
      i := i + 1;
    }
    assert args[|args| - n..|args|] == StackArgs(args);
    words := words + [Arg(args, 0)];
    words := words + [Arg(args, 1)];
    words := words + [Arg(args, 2)];
    words := words + [Arg(args, 3)];
    BlockIs(sp, n, args, head);
  }

  lemma BlockIs(sp: u32, n: u32, args: seq<u32>, head: seq<u32>)
    requires head == ENTRY_CODE + [sp] + [n]
    ensures head + StackArgs(args) + [Arg(args, 0)] + [Arg(args, 1)] + [Arg(args, 2)] + [Arg(args, 3)] == BlockWords(sp, n, args)
  {
    assert RegArgs(args) == [Arg(args, 0)] + [Arg(args, 1)] + [Arg(args, 2)] + [Arg(args, 3)];
    assert head == ENTRY_CODE + [sp, n];
  }

  function Zero(k: nat): (r: seq<byte>)
    ensures |r| == k
  {
    seq(k, i => 0)
  }

  lemma BlockWordAt(m: seq<byte>, a: nat, ws: seq<u32>, tail: seq<byte>, i: nat)
    requires a + 4 * |ws| + |tail| <= |m| && i < |ws|
    ensures WordAt(Put(m, a, LeWords(ws) + tail), a + 4 * i) == ws[i]
  {
    hide Le, LeWords, WordAt, Put;
    var x := LeWords(ws);
    LeWordsAt(ws, i);
    PutSlice(m, a, x + tail, 4 * i, 4 * i + 4);
    FrontSlice(x, tail, 4 * i, 4);
    WordOfLe(Put(m, a, x + tail), a + 4 * i, ws[i]);
  }

  lemma BlockIndex(sp: u32, n: u32, args: seq<u32>, i: nat)
    requires n == OnStack(args)
    ensures i < 18 ==> BlockWords(sp, n, args)[i] == ENTRY_CODE[i]
    ensures BlockWords(sp, n, args)[20] == sp && BlockWords(sp, n, args)[21] == n
    ensures i < n ==> BlockWords(sp, n, args)[22 + i] == args[4 + i]
    ensures i < 4 ==> BlockWords(sp, n, args)[22 + n + i] == Arg(args, i)
  {}

  lemma BlockPrepared(m: seq<byte>, scratch: nat, args: seq<u32>, code: seq<byte>, rest: seq<byte>, sp: nat)
    requires sp % 8 == 0 && sp < TWO32 && sp + 4 * OnStack(args) <= |m| <= TWO32
    requires CodeAt(scratch, args) + |code| + |rest| == sp
    ensures scratch + |LeWords(BlockWords(sp, OnStack(args), args)) + code + rest| == sp
    ensures Prepared(Put(m, scratch, LeWords(BlockWords(sp, OnStack(args), args)) + code + rest), scratch, args, code, sp)
  {
    hide LeWords, BlockWords, WordAt, Put;
    var n := OnStack(args);
    var ws := BlockWords(sp, n, args);
    var x, tail := LeWords(ws), code + rest;
    assert x + code + rest == x + tail;
    var r := Put(m, scratch, x + tail);
    BlockIndex(sp, n, args, 0);
    BlockWordAt(m, scratch, ws, tail, 20);
    BlockWordAt(m, scratch, ws, tail, 21);
    forall i | 0 <= i < 18 ensures WordAt(r, StubSource(scratch, i)) == ENTRY_CODE[i] {
      BlockIndex(sp, n, args, i);
      BlockWordAt(m, scratch, ws, tail, i);
    }
    forall i | 0 <= i < n ensures WordAt(r, StackSource(scratch, i)) == args[4 + i] {
      BlockIndex(sp, n, args, i);
      BlockWordAt(m, scratch, ws, tail, 22 + i);
    }
    forall i | 0 <= i < 4 ensures WordAt(r, RegSource(scratch, args, i)) == Arg(args, i) {
      BlockIndex(sp, n, args, i);
      BlockWordAt(m, scratch, ws, tail, 22 + n + i);
    }
    PutSlice(m, scratch, x + tail, |x|, |x| + |code|);
    assert (x + tail)[|x|..|x| + |code|] == code;
  }

  /** `aw_fel_remotefunc_prepare`. */
  method Prepare(mem: array<byte>, scratch: nat, stackSize: nat, code: seq<byte>, args: seq<u32>) returns (sp: nat)
    requires Fits(mem.Length, scratch, args, |code|, stackSize)
    modifies mem
    ensures sp == NewSp(scratch, args, |code|, stackSize) && Prepared(mem[..], scratch, args, code, sp)
    ensures forall i :: 0 <= i < mem.Length && !(scratch <= i < sp) ==> mem[i] == old(mem[i])
  {
    hide LeWords, BlockWords, WordAt, Put, Prepared;
    sp := NewSp(scratch, args, |code|, stackSize);
    var words := FillBlock(sp, args);
    var rest := Zero(sp - CodeAt(scratch, args) - |code|);
    ghost var m := mem[..];
    var block := LeWords(words) + code + rest;
    PutBytes(mem, scratch, block);
    PutLeaves(m, scratch, block);
    BlockPrepared(m, scratch, args, code, rest, sp);
  }

  // ----- the stub

  /** The machine state in which the function is entered. */
  datatype Call = Call(entry: nat, r0: u32, r1: u32, r2: u32, r3: u32, sp: nat, lr: nat, mem: seq<byte>)

  /** What the uploaded function does: its result and the memory it leaves. */
  type Function = Call -> (u32, seq<byte>)

  /** The call is what the procedure call standard prescribes for word arguments. */
  ghost predicate Standard(c: Call, scratch: nat, args: seq<u32>, code: seq<byte>) {
    && c.entry == CodeAt(scratch, args) && c.entry + |code| <= c.sp && c.sp + 4 * OnStack(args) <= |c.mem|
    && c.mem[c.entry..c.entry + |code|] == code
    && c.r0 == Arg(args, 0) && c.r1 == Arg(args, 1) && c.r2 == Arg(args, 2) && c.r3 == Arg(args, 3)
    && c.sp % 8 == 0 && c.lr == scratch + 0x38
    && forall i :: 0 <= i < OnStack(args) ==> WordAt(c.mem, StackSlot(c.sp, i)) == args[4 + i]
  }

  function StackSlot(sp: nat, i: nat): nat {
    sp + 4 * i
  }

  /** The function leaves memory its size and the stub with its saved registers alone. */
  ghost predicate Tame(run: Function, scratch: nat) {
    forall c: Call :: |run(c).1| == |c.mem|
      && (scratch + 0x58 <= |c.mem| ==> run(c).1[scratch..scratch + 0x58] == c.mem[scratch..scratch + 0x58])
  }

  /** Words elsewhere are unaffected by a store. */
  lemma StoreElsewhere(m: seq<byte>, a: nat, bs: seq<byte>, b: nat)
    requires a + |bs| <= |m| && b + 4 <= |m| && (a + |bs| <= b || b + 4 <= a)
    ensures WordAt(Put(m, a, bs), b) == WordAt(m, b)
  {}

  lemma StoreHere(m: seq<byte>, a: nat, w: u32)
    requires a + 4 <= |m|
    ensures WordAt(Put(m, a, Le(w)), a) == w
  {
    hide Le, WordAt;
    PutSlice(m, a, Le(w), 0, 4);
    assert Le(w)[0..4] == Le(w);
    WordOfLe(Put(m, a, Le(w)), a, w);
  }

  /** A store into the save area or above the stack pointer keeps the block. */
  lemma StillPrepared(m: seq<byte>, scratch: nat, args: seq<u32>, code: seq<byte>, sp: nat, a: nat, bs: seq<byte>)
    requires Prepared(m, scratch, args, code, sp) && a + |bs| <= |m|
    requires scratch + 0x48 <= a && (a + |bs| <= scratch + 0x50 || sp <= a)
    ensures Prepared(Put(m, a, bs), scratch, args, code, sp)
  {
    hide WordAt, Put;
    var r := Put(m, a, bs);
    StoreElsewhere(m, a, bs, scratch + 0x50);
    StoreElsewhere(m, a, bs, scratch + 0x54);
    forall i | 0 <= i < 18 ensures WordAt(r, StubSource(scratch, i)) == ENTRY_CODE[i] {
      StoreElsewhere(m, a, bs, StubSource(scratch, i));
    }
    forall i | 0 <= i < OnStack(args) ensures WordAt(r, StackSource(scratch, i)) == args[4 + i] {
      StoreElsewhere(m, a, bs, StackSource(scratch, i));
    }
    forall i | 0 <= i < 4 ensures WordAt(r, RegSource(scratch, args, i)) == Arg(args, i) {
      StoreElsewhere(m, a, bs, RegSource(scratch, args, i));
    }
    PutOutside(m, a, bs, CodeAt(scratch, args), |code|);
  }

  /** While the stub pushes: `i` arguments are on the new stack, the return state is saved. */
  ghost predicate Pushed(m: seq<byte>, scratch: nat, args: seq<u32>, code: seq<byte>, sp: nat, i: nat, lr: u32, sp0: u32) {
    && Prepared(m, scratch, args, code, sp) && i <= OnStack(args)
    && WordAt(m, scratch + 0x48) == lr && WordAt(m, scratch + 0x4C) == sp0
    && forall k :: 0 <= k < i ==> WordAt(m, StackSlot(sp, k)) == args[4 + k]
  }

  lemma PushNext(m: seq<byte>, scratch: nat, args: seq<u32>, code: seq<byte>, sp: nat, i: nat, lr: u32, sp0: u32)
    requires Pushed(m, scratch, args, code, sp, i, lr, sp0) && i < OnStack(args)
    ensures sp + 4 * i + 4 <= |m| && StackSource(scratch, i) + 4 <= |m|
    ensures WordAt(m, StackSource(scratch, i)) == args[4 + i]
    ensures Pushed(Put(m, StackSlot(sp, i), Le(args[4 + i])), scratch, args, code, sp, i + 1, lr, sp0)
  {
    hide WordAt, Put, Le;
    var a, bs := StackSlot(sp, i), Le(args[4 + i]);
    StillPrepared(m, scratch, args, code, sp, a, bs);
    StoreElsewhere(m, a, bs, scratch + 0x48);
    StoreElsewhere(m, a, bs, scratch + 0x4C);
    StoreHere(m, a, args[4 + i]);
    forall k | 0 <= k < i ensures WordAt(Put(m, a, bs), StackSlot(sp, k)) == args[4 + k] {
      StoreElsewhere(m, a, bs, StackSlot(sp, k));
    }
  }

  lemma PushStart(m: seq<byte>, scratch: nat, args: seq<u32>, code: seq<byte>, sp: nat, lr: u32, sp0: u32)
    requires Prepared(m, scratch, args, code, sp)
    ensures scratch + 0x58 <= |m|
    ensures Pushed(Put(Put(m, scratch + 0x48, Le(lr)), scratch + 0x4C, Le(sp0)), scratch, args, code, sp, 0, lr, sp0)
  {
    hide WordAt, Put, Le;
    var m1 := Put(m, scratch + 0x48, Le(lr));
    StillPrepared(m, scratch, args, code, sp, scratch + 0x48, Le(lr));
    StillPrepared(m1, scratch, args, code, sp, scratch + 0x4C, Le(sp0));
    StoreHere(m, scratch + 0x48, lr);
    StoreHere(m1, scratch + 0x4C, sp0);
    StoreElsewhere(m1, scratch + 0x4C, Le(sp0), scratch + 0x48);
  }

  /** The instructions up to the call. */
  method EnterStub(mem: array<byte>, scratch: nat, sp0: u32, lr0: u32, ghost args: seq<u32>, ghost code: seq<byte>, ghost top: nat)
    returns (call: Call)
    requires Prepared(mem[..], scratch, args, code, top)
    modifies mem
    ensures Standard(call, scratch, args, code) && call.mem == mem[..] && call.sp == top
    ensures Pushed(mem[..], scratch, args, code, top, OnStack(args), lr0, sp0)
  {
    hide WordAt, Put, Le, Pushed, Prepared;
    PushStart(mem[..], scratch, args, code, top, lr0, sp0);
    StoreWord(mem, scratch + 0x48, Le(lr0));
    StoreWord(mem, scratch + 0x4C, Le(sp0));
    Operands(mem[..], scratch, args, code, top, 0, lr0, sp0);
    var sp := LoadWord(mem, scratch + 0x50);
    var ip: nat, r2: nat := scratch + 0x54, sp;
    var r0: nat := LoadWord(mem, ip);
    ip := ip + 4;
    ghost var i := 0;
    while r0 != 0
      invariant i + r0 == OnStack(args) && ip == StackSource(scratch, i) && r2 == StackSlot(top, i)
      invariant Pushed(mem[..], scratch, args, code, top, i, lr0, sp0)
      decreases r0
    {
      PushNext(mem[..], scratch, args, code, top, i, lr0, sp0);
      var r1 := LoadWord(mem, ip);
      ip := ip + 4;
      StoreWord(mem, r2, Le(r1));
      r2 := r2 + 4;
      r0, i := r0 - 1, i + 1;
    }
    Operands(mem[..], scratch, args, code, top, i, lr0, sp0);
    var a0 := LoadWord(mem, ip);
    var a1 := LoadWord(mem, ip + 4);
    var a2 := LoadWord(mem, ip + 8);
    var a3 := LoadWord(mem, ip + 12);
    ip := ip + 16;
    call := Call(ip, a0, a1, a2, a3, sp, scratch + 0x38, mem[..]);
    Entered(call, scratch, args, code, lr0, sp0);
  }

  lemma Operands(m: seq<byte>, scratch: nat, args: seq<u32>, code: seq<byte>, sp: nat, i: nat, lr: u32, sp0: u32)
    requires Pushed(m, scratch, args, code, sp, i, lr, sp0)
    ensures CodeAt(scratch, args) <= |m| && CodeAt(scratch, args) == RegSource(scratch, args, 4)
    ensures WordAt(m, scratch + 0x50) == sp && WordAt(m, scratch + 0x54) == OnStack(args)
    ensures WordAt(m, RegSource(scratch, args, 0)) == Arg(args, 0) && WordAt(m, RegSource(scratch, args, 1)) == Arg(args, 1)
    ensures WordAt(m, RegSource(scratch, args, 2)) == Arg(args, 2) && WordAt(m, RegSource(scratch, args, 3)) == Arg(args, 3)
  {
    hide WordAt;
  }

  lemma Entered(c: Call, scratch: nat, args: seq<u32>, code: seq<byte>, lr: u32, sp0: u32)
    requires Pushed(c.mem, scratch, args, code, c.sp, OnStack(args), lr, sp0)
    requires c.entry == CodeAt(scratch, args) && c.lr == scratch + 0x38
    requires c.r0 == Arg(args, 0) && c.r1 == Arg(args, 1) && c.r2 == Arg(args, 2) && c.r3 == Arg(args, 3)
    ensures Standard(c, scratch, args, code)
  {
    hide WordAt;
  }

  /**
   `aw_fel_remotefunc_execute`: enter the stub, call, and return.  The function
   is entered as the standard prescribes; stack pointer and return address are
   restored and the host reads the function's result.
   */
  method Execute(mem: array<byte>, scratch: nat, sp0: u32, lr0: u32, run: Function, ghost args: seq<u32>, ghost code: seq<byte>, ghost top: nat)
    returns (result: u32, sp: u32, lr: u32, call: Call)
    requires Prepared(mem[..], scratch, args, code, top) && Tame(run, scratch)
    modifies mem
    ensures Standard(call, scratch, args, code) && call.sp == top
    ensures result == run(call).0 && sp == sp0 && lr == lr0
    ensures |run(call).1| == mem.Length
    ensures forall i :: 0 <= i < mem.Length && !(scratch + 0x48 <= i < scratch + 0x4C) ==> mem[i] == run(call).1[i]
  {
    hide WordAt, Put, Le, Pushed, Prepared, Standard;
    call := EnterStub(mem, scratch, sp0, lr0, args, code, top);
    ghost var m := mem[..];
    Operands(m, scratch, args, code, top, OnStack(args), lr0, sp0);
    var (r0, after) := run(call);
    assert |after| == |m| && after[scratch..scratch + 0x58] == m[scratch..scratch + 0x58];
    LoadMemory(mem, after);
    SavedWord(m, after, scratch, args, code, top, lr0, sp0);
    lr := LoadWord(mem, scratch + 0x48);
    sp := LoadWord(mem, scratch + 0x4C);
    StoreWord(mem, scratch + 0x48, Le(r0));
    StoreHere(after, scratch + 0x48, r0);
    PutLeaves(after, scratch + 0x48, Le(r0));
    result := LoadWord(mem, scratch + 0x48);
  }

  lemma SavedWord(m: seq<byte>, after: seq<byte>, scratch: nat, args: seq<u32>, code: seq<byte>, sp: nat, lr: u32, sp0: u32)
    requires Pushed(m, scratch, args, code, sp, OnStack(args), lr, sp0)
    requires |after| == |m| && scratch + 0x58 <= |m| && after[scratch..scratch + 0x58] == m[scratch..scratch + 0x58]
    ensures WordAt(after, scratch + 0x48) == lr && WordAt(after, scratch + 0x4C) == sp0
  {
    SameWord(after, scratch, m, scratch, 0x58, 0x48);
    SameWord(after, scratch, m, scratch, 0x58, 0x4C);
  }
}
