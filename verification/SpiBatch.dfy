/**
 The batch interpreter that runs on the SoC: length-prefixed transfers and
 waits, terminated by a zero code, executed from SRAM with the replies stored
 over the data.
 */
module SpiBatch {
  import opened BitVectors
  import opened SpiChip
  import opened SpiTransfer

  /** One entry of a batch. */
  datatype Cmd = Transfer(tx: seq<byte>) | Wait

  predicate CmdOk(c: Cmd) {
    c.Transfer? ==> 0 < |c.tx| < 0xFFFF
  }

  predicate BatchOk(cs: seq<Cmd>) {
    forall i :: 0 <= i < |cs| ==> CmdOk(cs[i])
  }

  function Header(n: nat): (r: seq<byte>)
    requires n < 0x1_0000
    ensures |r| == 2 && 0x100 * (r[0] as nat) + r[1] as nat == n
  {
    [n / 0x100, n % 0x100]
  }

  function Encode1(c: Cmd): (r: seq<byte>)
    requires CmdOk(c)
  {
    match c
    case Transfer(tx) => Header(|tx|) + tx
    case Wait => [0xFF, 0xFF]
  }

  /** The bytes of a batch, without the end marker. */
  function Encode(cs: seq<Cmd>): (r: seq<byte>)
    requires BatchOk(cs)
  {
    if cs == [] then [] else Encode1(cs[0]) + Encode(cs[1..])
  }

  /** The chip after a command; waiting lets the chip finish. */
  function Perform(c: Chip, cmd: Cmd): Chip {
    match cmd
    case Transfer(tx) => Finish(c, tx)
    case Wait => c.(busy := 0)
  }

  function RunCmds(c: Chip, cs: seq<Cmd>): Chip
    decreases |cs|
  {
    if cs == [] then c else RunCmds(Perform(c, cs[0]), cs[1..])
  }

  function After1(c: Chip, cmd: Cmd): (r: seq<byte>)
    requires CmdOk(cmd)
  {
    match cmd
    case Transfer(tx) => Header(|tx|) + Replies(c, tx)
    case Wait => [0xFF, 0xFF]
  }

  /** The batch memory once every transfer has been overwritten by its replies. */
  function After(c: Chip, cs: seq<Cmd>): (r: seq<byte>)
    requires BatchOk(cs)
    ensures |r| == |Encode(cs)|
    decreases |cs|
  {
    if cs == [] then [] else After1(c, cs[0]) + After(Perform(c, cs[0]), cs[1..])
  }

  lemma {:induction false} EncodeConcat(a: seq<Cmd>, b: seq<Cmd>)
    requires BatchOk(a) && BatchOk(b)
    ensures BatchOk(a + b) && Encode(a + b) == Encode(a) + Encode(b)
    decreases |a|
  {
    hide Encode1;
    if a == [] {
      assert a + b == b;
    } else {
      EncodeConcat(a[1..], b);
      assert (a + b)[1..] == a[1..] + b;
    }
  }

  lemma {:induction false} RunConcat(c: Chip, a: seq<Cmd>, b: seq<Cmd>)
    ensures RunCmds(c, a + b) == RunCmds(RunCmds(c, a), b)
    decreases |a|
  {
    hide Perform;
    if a == [] {
      assert a + b == b;
    } else {
      RunConcat(Perform(c, a[0]), a[1..], b);
      assert (a + b)[1..] == a[1..] + b;
    }
  }

  /** What is left in memory: the encoded rest, the end marker, other bytes. */
  ghost function Rest(rem: seq<Cmd>, tail: seq<byte>): seq<byte>
    requires BatchOk(rem)
  {
    Encode(rem) + [0, 0] + tail
  }

  /** Where the interpreter stands: `done` processed, `rem` still encoded. */
  ghost predicate Standing(sram: seq<byte>, p: nat, done: seq<byte>, rem: seq<Cmd>, tail: seq<byte>) {
    BatchOk(rem) && |done| == p && sram == done + Rest(rem, tail)
  }

  lemma RestUnfold(rem: seq<Cmd>, tail: seq<byte>)
    requires BatchOk(rem) && rem != []
    ensures Rest(rem, tail) == Encode1(rem[0]) + Rest(rem[1..], tail)
  {
    hide Encode1;
    assert Encode(rem) == Encode1(rem[0]) + Encode(rem[1..]);
  }

  lemma Middle(s: seq<byte>, a: seq<byte>, b: seq<byte>, c: seq<byte>)
    requires s == a + (b + c)
    ensures |a| + |b| <= |s| && s[..|a|] == a && s[|a|..|a| + |b|] == b && s[|a| + |b|..] == c
  {}

  lemma CodeAt(sram: seq<byte>, p: nat, done: seq<byte>, rem: seq<Cmd>, tail: seq<byte>)
    requires Standing(sram, p, done, rem, tail)
    ensures p + 2 <= |sram|
    ensures rem == [] ==> sram[p] == 0 && sram[p + 1] == 0
    ensures rem != [] && rem[0].Wait? ==> sram[p] == 0xFF && sram[p + 1] == 0xFF
    ensures rem != [] && rem[0].Transfer? ==>
              var n := |rem[0].tx|;
              p + 2 + n <= |sram| && sram[p..p + 2] == Header(n) && sram[p + 2..p + 2 + n] == rem[0].tx
  {
    hide Header, Encode;
    if rem == [] {
      EncodeNothing();
      assert Rest(rem, tail) == [0, 0] + tail;
      Middle(sram, done, [0, 0], tail);
    } else {
      hide Rest;
      var e, rest := Encode1(rem[0]), Rest(rem[1..], tail);
      RestUnfold(rem, tail);
      Middle(sram, done, e, rest);
      if rem[0].Transfer? {
        var h, tx := Header(|rem[0].tx|), rem[0].tx;
        assert sram == done + (h + (tx + rest));
        Middle(sram, done, h, tx + rest);
        assert sram == (done + h) + (tx + rest);
        Middle(sram, done + h, tx, rest);
      }
    }
  }

  lemma NextStanding(sram: seq<byte>, sram': seq<byte>, p: nat, done: seq<byte>, rem: seq<Cmd>, tail: seq<byte>, c: Chip)
    requires Standing(sram, p, done, rem, tail) && rem != []
    requires var e := After1(c, rem[0]); p + |e| <= |sram| && sram' == sram[..p] + e + sram[p + |e|..]
    ensures var e := After1(c, rem[0]); Standing(sram', p + |e|, done + e, rem[1..], tail)
  {
    hide Header, Replies, Encode, Rest;
    var e, e1 := After1(c, rem[0]), Encode1(rem[0]);
    assert |e| == |e1|;
    RestUnfold(rem, tail);
    Middle(sram, done, e1, Rest(rem[1..], tail));
  }

  /**
   `spi_batch_data_transfer` over the batch `cs` placed at the start of `sram`
   (whose address is `addr`): performs the commands in order, leaving the replies
   in place and all memory behind the batch alone.
   */
  method BatchDataTransfer(sram: array<byte>, addr: nat, spi: Spi, ghost cs: seq<Cmd>)
    requires BatchOk(cs) && Encode(cs) + [0, 0] <= sram[..]
    requires spi.Valid() && spi.Quiet()
    modifies sram, spi
    ensures spi.Valid() && spi.Quiet()
    ensures spi.chip == RunCmds(old(spi.chip), cs)
    ensures sram[..] == After(old(spi.chip), cs) + old(sram[..])[|Encode(cs)|..]
  {
    hide Encode, Encode1, Header, After, After1, RunCmds, Replies, Finish, Perform, At;
    ghost var c0, all := spi.chip, sram[..];
    ghost var tail := all[|Encode(cs)| + 2..];
    ghost var done, rem := [], cs;
    var p: nat := 0;
    StartStanding(all, cs, tail);
    Begins(all, c0, cs, tail);
    while true
      invariant spi.Valid() && spi.Quiet()
      invariant At(sram[..], spi.chip, p, done, rem, tail, c0, cs)
      decreases |rem|, spi.chip.busy
    {
      CodeHere(sram[..], spi.chip, p, done, rem, tail, c0, cs);
      var code := 0x100 * (sram[p] as nat) + sram[p + 1] as nat;
      if code == 0 {
        break;
      }
      ghost var was, c := sram[..], spi.chip;
      if code == 0xFFFF {
        var busy := PollBusy(spi);
        StepWait(was, c, spi.chip, p, done, rem, tail, c0, cs);
        if !busy {
          p, done, rem := p + 2, done + [0xFF, 0xFF], rem[1..];
        }
      } else {
        DataTransfer(sram, p + 2, code, addr + p + 2, spi);
        StepTransfer(was, sram[..], c, p, code, done, rem, tail, c0, cs);
        p, done, rem := p + 2 + code, done + After1(c, rem[0]), rem[1..];
      }
    }
    Ends(sram[..], spi.chip, p, done, rem, tail, c0, cs, all);
  }

  /** The loop invariant: what is left to do completes the whole batch. */
  ghost predicate At(sram: seq<byte>, c: Chip, p: nat, done: seq<byte>, rem: seq<Cmd>, tail: seq<byte>, c0: Chip, cs: seq<Cmd>) {
    && BatchOk(rem) && BatchOk(cs)
    && Standing(sram, p, done, rem, tail)
    && RunCmds(c0, cs) == RunCmds(c, rem)
    && After(c0, cs) == done + After(c, rem)
  }

  lemma Begins(all: seq<byte>, c0: Chip, cs: seq<Cmd>, tail: seq<byte>)
    requires BatchOk(cs) && Standing(all, 0, [], cs, tail)
    ensures At(all, c0, 0, [], cs, tail, c0, cs)
  {
    hide Standing, RunCmds, After;
    assert [] + After(c0, cs) == After(c0, cs);
  }

  lemma CodeHere(sram: seq<byte>, c: Chip, p: nat, done: seq<byte>, rem: seq<Cmd>, tail: seq<byte>, c0: Chip, cs: seq<Cmd>)
    requires At(sram, c, p, done, rem, tail, c0, cs)
    ensures p + 2 <= |sram|
    ensures var code := 0x100 * (sram[p] as nat) + sram[p + 1] as nat;
            && (code == 0 <==> rem == [])
            && (code == 0xFFFF <==> rem != [] && rem[0].Wait?)
            && (rem != [] && rem[0].Transfer? ==>
                  code == |rem[0].tx| && p + 2 + code <= |sram| && sram[p + 2..p + 2 + code] == rem[0].tx)
  {
    hide Standing, RunCmds, After, Header;
    CodeAt(sram, p, done, rem, tail);
    CodeMeans(sram, p, rem, 0x100 * (sram[p] as nat) + sram[p + 1] as nat);
  }

  lemma StepTransfer(was: seq<byte>, now: seq<byte>, c: Chip, p: nat, n: nat, done: seq<byte>, rem: seq<Cmd>,
                     tail: seq<byte>, c0: Chip, cs: seq<Cmd>)
    requires At(was, c, p, done, rem, tail, c0, cs)
    requires rem != [] && rem[0].Transfer? && n == |rem[0].tx| && p + 2 + n <= |was|
    requires now == was[..p + 2] + Replies(c, rem[0].tx) + was[p + 2 + n..]
    ensures At(now, Finish(c, rem[0].tx), p + 2 + n, done + After1(c, rem[0]), rem[1..], tail, c0, cs)
  {
    hide Standing, RunCmds, After, After1, Header, Replies, Finish, Perform;
    CodeAt(was, p, done, rem, tail);
    Unfold(c, rem);
    Performed(c, rem[0]);
    Overwritten(was, now, p, n, c, rem[0]);
    NextStanding(was, now, p, done, rem, tail, c);
    Regroup(done, After1(c, rem[0]), After(Finish(c, rem[0].tx), rem[1..]));
  }

  lemma Regroup(a: seq<byte>, b: seq<byte>, c: seq<byte>)
    ensures a + (b + c) == (a + b) + c
  {}

  lemma StepWait(sram: seq<byte>, c: Chip, c': Chip, p: nat, done: seq<byte>, rem: seq<Cmd>,
                 tail: seq<byte>, c0: Chip, cs: seq<Cmd>)
    requires At(sram, c, p, done, rem, tail, c0, cs)
    requires rem != [] && rem[0].Wait? && c' == c.(busy := c'.busy)
    ensures At(sram, c', p, done, rem, tail, c0, cs)
    ensures c'.busy == 0 ==> At(sram, c', p + 2, done + [0xFF, 0xFF], rem[1..], tail, c0, cs)
  {
    hide Standing, RunCmds, After, Header;
    CodeAt(sram, p, done, rem, tail);
    WaitAgain(c, c', rem);
    Unfold(c', rem);
    WaitIntact(sram, p, c', rem[0]);
    NextStanding(sram, sram, p, done, rem, tail, c');
    Regroup(done, [0xFF, 0xFF], After(c'.(busy := 0), rem[1..]));
  }

  lemma Ends(sram: seq<byte>, c: Chip, p: nat, done: seq<byte>, rem: seq<Cmd>, tail: seq<byte>, c0: Chip, cs: seq<Cmd>, all: seq<byte>)
    requires At(sram, c, p, done, rem, tail, c0, cs) && rem == []
    requires Encode(cs) + [0, 0] <= all && tail == all[|Encode(cs)| + 2..]
    ensures c == RunCmds(c0, cs)
    ensures sram == After(c0, cs) + all[|Encode(cs)|..]
  {
    hide Standing, RunCmds, After, Encode;
    Finished(c, rem);
    EndStanding(sram, p, done, tail, all, cs);
    assert done + [] == done;
  }

  lemma StartStanding(all: seq<byte>, cs: seq<Cmd>, tail: seq<byte>)
    requires BatchOk(cs) && Encode(cs) + [0, 0] <= all && tail == all[|Encode(cs)| + 2..]
    ensures Standing(all, 0, [], cs, tail)
  {
    hide Encode;
    assert all == [] + (Encode(cs) + [0, 0] + tail);
  }

  lemma EndStanding(sram: seq<byte>, p: nat, done: seq<byte>, tail: seq<byte>, all: seq<byte>, cs: seq<Cmd>)
    requires Standing(sram, p, done, [], tail)
    requires BatchOk(cs) && Encode(cs) + [0, 0] <= all && tail == all[|Encode(cs)| + 2..]
    ensures sram == done + all[|Encode(cs)|..]
  {
    hide Encode;
    EncodeNothing();
    var n := |Encode(cs)|;
    assert all[n..n + 2] == (Encode(cs) + [0, 0])[n..n + 2] == [0, 0];
    assert all[n..] == [0, 0] + tail;
  }

  /** The wait loop's status read; the answer says whether the chip was busy. */
  method PollBusy(spi: Spi) returns (busy: bool)
    requires spi.Valid() && spi.Quiet()
    modifies spi
    ensures spi.Valid() && spi.Quiet()
    ensures busy <==> old(spi.chip.busy) > 0
    ensures spi.chip == old(spi.chip).(busy := if old(spi.chip.busy) > 0 then old(spi.chip.busy) - 1 else 0)
  {
    var cmd := new byte[2];
    cmd[0] := CMD_STATUS;
    ghost var c, tx := spi.chip, cmd[..];
    assert cmd[0..2] == tx && cmd[..0] == [] && cmd[2..] == [];
    DataTransfer(cmd, 0, 2, 0, spi);
    StatusReply(c, tx);
    busy := cmd[1] % 2 == 1;
  }

  lemma StatusReply(c: Chip, tx: seq<byte>)
    requires |tx| == 2 && tx[0] == CMD_STATUS
    ensures Replies(c, tx)[1] % 2 == 1 <==> c.busy > 0
    ensures Finish(c, tx) == c.(busy := if c.busy > 0 then c.busy - 1 else 0)
  {
    assert tx[..1] == [CMD_STATUS];
    assert Replies(c, tx)[1] == Reply(c, [CMD_STATUS]);
  }

  /** What the code word at the current position says. */
  lemma CodeMeans(sram: seq<byte>, p: nat, rem: seq<Cmd>, code: nat)
    requires BatchOk(rem) && p + 2 <= |sram| && code == 0x100 * (sram[p] as nat) + sram[p + 1] as nat
    requires rem == [] ==> sram[p] == 0 && sram[p + 1] == 0
    requires rem != [] && rem[0].Wait? ==> sram[p] == 0xFF && sram[p + 1] == 0xFF
    requires rem != [] && rem[0].Transfer? ==> sram[p..p + 2] == Header(|rem[0].tx|)
    ensures code == 0 <==> rem == []
    ensures code == 0xFFFF <==> rem != [] && rem[0].Wait?
    ensures rem != [] && rem[0].Transfer? ==> code == |rem[0].tx|
  {
    if rem != [] && rem[0].Transfer? {
      assert CmdOk(rem[0]);
      assert sram[p..p + 2][0] == sram[p] && sram[p..p + 2][1] == sram[p + 1];
    }
  }

  lemma EncodeNothing()
    ensures Encode([]) == []
  {}

  lemma Finished(c: Chip, rem: seq<Cmd>)
    requires BatchOk(rem)
    ensures rem == [] ==> RunCmds(c, rem) == c && After(c, rem) == [] && Encode(rem) == []
  {}

  lemma Unfold(c: Chip, rem: seq<Cmd>)
    requires BatchOk(rem) && rem != []
    ensures RunCmds(c, rem) == RunCmds(Perform(c, rem[0]), rem[1..])
    ensures After(c, rem) == After1(c, rem[0]) + After(Perform(c, rem[0]), rem[1..])
    ensures rem[0].Wait? ==> Perform(c, rem[0]) == c.(busy := 0)
  {}

  lemma Performed(c: Chip, cmd: Cmd)
    ensures cmd.Transfer? ==> Perform(c, cmd) == Finish(c, cmd.tx)
  {}

  /** A wait does not care how much of the busy time has already passed. */
  lemma WaitAgain(c: Chip, c': Chip, rem: seq<Cmd>)
    requires BatchOk(rem) && rem != [] && rem[0].Wait? && c' == c.(busy := c'.busy)
    ensures RunCmds(c, rem) == RunCmds(c', rem) && After(c, rem) == After(c', rem)
  {}

  lemma WaitIntact(sram: seq<byte>, p: nat, c: Chip, cmd: Cmd)
    requires cmd.Wait? && p + 2 <= |sram| && sram[p] == 0xFF && sram[p + 1] == 0xFF
    ensures |After1(c, cmd)| == 2
    ensures sram == sram[..p] + After1(c, cmd) + sram[p + |After1(c, cmd)|..]
  {}

  lemma Overwritten(was: seq<byte>, now: seq<byte>, p: nat, n: nat, c: Chip, cmd: Cmd)
    requires cmd.Transfer? && CmdOk(cmd) && |cmd.tx| == n && p + 2 + n <= |was|
    requires was[p..p + 2] == Header(n) && was[p + 2..p + 2 + n] == cmd.tx
    requires now == was[..p + 2] + Replies(c, cmd.tx) + was[p + 2 + n..]
    ensures |After1(c, cmd)| == n + 2
    ensures now == was[..p] + After1(c, cmd) + was[p + |After1(c, cmd)|..]
  {
    hide Header, Replies;
    assert was[..p + 2] == was[..p] + was[p..p + 2];
  }
}
