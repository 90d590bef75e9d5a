/**
 The full-duplex transfer loop that runs on the SoC against the SPI controller's
 two FIFOs, for every timing of the hardware.

 The controller shifts bytes whenever it likes: before every register access an
 arbitrary number of bytes may have moved.  Fair hardware is bounded patience:
 only finitely many polls in a row may find it idle while it could shift.  The
 controller stalls on a full receive FIFO, which stands for the assumption that
 the CPU is fast enough to prevent an overflow.
 */
module SpiTransfer {
  import opened BitVectors
  import opened SpiChip

  const FIFO_SIZE: nat := 64

  /** The SPI controller with the chip behind it. */
  class Spi {
    var chip: Chip
    var txFifo: seq<byte>
    var rxFifo: seq<byte>
    /** Bytes the chip has received since it was selected. */
    var sent: seq<byte>
    /** How many more polls may find the hardware idle although it could shift. */
    var patience: nat

    ghost predicate Valid()
      reads this
    {
      && |txFifo| < FIFO_SIZE
      && |rxFifo| <= FIFO_SIZE
      && |rxFifo| <= |sent|
      && rxFifo == Replies(chip, sent)[|sent| - |rxFifo|..]
    }

    /** Both FIFOs empty, nothing in progress. */
    ghost predicate Quiet()
      reads this
    {
      txFifo == [] && rxFifo == []
    }

    predicate CanShift()
      reads this
    {
      |txFifo| > 0 && |rxFifo| < FIFO_SIZE
    }

    /** What any stretch of hardware activity keeps. */
    twostate predicate Moved()
      reads this
    {
      && Valid()
      && chip == old(chip)
      && sent + txFifo == old(sent + txFifo)
      && |old(sent)| <= |sent|
      && |sent| - |rxFifo| == old(|sent| - |rxFifo|)
    }

    constructor (chip: Chip)
      ensures Valid() && Quiet() && this.chip == chip
    {
      this.chip := chip;
      txFifo, rxFifo, sent, patience := [], [], [], 0;
    }

    /** The hardware exchanges one byte with the chip. */
    method Shift()
      requires Valid() && CanShift()
      modifies this
      ensures Moved() && |sent| == old(|sent|) + 1 && patience == old(patience)
    {
      ghost var s := sent;
      var b := txFifo[0];
      rxFifo := rxFifo + [Reply(chip, sent)];
      sent := sent + [b];
      txFifo := txFifo[1..];
      ShiftedReplies(chip, s, b, |s| - |old(rxFifo)|);
      assert old(sent + txFifo) == s + ([b] + txFifo);
    }

    /** The hardware moves some bytes, possibly none. */
    method Advance()
      requires Valid()
      modifies this
      ensures Moved() && patience == old(patience)
    {
      var k: nat :| k <= FIFO_SIZE;
      while k > 0 && CanShift()
        invariant Moved() && patience == old(patience)
        decreases k
      {
        Shift();
        k := k - 1;
      }
    }

    /** Read the FIFO status register. */
    method Poll() returns (rx: nat, tx: nat)
      requires Valid()
      modifies this
      ensures Moved() && rx == |rxFifo| && tx == |txFifo|
      ensures old(CanShift()) && |sent| == old(|sent|) ==> patience < old(patience)
      ensures |sent| == old(|sent|) ==> patience <= old(patience)
    {
      var able := CanShift();
      var before := |sent|;
      Advance();
      if able && |sent| == before {
        if patience == 0 { Shift(); } else { patience := patience - 1; }
      }
      if |sent| > before {
        var more: nat :| more >= 0;
        patience := more;
      }
      rx, tx := |rxFifo|, |txFifo|;
    }

    method WriteTx(bs: seq<byte>)
      requires Valid() && |txFifo| + |bs| < FIFO_SIZE
      modifies this
      ensures Valid() && chip == old(chip) && |sent| >= old(|sent|)
      ensures sent + txFifo == old(sent + txFifo) + bs
      ensures |sent| - |rxFifo| == old(|sent| - |rxFifo|)
    {
      Advance();
      ghost var all := sent + txFifo;
      txFifo := txFifo + bs;
      assert sent + txFifo == all + bs;
    }

    method ReadRx(k: nat) returns (bs: seq<byte>)
      requires Valid() && k <= |rxFifo|
      modifies this
      ensures Valid() && chip == old(chip) && |sent| >= old(|sent|)
      ensures sent + txFifo == old(sent + txFifo)
      ensures |sent| - |rxFifo| == old(|sent| - |rxFifo|) + k
      ensures bs == Replies(chip, sent)[|sent| - |rxFifo| - k..|sent| - |rxFifo|]
    {
      Advance();
      bs := rxFifo[..k];
      rxFifo := rxFifo[k..];
    }

    /** Select the chip for a burst. */
    method Begin()
      requires Valid() && Quiet()
      modifies this
      ensures Valid() && Quiet() && sent == [] && chip == old(chip)
    {
      sent := [];
    }

    /** All bytes exchanged: the chip is deselected and acts. */
    method End()
      requires Valid() && Quiet()
      modifies this
      ensures Valid() && Quiet() && chip == Finish(old(chip), old(sent))
    {
      chip := Finish(chip, sent);
    }
  }

  lemma ShiftedReplies(c: Chip, s: seq<byte>, b: byte, from: nat)
    requires from <= |s|
    ensures Replies(c, s)[from..] + [Reply(c, s)] == Replies(c, s + [b])[from..]
  {
    hide Reply;
    RepliesPrefix(c, s, [b]);
    var r := Replies(c, s + [b]);
    assert (s + [b])[..|s|] == s;
    assert r == r[..|s|] + [Reply(c, s)];
  }

  /** The buffer half overwritten: replies below `rx`, unsent data above. */
  ghost function Half(c: Chip, data: seq<byte>, rx: nat): (r: seq<byte>)
    requires rx <= |data|
    ensures |r| == |data|
  {
    Replies(c, data)[..rx] + data[rx..]
  }

  /**
   The state of a transfer after `tx` bytes were queued and `rx` replies stored.
   Every stored reply belongs to a byte already shifted out, so no unsent byte
   is ever overwritten.
   */
  ghost predicate Progress(mem: array<byte>, all: seq<byte>, p: nat, n: nat, spi: Spi, c: Chip, rx: nat, tx: nat)
    requires p + n <= |all|
    reads mem, spi
  {
    && mem.Length == |all|
    && spi.Valid()
    && spi.chip == c
    && rx <= |spi.sent| <= tx <= n
    && spi.sent + spi.txFifo == all[p..p + n][..tx]
    && |spi.sent| - |spi.rxFifo| == rx
    && mem[..] == all[..p] + Half(c, all[p..p + n], rx) + all[p + n..]
  }

  /** Queue `k` bytes of the buffer. */
  method Send(mem: array<byte>, ghost all: seq<byte>, p: nat, n: nat, spi: Spi, ghost c: Chip, ghost rx: nat, tx: nat, k: nat)
    requires p + n <= |all| && Progress(mem, all, p, n, spi, c, rx, tx)
    requires tx + k <= n && |spi.txFifo| + k < FIFO_SIZE
    modifies spi
    ensures Progress(mem, all, p, n, spi, c, rx, tx + k)
    ensures |spi.txFifo| <= old(|spi.txFifo|) + k
  {
    hide Replies;
    ghost var data := all[p..p + n];
    UnsentIntact(all, p, n, c, rx, tx, k, mem[..]);
    spi.WriteTx(mem[p + tx..p + tx + k]);
    assert data[..tx + k] == data[..tx] + data[tx..tx + k];
  }

  lemma UnsentIntact(all: seq<byte>, p: nat, n: nat, c: Chip, rx: nat, tx: nat, k: nat, now: seq<byte>)
    requires p + n <= |all| && rx <= tx && tx + k <= n
    requires now == all[..p] + Half(c, all[p..p + n], rx) + all[p + n..]
    ensures now[p + tx..p + tx + k] == all[p..p + n][tx..tx + k]
  {
    hide Replies, Half;
    var data, half := all[p..p + n], Half(c, all[p..p + n], rx);
    HalfRest(c, data, rx);
    RestSlice(half, rx, tx, k);
    RestSlice(data, rx, tx, k);
    assert now[p..p + n] == half;
    assert now[p + tx..p + tx + k] == now[p..p + n][tx..tx + k];
  }

  lemma RestSlice(s: seq<byte>, a: nat, i: nat, k: nat)
    requires a <= i && i + k <= |s|
    ensures s[i..i + k] == s[a..][i - a..i - a + k]
  {
    var rest := s[a..];
    assert rest[i - a..i - a + k] == s[i..i + k];
  }

  lemma HalfRest(c: Chip, data: seq<byte>, rx: nat)
    requires rx <= |data|
    ensures Half(c, data, rx)[rx..] == data[rx..]
  {
    hide Replies;
  }

  /** Store `k` replies over bytes that have been sent. */
  method Receive(mem: array<byte>, ghost all: seq<byte>, p: nat, n: nat, spi: Spi, ghost c: Chip, rx: nat, ghost tx: nat, k: nat)
    requires p + n <= |all| && Progress(mem, all, p, n, spi, c, rx, tx)
    requires k <= |spi.rxFifo|
    modifies mem, spi
    ensures Progress(mem, all, p, n, spi, c, rx + k, tx)
    ensures |spi.txFifo| <= old(|spi.txFifo|)
  {
    hide Replies, Half;
    ghost var data := all[p..p + n];
    var bs := spi.ReadRx(k);
    ghost var now := mem[..];
    StoredReplies(c, spi.sent, spi.txFifo, data, tx, rx, k);
    StoreAt(mem, p + rx, bs);
    HalfNext(all, p, n, c, rx, k, now, bs);
  }

  method StoreAt(mem: array<byte>, at: nat, bs: seq<byte>)
    requires at + |bs| <= mem.Length
    modifies mem
    ensures mem[..] == old(mem[..])[..at] + bs + old(mem[..])[at + |bs|..]
  {
    ghost var now := mem[..];
    for i := 0 to |bs|
      invariant forall j :: 0 <= j < i ==> mem[at + j] == bs[j]
      invariant forall j :: 0 <= j < mem.Length && !(at <= j < at + i) ==> mem[j] == now[j]
    {
      mem[at + i] := bs[i];
    }
  }

  lemma StoredReplies(c: Chip, sent: seq<byte>, queue: seq<byte>, data: seq<byte>, tx: nat, rx: nat, k: nat)
    requires tx <= |data| && sent + queue == data[..tx] && rx + k <= |sent|
    ensures Replies(c, sent)[rx..rx + k] == Replies(c, data)[rx..rx + k]
  {
    hide Replies;
    var rest := queue + data[tx..];
    assert sent + rest == data;
    RepliesPrefix(c, sent, rest);
    assert Replies(c, data)[rx..rx + k] == Replies(c, data)[..|sent|][rx..rx + k];
  }

  lemma HalfNext(all: seq<byte>, p: nat, n: nat, c: Chip, rx: nat, k: nat, now: seq<byte>, bs: seq<byte>)
    requires p + n <= |all| && rx + k <= n && |bs| == k
    requires now == all[..p] + Half(c, all[p..p + n], rx) + all[p + n..]
    requires bs == Replies(c, all[p..p + n])[rx..rx + k]
    ensures now[..p + rx] + bs + now[p + rx + k..] == all[..p] + Half(c, all[p..p + n], rx + k) + all[p + n..]
  {
    hide Replies;
    var data := all[p..p + n];
    assert Half(c, data, rx + k) == Replies(c, data)[..rx] + bs + data[rx + k..];
  }

  /** Bytes from `addr` to the next word boundary. */
  function ToBoundary(addr: nat): (r: nat)
    ensures r < 4 && (addr + r) % 4 == 0
  {
    (4 - addr % 4) % 4
  }

  /** Fill the transmit FIFO with the first `cnt0` bytes. */
  method Fill(mem: array<byte>, ghost all: seq<byte>, p: nat, n: nat, spi: Spi, ghost c: Chip, cnt0: nat) returns (tx: nat)
    requires p + n <= |all| && Progress(mem, all, p, n, spi, c, 0, 0) && cnt0 <= n && cnt0 < FIFO_SIZE
    modifies spi
    ensures tx == cnt0 && Progress(mem, all, p, n, spi, c, 0, tx)
  {
    hide Replies;
    var cnt := cnt0;
    tx := 0;
    while cnt > 0
      invariant tx + cnt == cnt0 && Progress(mem, all, p, n, spi, c, 0, tx) && |spi.txFifo| <= tx
    {
      Send(mem, all, p, n, spi, c, 0, tx, 1);
      cnt, tx := cnt - 1, tx + 1;
    }
  }

  /** Read the status register during a transfer. */
  method PollStatus(mem: array<byte>, ghost all: seq<byte>, p: nat, n: nat, spi: Spi, ghost c: Chip, ghost rx: nat, ghost tx: nat)
    returns (rxfifo: nat, txfifo: nat)
    requires p + n <= |all| && Progress(mem, all, p, n, spi, c, rx, tx)
    modifies spi
    ensures Progress(mem, all, p, n, spi, c, rx, tx)
    ensures rxfifo == |spi.rxFifo| && txfifo == |spi.txFifo| <= old(|spi.txFifo|)
    ensures rx + rxfifo + txfifo == tx <= n
    ensures txfifo == old(|spi.txFifo|) && 0 < txfifo && rxfifo < FIFO_SIZE ==> spi.patience < old(spi.patience)
  {
    hide Replies;
    QueueSize(mem, all, p, n, spi, c, rx, tx);
    rxfifo, txfifo := spi.Poll();
    QueueSize(mem, all, p, n, spi, c, rx, tx);
  }

  /** Receive single bytes up to a word boundary. */
  method ReceiveHead(mem: array<byte>, ghost all: seq<byte>, p: nat, n: nat, spi: Spi, ghost c: Chip, ghost tx: nat, head: nat)
    returns (rx: nat)
    requires p + n <= |all| && Progress(mem, all, p, n, spi, c, 0, tx) && head <= tx
    modifies mem, spi
    ensures rx == head && Progress(mem, all, p, n, spi, c, rx, tx)
  {
    hide Replies, Progress;
    var cnt := head;
    rx := 0;
    while cnt > 0
      invariant Progress(mem, all, p, n, spi, c, rx, tx) && rx + cnt == head <= tx
      decreases cnt, |spi.txFifo|, spi.patience
    {
      var rxfifo, _ := PollStatus(mem, all, p, n, spi, c, rx, tx);
      if rxfifo > 0 {
        Receive(mem, all, p, n, spi, c, rx, tx, 1);
        cnt, rx := cnt - 1, rx + 1;
      }
    }
  }

  lemma QueueSize(mem: array<byte>, all: seq<byte>, p: nat, n: nat, spi: Spi, c: Chip, rx: nat, tx: nat)
    requires p + n <= |all| && Progress(mem, all, p, n, spi, c, rx, tx)
    ensures |spi.sent| + |spi.txFifo| == tx && rx + |spi.rxFifo| + |spi.txFifo| == tx
  {
    hide Replies;
    assert |spi.sent + spi.txFifo| == tx;
  }

  /** Progress of the duplex loops: what one step of either side decreases. */
  ghost function Work(n: nat, rx: nat, tx: nat, spi: Spi): int
    reads spi
  {
    3 * (n - rx) + 2 * (n - tx) + |spi.txFifo|
  }

  /**
   Exchange units of `k` bytes until less than one unit is missing.  While bytes
   are left to queue, those in flight are a whole number of units, so the loop
   never waits for a unit that cannot arrive.
   */
  method Exchange(mem: array<byte>, ghost all: seq<byte>, p: nat, n: nat, spi: Spi, ghost c: Chip, rx0: nat, tx0: nat, k: nat)
    returns (rx: nat, tx: nat)
    requires k == 1 || k == 4
    requires p + n <= |all| && Progress(mem, all, p, n, spi, c, rx0, tx0) && rx0 <= tx0 <= n
    requires tx0 < n ==> (tx0 - rx0) % k == 0
    modifies mem, spi
    ensures Progress(mem, all, p, n, spi, c, rx, tx)
    ensures rx <= tx <= n && n - rx < k && (tx < n ==> (tx - rx) % k == 0)
  {
    hide Replies, Progress;
    rx, tx := rx0, tx0;
    while n - rx >= k
      invariant Progress(mem, all, p, n, spi, c, rx, tx) && rx <= tx <= n
      invariant tx < n ==> (tx - rx) % k == 0
      decreases Work(n, rx, tx, spi), spi.patience
    {
      rx, tx := ExchangeOnce(mem, all, p, n, spi, c, rx, tx, k);
    }
  }

  /** One turn of the duplex loop either moves something or uses up patience. */
  method ExchangeOnce(mem: array<byte>, ghost all: seq<byte>, p: nat, n: nat, spi: Spi, ghost c: Chip, rx0: nat, tx0: nat, k: nat)
    returns (rx: nat, tx: nat)
    requires (k == 1 || k == 4) && n - rx0 >= k
    requires p + n <= |all| && Progress(mem, all, p, n, spi, c, rx0, tx0)
    requires tx0 < n ==> (tx0 - rx0) % k == 0
    modifies mem, spi
    ensures Progress(mem, all, p, n, spi, c, rx, tx) && rx <= tx <= n
    ensures tx < n ==> (tx - rx) % k == 0
    ensures || Work(n, rx, tx, spi) < old(Work(n, rx0, tx0, spi))
            || (Work(n, rx, tx, spi) == old(Work(n, rx0, tx0, spi)) && spi.patience < old(spi.patience))
  {
    hide Replies, Progress;
    rx, tx := rx0, tx0;
    var rxfifo, txfifo := PollStatus(mem, all, p, n, spi, c, rx, tx);
    if rxfifo >= k {
      Receive(mem, all, p, n, spi, c, rx, tx, k);
      rx := rx + k;
    }
    if txfifo < 60 && n - tx >= k {
      Send(mem, all, p, n, spi, c, rx, tx, k);
      tx := tx + k;
    }
  }

  /**
   `spi_data_transfer` on the `n` bytes at offset `p` of `mem`, whose address is
   `addr`: whatever the hardware timing, every byte is sent once in order, every
   reply stored once in order, and the loop ends.
   */
  method DataTransfer(mem: array<byte>, p: nat, n: nat, addr: nat, spi: Spi)
    requires p + n <= mem.Length && spi.Valid() && spi.Quiet()
    modifies mem, spi
    ensures spi.Valid() && spi.Quiet()
    ensures spi.chip == Finish(old(spi.chip), old(mem[p..p + n]))
    ensures mem[..] == old(mem[..p]) + Replies(old(spi.chip), old(mem[p..p + n])) + old(mem[p + n..])
  {
    hide Replies, Finish, Progress;
    ghost var all, c := mem[..], spi.chip;
    spi.Begin();
    StartProgress(mem, all, p, n, spi, c);
    var cnt := ToBoundary(addr) + 60;
    if cnt > n { cnt := n; }
    var tx := Fill(mem, all, p, n, spi, c, cnt);
    cnt := ToBoundary(addr);
    if cnt > n { cnt := n; }
    var rx := ReceiveHead(mem, all, p, n, spi, c, tx, cnt);
    rx, tx := Exchange(mem, all, p, n, spi, c, rx, tx, 4);
    rx, tx := Exchange(mem, all, p, n, spi, c, rx, tx, 1);
    FinishProgress(mem, all, p, n, spi, c, rx, tx);
    spi.End();
  }

  lemma StartProgress(mem: array<byte>, all: seq<byte>, p: nat, n: nat, spi: Spi, c: Chip)
    requires all == mem[..] && p + n <= |all|
    requires spi.Valid() && spi.Quiet() && spi.sent == [] && spi.chip == c
    ensures Progress(mem, all, p, n, spi, c, 0, 0)
  {
    hide Replies;
    assert all == all[..p] + Half(c, all[p..p + n], 0) + all[p + n..];
  }

  lemma FinishProgress(mem: array<byte>, all: seq<byte>, p: nat, n: nat, spi: Spi, c: Chip, rx: nat, tx: nat)
    requires p + n <= |all| && Progress(mem, all, p, n, spi, c, rx, tx) && rx >= n
    ensures spi.Valid() && spi.Quiet() && spi.chip == c && spi.sent == all[p..p + n]
    ensures mem[..] == all[..p] + Replies(c, all[p..p + n]) + all[p + n..]
  {
    hide Replies;
    QueueSize(mem, all, p, n, spi, c, rx, tx);
    var data := all[p..p + n];
    assert spi.txFifo == [] && spi.sent + spi.txFifo == spi.sent;
    assert data[..n] == data;
    assert Half(c, data, n) == Replies(c, data);
  }
}
