/**
 Writing whole NAND pages and images, and what a reader gets back from them.
 */
module NandImage {
  import opened BitVectors
  import opened Memory
  import opened Words
  import opened Gf2Poly
  import opened GaloisField
  import opened Codeword
  import opened NandScrambler
  import opened NandPage
  import B = BchControl
  import Primitivity
  import opened BchDistance

  function Total(g: Geometry): nat {
    g.pageSize + g.oobSize
  }

  /** The contents of an area. */
  function Part(out: seq<byte>, g: Geometry, a: Area): (r: seq<byte>)
    requires Whole(g) && HasArea(g, a) && |out| == Total(g)
    ensures |r| == To(g, a) - From(g, a)
  {
    AreaInside(g, a);
    out[From(g, a)..To(g, a)]
  }

  /** Source position of step `j` of the page that starts at `p`. */
  function StepPos(g: Geometry, p: nat, j: nat): nat {
    p + Off(j, g.step)
  }

  /** What the writer has to store for a step. */
  function StepBytes(g: Geometry, mask: Mask, src: seq<byte>, q: nat, ecc: seq<byte>): (r: seq<byte>)
    ensures |r| == g.step + 4 + |ecc|
  {
    Masked(mask, Plain(g, src, q) + ecc)
  }

  /** Step `j` is on the page, in its two areas. */
  ghost predicate Done(out: seq<byte>, g: Geometry, mask: Mask, src: seq<byte>, p: nat, j: nat, ecc: seq<byte>)
    requires Whole(g) && |out| == Total(g) && j < Steps(g)
  {
    && |ecc| == EccLen(g.strength)
    && Part(out, g, Data(j)) == StepBytes(g, mask, src, StepPos(g, p, j), ecc)[..g.step]
    && Part(out, g, Oob(j)) == StepBytes(g, mask, src, StepPos(g, p, j), ecc)[g.step..]
  }

  /** Writing one area leaves the others as they are. */
  lemma WriteArea(out: seq<byte>, g: Geometry, a: Area, bs: seq<byte>, b: Area)
    requires Whole(g) && HasArea(g, a) && HasArea(g, b) && |out| == Total(g) && |bs| == To(g, a) - From(g, a)
    ensures From(g, a) + |bs| <= |out|
    ensures Part(Put(out, From(g, a), bs), g, b) == if a == b then bs else Part(out, g, b)
  {
    hide From, To, Whole, HasArea, Put;
    StepPositive(g);
    AreaInside(g, a);
    AreaInside(g, b);
    if a == b {
      PutSlice(out, From(g, a), bs, 0, |bs|);
      assert bs[0..|bs|] == bs;
    } else {
      AreasApart(g, a, b);
      PutOutside(out, From(g, a), bs, From(g, b), To(g, b) - From(g, b));
    }
  }

  /** A step's bytes put into the two areas of step `i`. */
  function Stored(out: seq<byte>, g: Geometry, i: nat, s: seq<byte>): (r: seq<byte>)
    requires Whole(g) && |out| == Total(g) && i < Steps(g) && |s| == g.step + Spare(g)
    ensures |r| == |out|
  {
    AreaInside(g, Data(i));
    AreaInside(g, Oob(i));
    Put(Put(out, From(g, Data(i)), s[..g.step]), From(g, Oob(i)), s[g.step..])
  }

  /** Storing a step keeps the steps before it and the tail. */
  lemma StoreStep(out: seq<byte>, g: Geometry, mask: Mask, src: seq<byte>, p: nat, i: nat, ecc: seq<byte>, s: seq<byte>, j: nat, ecc': seq<byte>)
    requires Whole(g) && |out| == Total(g) && j <= i < Steps(g) && |ecc| == EccLen(g.strength)
    requires |s| == g.step + Spare(g) && s == StepBytes(g, mask, src, StepPos(g, p, i), ecc)
    requires j < i ==> Done(out, g, mask, src, p, j, ecc')
    requires j == i ==> ecc' == ecc
    ensures Done(Stored(out, g, i, s), g, mask, src, p, j, ecc')
    ensures Part(Stored(out, g, i, s), g, Tail) == Part(out, g, Tail)
  {
    hide StepBytes, Put, Whole, Steps, Off, Part, Spare;
    StepPositive(g);
    SpareIs(g);
    WriteArea(out, g, Data(i), s[..g.step], Data(j));
    WriteArea(out, g, Data(i), s[..g.step], Oob(j));
    WriteArea(out, g, Data(i), s[..g.step], Tail);
    var mid := Put(out, From(g, Data(i)), s[..g.step]);
    WriteArea(mid, g, Oob(i), s[g.step..], Data(j));
    WriteArea(mid, g, Oob(i), s[g.step..], Oob(j));
    WriteArea(mid, g, Oob(i), s[g.step..], Tail);
  }

  lemma SpareIs(g: Geometry)
    ensures Spare(g) == EccLen(g.strength) + 4
  {}

  // ----- the steps of a page

  /** The first `i` steps are stored and protected. */
  ghost predicate StepsDone(out: seq<byte>, g: Geometry, f: Field, mask: Mask, src: seq<byte>, p: nat, eccs: seq<seq<byte>>)
    requires Whole(g) && |out| == Total(g) && |eccs| <= Steps(g)
  {
    forall j :: 0 <= j < |eccs| ==>
      && Done(out, g, mask, src, p, j, eccs[j])
      && Protects(f, g.strength, Plain(g, src, StepPos(g, p, j)), eccs[j])
  }

  method Store(out: array<byte>, g: Geometry, i: nat, s: seq<byte>)
    requires Whole(g) && out.Length == Total(g) && i < Steps(g) && |s| == g.step + Spare(g)
    modifies out
    ensures out[..] == Stored(old(out[..]), g, i, s)
  {
    hide Put, Whole, Steps, Spare;
    StepPositive(g);
    AreaInside(g, Data(i));
    AreaInside(g, Oob(i));
    PutBytes(out, From(g, Data(i)), s[..g.step]);
    PutBytes(out, From(g, Oob(i)), s[g.step..]);
  }

  lemma StepStored(out: seq<byte>, g: Geometry, f: Field, mask: Mask, src: seq<byte>, p: nat, eccs: seq<seq<byte>>, ecc: seq<byte>, s: seq<byte>)
    requires Whole(g) && |out| == Total(g) && |eccs| < Steps(g) && StepsDone(out, g, f, mask, src, p, eccs)
    requires |ecc| == EccLen(g.strength) && Protects(f, g.strength, Plain(g, src, StepPos(g, p, |eccs|)), ecc)
    requires |s| == g.step + Spare(g) && s == StepBytes(g, mask, src, StepPos(g, p, |eccs|), ecc)
    ensures StepsDone(Stored(out, g, |eccs|, s), g, f, mask, src, p, eccs + [ecc])
    ensures Part(Stored(out, g, |eccs|, s), g, Tail) == Part(out, g, Tail)
  {
    hide StepBytes, Stored, Whole, Steps, Off, Part, Spare, Done, Protects, Plain, StepPos, EccLen;
    StepPositive(g);
    var i := |eccs|;
    StoreStep(out, g, mask, src, p, i, ecc, s, i, ecc);
    var out' := Stored(out, g, i, s);
    forall j | 0 <= j < i + 1
      ensures Done(out', g, mask, src, p, j, (eccs + [ecc])[j])
           && Protects(f, g.strength, Plain(g, src, StepPos(g, p, j)), (eccs + [ecc])[j])
    {
      if j < i { StoreStep(out, g, mask, src, p, i, ecc, s, j, eccs[j]); }
    }
  }

  lemma PaddedEnd(g: Geometry, src: seq<byte>, q: nat)
    requires q >= |src|
    ensures Plain(g, src, |src|) == Plain(g, src, q)
  {}

  /** Where reading stands after `i` steps. */
  function ReadPos(g: Geometry, src: seq<byte>, p: nat, i: nat): (q: nat)
    requires p <= |src|
    ensures q <= |src|
  {
    if StepPos(g, p, i) <= |src| then StepPos(g, p, i) else |src|
  }

  lemma ReadNext(g: Geometry, src: seq<byte>, p: nat, i: nat)
    requires p <= |src|
    ensures Plain(g, src, ReadPos(g, src, p, i)) == Plain(g, src, StepPos(g, p, i))
    ensures ReadPos(g, src, p, 0) == p
    ensures var q := ReadPos(g, src, p, i);
      ReadPos(g, src, p, i + 1) == q + if q + g.step <= |src| then g.step else |src| - q
  {
    hide Off;
    OffNext(i, g.step);
    if StepPos(g, p, i) > |src| { PaddedEnd(g, src, StepPos(g, p, i)); }
  }

  /** What every step keeps. */
  ghost predicate Progress(out: seq<byte>, g: Geometry, f: Field, mask: Mask, src: seq<byte>, p: nat, eccs: seq<seq<byte>>, tail: seq<byte>, q: nat) {
    && Whole(g) && |out| == Total(g) && p <= |src| && |eccs| <= Steps(g) && q == ReadPos(g, src, p, |eccs|)
    && StepsDone(out, g, f, mask, src, p, eccs) && Part(out, g, Tail) == tail
  }

  lemma ProgressNext(out: seq<byte>, g: Geometry, f: Field, mask: Mask, src: seq<byte>, p: nat, eccs: seq<seq<byte>>,
                     tail: seq<byte>, q: nat, s: seq<byte>, ecc: seq<byte>, cnt: nat)
    requires Progress(out, g, f, mask, src, p, eccs, tail, q) && |eccs| < Steps(g)
    requires |ecc| == EccLen(g.strength) && Protects(f, g.strength, Plain(g, src, q), ecc)
    requires |s| == g.step + Spare(g) && s == StepBytes(g, mask, src, q, ecc)
    requires cnt == if q + g.step <= |src| then g.step else |src| - q
    ensures Progress(Stored(out, g, |eccs|, s), g, f, mask, src, p, eccs + [ecc], tail, q + cnt) && q + cnt <= |src|
  {
    hide StepsDone, Part, Plain, Protects, StepBytes, Stored, Whole, Steps, StepPos, ReadPos, EccLen, Spare;
    ReadNext(g, src, p, |eccs|);
    SameStep(g, mask, src, q, StepPos(g, p, |eccs|), ecc);
    StepStored(out, g, f, mask, src, p, eccs, ecc, s);
  }

  lemma SameStep(g: Geometry, mask: Mask, src: seq<byte>, q: nat, q': nat, ecc: seq<byte>)
    requires Plain(g, src, q) == Plain(g, src, q')
    ensures StepBytes(g, mask, src, q, ecc) == StepBytes(g, mask, src, q', ecc)
  {}

  lemma ProgressMeans(out: seq<byte>, g: Geometry, f: Field, mask: Mask, src: seq<byte>, p: nat, eccs: seq<seq<byte>>, tail: seq<byte>, q: nat)
    requires Progress(out, g, f, mask, src, p, eccs, tail, q)
    ensures Whole(g) && g.step > 0 && p <= |src|
  {
    hide StepsDone, Part, Steps;
  }

  /** One step onto the page. */
  method WriteStep(bch: B.BchControl, ghost f: Field, g: Geometry, src: seq<byte>, ghost p: nat, mask: Mask, align: nat,
                   buf: array<byte>, out: array<byte>, i: nat, ghost eccs: seq<seq<byte>>, q: nat, ghost tail: seq<byte>)
    returns (ghost ecc: seq<byte>, q': nat)
    requires Progress(out[..], g, f, mask, src, p, eccs, tail, q) && |eccs| == i < Steps(g) && q <= |src|
    requires Engine(bch, f, g) && align < 4
    requires Separate(bch, buf) && Separate(bch, out) && buf != out && buf.Length == out.Length == Total(g)
    modifies bch.eccBuf, buf, out
    ensures Engine(bch, f, g) && Progress(out[..], g, f, mask, src, p, eccs + [ecc], tail, q') && q' <= |src|
  {
    hide Engine, Progress, Plain, Protects, Masked, Whole, Steps, Stored, Spare, EccLen;
    ProgressMeans(out[..], g, f, mask, src, p, eccs, tail, q);
    Room(g);
    SpareIs(g);
    var cnt;
    ecc, cnt := BuildStep(bch, f, g, src, q, mask, align, buf);
    var s := buf[..g.step + Spare(g)];
    ProgressNext(out[..], g, f, mask, src, p, eccs, tail, q, s, ecc, cnt);
    Store(out, g, i, s);
    q' := q + cnt;
  }

  /** The loop over the steps of a page. */
  method WriteSteps(bch: B.BchControl, ghost f: Field, g: Geometry, src: seq<byte>, p: nat, mask: Mask, align: nat,
                    buf: array<byte>, out: array<byte>)
    returns (ghost eccs: seq<seq<byte>>, q: nat)
    requires Whole(g) && Engine(bch, f, g) && align < 4 && p <= |src|
    requires Separate(bch, buf) && Separate(bch, out) && buf != out && buf.Length == out.Length == Total(g)
    modifies bch.eccBuf, buf, out
    ensures Engine(bch, f, g) && |eccs| == Steps(g)
    ensures Progress(out[..], g, f, mask, src, p, eccs, Part(old(out[..]), g, Tail), q)
  {
    hide Engine, Progress, Part, Whole, Steps, ReadPos;
    StepPositive(g);
    ghost var tail := Part(out[..], g, Tail);
    eccs, q := [], p;
    NoneDone(out[..], g, f, mask, src, p);
    var i := 0;
    while i < Steps(g)
      invariant 0 <= i <= Steps(g) && |eccs| == i && q <= |src|
      invariant Engine(bch, f, g) && Progress(out[..], g, f, mask, src, p, eccs, tail, q)
    {
      ghost var ecc;
      ecc, q := WriteStep(bch, f, g, src, p, mask, align, buf, out, i, eccs, q, tail);
      eccs := eccs + [ecc];
      i := i + 1;
    }
  }

  lemma NoneDone(out: seq<byte>, g: Geometry, f: Field, mask: Mask, src: seq<byte>, p: nat)
    requires Whole(g) && |out| == Total(g) && p <= |src|
    ensures Progress(out, g, f, mask, src, p, [], Part(out, g, Tail), p)
  {
    hide Part;
    ReadNext(g, src, p, 0);
  }

  lemma Room(g: Geometry)
    requires Whole(g)
    ensures g.step + Spare(g) <= Total(g) && 0 < g.step
  {
    hide Spare;
    StepsFill(g);
    OffMono(0, Steps(g), Spare(g));
    OffMono(0, Steps(g), g.step);
  }

  // ----- the finished page

  /**
   What a reader gets from step `j` of a page: unscrambling the data area gives
   the source padded with 0xFF, and the out-of-band area holds the parity that
   protects it.  The bad block marker hides two spare bytes of the first step.
   */
  ghost predicate StepReadable(out: seq<byte>, g: Geometry, f: Field, mask: Mask, src: seq<byte>, p: nat, j: nat)
    requires Whole(g) && |out| == Total(g) && j < Steps(g)
  {
    && Masked(mask, Part(out, g, Data(j))) == Padded(src, StepPos(g, p, j), g.step)
    && exists ecc :: |ecc| == EccLen(g.strength) && Protects(f, g.strength, Plain(g, src, StepPos(g, p, j)), ecc)
                     && OobHolds(out, g, mask, src, p, j, ecc)
  }

  ghost predicate OobHolds(out: seq<byte>, g: Geometry, mask: Mask, src: seq<byte>, p: nat, j: nat, ecc: seq<byte>)
    requires Whole(g) && |out| == Total(g) && j < Steps(g) && |ecc| == EccLen(g.strength)
  {
    var o, s := Part(out, g, Oob(j)), StepBytes(g, mask, src, StepPos(g, p, j), ecc)[g.step..];
    |o| == |s| && |s| >= 2 && o[2..] == s[2..] && (j > 0 ==> o == s)
  }

  ghost predicate Readable(out: seq<byte>, g: Geometry, f: Field, mask: Mask, src: seq<byte>, p: nat)
    requires Whole(g) && |out| == Total(g)
  {
    && (forall j :: 0 <= j < Steps(g) ==> StepReadable(out, g, f, mask, src, p, j))
    && Part(out, g, Tail) == Masked(mask, Ones(|Part(out, g, Tail)|))
  }

  /** The two bytes behind the main area say that the block is good. */
  predicate MarkedGood(out: seq<byte>, g: Geometry) {
    g.pageSize + 2 <= |out| && out[g.pageSize] == 0xFF && out[g.pageSize + 1] == 0xFF
  }

  /** An empty page stays erased, every other page is readable, and none is marked bad. */
  ghost predicate PageHolds(out: seq<byte>, g: Geometry, f: Field, mask: Mask, src: seq<byte>, p: nat)
    requires Whole(g)
  {
    && |out| == Total(g) && MarkedGood(out, g)
    && if Padded(src, p, g.pageSize) == Ones(g.pageSize) then out == Ones(Total(g))
       else !mask.NoSeed? && Readable(out, g, f, mask, src, p)
  }

  /** The two marker bytes touch only the start of the first out-of-band area. */
  lemma MarkerTouches(out: seq<byte>, g: Geometry, bs: seq<byte>, a: Area)
    requires Whole(g) && |out| == Total(g) && HasArea(g, a) && |bs| == 2
    ensures g.pageSize + 2 <= |out|
    ensures a != Oob(0) ==> Part(Put(out, g.pageSize, bs), g, a) == Part(out, g, a)
    ensures a == Oob(0) ==> |Part(out, g, a)| >= 2 && Part(Put(out, g.pageSize, bs), g, a)[2..] == Part(out, g, a)[2..]
  {
    hide Put, Spare, Steps, Whole, Off;
    MarkerRange(g, a);
    StepPositive(g);
    AreaInside(g, a);
    if a == Oob(0) {
      MarkerInside(out, g.pageSize, bs, To(g, a));
    } else {
      PutOutside(out, g.pageSize, bs, From(g, a), To(g, a) - From(g, a));
    }
  }

  lemma MarkerInside(out: seq<byte>, a: nat, bs: seq<byte>, to: nat)
    requires |bs| == 2 && a + 2 <= to <= |out|
    ensures Put(out, a, bs)[a..to][2..] == out[a..to][2..]
  {}

  lemma MarkerRange(g: Geometry, a: Area)
    requires Whole(g) && HasArea(g, a)
    ensures g.step > 0 && g.pageSize + 4 <= Total(g)
    ensures a == Oob(0) ==> From(g, a) == g.pageSize && To(g, a) >= g.pageSize + 4
    ensures a != Oob(0) ==> To(g, a) <= g.pageSize || g.pageSize + 4 <= From(g, a)
  {
    hide Steps, Whole, EccLen;
    StepPositive(g);
    StepsFill(g);
    AreaInside(g, a);
    OffNext(0, Spare(g));
    OffMono(0, Steps(g), Spare(g));
    if a.Oob? && a.i > 0 { OffMono(0, a.i, Spare(g)); }
  }

  /** One stored step under the marker is readable. */
  lemma DoneIsReadable(out: seq<byte>, g: Geometry, f: Field, mask: Mask, src: seq<byte>, p: nat, j: nat, ecc: seq<byte>, bs: seq<byte>)
    requires Whole(g) && |out| == Total(g) && j < Steps(g) && |bs| == 2 && g.pageSize + 2 <= |out|
    requires Done(out, g, mask, src, p, j, ecc) && Protects(f, g.strength, Plain(g, src, StepPos(g, p, j)), ecc)
    ensures StepReadable(Put(out, g.pageSize, bs), g, f, mask, src, p, j)
  {
    hide Put, Spare, Steps, Whole, Off, Protects, Part, Masked, Plain, EccLen, Padded;
    StepPositive(g);
    var out', q := Put(out, g.pageSize, bs), StepPos(g, p, j);
    MarkerTouches(out, g, bs, Data(j));
    MarkerTouches(out, g, bs, Oob(j));
    assert OobHolds(out', g, mask, src, p, j, ecc);
    DataBack(g, mask, src, q, ecc);
  }

  lemma DataBack(g: Geometry, mask: Mask, src: seq<byte>, q: nat, ecc: seq<byte>)
    ensures Masked(mask, StepBytes(g, mask, src, q, ecc)[..g.step]) == Padded(src, q, g.step)
  {
    hide Masked, Padded, Ones;
    var x := Plain(g, src, q) + ecc;
    MaskedPrefix(mask, x, g.step);
    assert x[..g.step] == Padded(src, q, g.step);
    MaskedTwice(mask, Padded(src, q, g.step));
  }

  lemma Finished(out: seq<byte>, g: Geometry, f: Field, mask: Mask, src: seq<byte>, p: nat, eccs: seq<seq<byte>>, tail: seq<byte>, q: nat, bs: seq<byte>)
    requires Progress(out, g, f, mask, src, p, eccs, tail, q) && |eccs| == Steps(g) && |bs| == 2
    requires tail == Masked(mask, Ones(|tail|))
    ensures g.pageSize + 2 <= |out| && Readable(Put(out, g.pageSize, bs), g, f, mask, src, p)
    ensures q == if p + g.pageSize <= |src| then p + g.pageSize else |src|
  {
    hide Put, Spare, Steps, Whole, Off, Protects, Part, Masked, Plain, EccLen, StepReadable, Done;
    ProgressMeans(out, g, f, mask, src, p, eccs, tail, q);
    StepsFill(g);
    MarkerTouches(out, g, bs, Tail);
    forall j | 0 <= j < Steps(g) ensures StepReadable(Put(out, g.pageSize, bs), g, f, mask, src, p, j) {
      DoneIsReadable(out, g, f, mask, src, p, j, eccs[j], bs);
    }
  }

  // ----- write_page

  method IsErased(buf: array<byte>, n: nat) returns (erased: bool)
    requires n <= buf.Length
    ensures erased <==> buf[..n] == Ones(n)
  {
    hide Ones;
    for i := 0 to n
      invariant forall k :: 0 <= k < i ==> buf[k] == 0xFF
    {
      if buf[i] != 0xFF {
        assert Ones(n)[i] != buf[..n][i];
        return false;
      }
    }
    return true;
  }

  /** The unused end of the out-of-band area. */
  method WriteTail(g: Geometry, mask: Mask, buf: array<byte>, out: array<byte>)
    requires Whole(g) && buf != out && buf.Length == out.Length == Total(g)
    requires Part(out[..], g, Tail) == Ones(|Part(out[..], g, Tail)|) && (g.scramble <==> mask.Seeded?) && !mask.NoSeed?
    modifies buf, out
    ensures Part(out[..], g, Tail) == Masked(mask, Ones(|Part(out[..], g, Tail)|))
  {
    hide Whole, Off, Steps, Spare, Put, Scrambled;
    StepPositive(g);
    AreaInside(g, Tail);
    if g.scramble {
      var offs := From(g, Tail);
      var cnt := Total(g) - offs;
      Fill(buf, offs, cnt);
      ghost var b := buf[..];
      assert b[offs..offs + cnt] == Ones(cnt) by { PutSlice(old(buf[..]), offs, Ones(cnt), 0, cnt); }
      Scramble(buf, offs, cnt, mask);
      assert buf[offs..offs + cnt] == Masked(mask, Ones(cnt)) by { PutSlice(b, offs, Masked(mask, Ones(cnt)), 0, cnt); }
      ghost var o := out[..];
      PutBytes(out, offs, buf[offs..offs + cnt]);
      WriteArea(o, g, Tail, Masked(mask, Ones(cnt)), Tail);
    }
  }

  lemma FreshTail(out: seq<byte>, g: Geometry, data: seq<byte>)
    requires Whole(g) && |data| == g.pageSize && out == data + Ones(g.oobSize)
    ensures |out| == Total(g) && Part(out, g, Tail) == Ones(|Part(out, g, Tail)|)
  {
    hide Whole, Off, Steps, Spare;
    StepPositive(g);
    AreaInside(g, Tail);
  }

  /** What became of a page: the source bytes it took, none at the end, or a division by zero. */
  datatype Progressed = Taken(cnt: nat) | Crashed

  /**
   `write_page`.  It crashes exactly on a page with data that is to be scrambled
   when the erase block is smaller than a page.
   */
  method WritePage(bch: B.BchControl, ghost f: Field, g: Geometry, src: seq<byte>, p: nat, page: nat, align: nat,
                   buf: array<byte>, out: array<byte>)
    returns (r: Progressed)
    requires Whole(g) && Engine(bch, f, g) && align < 4 && p <= |src|
    requires Separate(bch, buf) && Separate(bch, out) && buf != out && buf.Length == out.Length == Total(g)
    modifies bch.eccBuf, buf, out
    ensures Engine(bch, f, g)
    ensures r.Crashed? <==> g.scramble && g.eraseblock < g.pageSize && Padded(src, p, g.pageSize) != Ones(g.pageSize)
    ensures r.Taken? ==> r.cnt == if p + g.pageSize <= |src| then g.pageSize else |src| - p
    ensures r.Taken? && r.cnt > 0 ==> PageHolds(out[..], g, f, PageMask(g, page), src, p)
  {
    hide Engine, Whole, Readable, Put, Padded, Ones, Progress, Part, SEEDS;
    PagePositive(g);
    var cnt := ReadSource(buf, src, p, g.pageSize, Total(g));
    if cnt == 0 {
      PaddedAtEnd(src, p, g.pageSize);
      return Taken(0);
    }
    ghost var data := Padded(src, p, g.pageSize);
    assert buf[..Total(g)] == buf[..];
    PutBytes(out, 0, buf[..]);
    PutPrefix(old(out[..]), buf[..]);
    FreshTail(out[..], g, data);
    var erased := IsErased(buf, g.pageSize);
    assert buf[..g.pageSize] == data;
    if erased {
      OnesJoin(g.pageSize, g.oobSize);
      MarkerRange(g, Tail);
      assert out[..] == Ones(Total(g));
      return Taken(cnt);
    }
    var mask := PageMask(g, page);
    if mask.NoSeed? { return Crashed; }
    WriteTail(g, mask, buf, out);
    ghost var tail := Part(out[..], g, Tail);
    ghost var eccs;
    var q;
    eccs, q := WriteSteps(bch, f, g, src, p, mask, align, buf, out);
    Finished(out[..], g, f, mask, src, p, eccs, tail, q, [0xFF, 0xFF]);
    label Unmarked:
    PutBytes(out, g.pageSize, [0xFF, 0xFF]);
    MarkedAfter(out[..], old@Unmarked(out[..]), g);
    r := Taken(q - p);
  }

  lemma MarkedAfter(out: seq<byte>, was: seq<byte>, g: Geometry)
    requires g.pageSize + 2 <= |was| && out == Put(was, g.pageSize, [0xFF, 0xFF])
    ensures MarkedGood(out, g)
  {}

  lemma PaddedAtEnd(src: seq<byte>, p: nat, n: nat)
    requires p >= |src| || n == 0
    ensures Padded(src, p, n) == Ones(n)
  {}

  lemma OnesJoin(a: nat, b: nat)
    ensures Ones(a) + Ones(b) == Ones(a + b)
  {}

  // ----- the whole image

  /** Page `n` of an image. */
  function PageAt(image: seq<byte>, g: Geometry, n: nat): (r: seq<byte>) {
    if Off(n, Total(g)) + Total(g) <= |image| then image[Off(n, Total(g))..Off(n, Total(g)) + Total(g)] else []
  }

  /** The first `n` pages hold the source from its beginning; `first` is the number of the first page. */
  ghost predicate ImageHolds(image: seq<byte>, g: Geometry, f: Field, src: seq<byte>, first: nat, n: nat)
    requires Whole(g)
  {
    && |image| == Off(n, Total(g))
    && forall k :: 0 <= k < n ==> PageHolds(PageAt(image, g, k), g, f, PageMask(g, first + k), src, Off(k, g.pageSize))
  }

  lemma AddPage(image: seq<byte>, g: Geometry, f: Field, src: seq<byte>, first: nat, n: nat, out: seq<byte>)
    requires Whole(g) && ImageHolds(image, g, f, src, first, n)
    requires PageHolds(out, g, f, PageMask(g, first + n), src, Off(n, g.pageSize)) && |out| == Total(g)
    ensures ImageHolds(image + out, g, f, src, first, n + 1)
  {
    hide Whole, PageHolds, PageMask, Off;
    PagePositive(g);
    OffNext(n, Total(g));
    var image' := image + out;
    forall k | 0 <= k < n + 1
      ensures PageHolds(PageAt(image', g, k), g, f, PageMask(g, first + k), src, Off(k, g.pageSize))
    {
      if k < n { OffMono(k, n, Total(g)); }
      assert PageAt(image', g, k) == if k < n then PageAt(image, g, k) else out;
    }
  }

  /** The field the program always asks for. */
  function ProgramField(): Field {
    Primitivity.F()
  }

  /** The source bytes before `p` are all 0xFF. */
  predicate BlankTo(src: seq<byte>, p: nat) {
    forall i :: 0 <= i < p && i < |src| ==> src[i] == 0xFF
  }

  /** A blank page continues a blank beginning, and conversely. */
  lemma BlankPage(src: seq<byte>, p: nat, n: nat)
    requires BlankTo(src, p)
    ensures Padded(src, p, n) == Ones(n) <==> BlankTo(src, p + n)
  {
    if Padded(src, p, n) == Ones(n) {
      forall i | 0 <= i < p + n && i < |src| ensures src[i] == 0xFF {
        if i >= p { assert Padded(src, p, n)[i - p] == Ones(n)[i - p]; }
      }
    }
  }

  /** Every accepted strength gives an engine: the parameters are in range and the polynomial is primitive. */
  lemma EngineExists(g: Geometry)
    requires Accepted(g)
    ensures B.GoodParameters(14, g.strength) && B.ChosenPoly(14, 0x5803) == 0x5803 && Primitive(ProgramField())
  {
    hide Power, NoEarlyOne;
    Primitivity.FieldShape();
    Primitivity.PolynomialIsPrimitive();
  }

  /** How building an image ends. */
  datatype Built = Image(bytes: seq<byte>, pages: nat) | DivisionByZero

  /** Where the page loop stands: `n` pages hold the source up to `p`. */
  ghost predicate Building(image: seq<byte>, g: Geometry, f: Field, src: seq<byte>, first: nat, n: nat, p: nat, eof: bool)
    requires Whole(g)
  {
    && p <= |src| && ImageHolds(image, g, f, src, first, n)
    && (if eof then |src| <= Off(n, g.pageSize) && p == |src| else p == Off(n, g.pageSize))
    && (n > 0 ==> Off(n - 1, g.pageSize) < |src|)
    && (g.scramble && g.eraseblock < g.pageSize ==> BlankTo(src, p))
  }

  lemma BuildingNext(image: seq<byte>, g: Geometry, f: Field, src: seq<byte>, first: nat, n: nat, p: nat, cnt: nat, out: seq<byte>)
    requires Whole(g) && Building(image, g, f, src, first, n, p, false)
    requires cnt == if p + g.pageSize <= |src| then g.pageSize else |src| - p
    requires cnt > 0 ==> PageHolds(out, g, f, PageMask(g, first + n), src, p)
    requires g.scramble && g.eraseblock < g.pageSize ==> Padded(src, p, g.pageSize) == Ones(g.pageSize)
    ensures if cnt > 0 then Building(image + out, g, f, src, first, n + 1, p + cnt, cnt < g.pageSize)
            else Building(image, g, f, src, first, n, p, true)
  {
    hide Whole, PageHolds, PageMask, ImageHolds, Off, Padded, Ones, BlankTo;
    OffNext(n, g.pageSize);
    PagePositive(g);
    Blankness(g, src, p);
    if cnt > 0 {
      PageLength(out, g, f, PageMask(g, first + n), src, p);
      AddPage(image, g, f, src, first, n, out);
    }
  }

  /** The page loop. */
  method WritePages(bch: B.BchControl, ghost f: Field, g: Geometry, src: seq<byte>, first: nat, align: nat) returns (r: Built)
    requires Whole(g) && Engine(bch, f, g) && align < 4
    modifies bch.eccBuf
    ensures r.DivisionByZero? <==> g.scramble && g.eraseblock < g.pageSize && !BlankTo(src, |src|)
    ensures r.Image? ==> ImageHolds(r.bytes, g, f, src, first, r.pages)
    ensures r.Image? ==> |src| <= Off(r.pages, g.pageSize) && (r.pages > 0 ==> Off(r.pages - 1, g.pageSize) < |src|)
  {
    hide Engine, Whole, PageHolds, PageMask, Building, EccLen, Padded, Ones, BlankTo, ImageHolds, Off;
    PagePositive(g);
    var buf, out := new byte[Total(g)](_ => 0xFF), new byte[Total(g)](_ => 0xFF);
    var p: nat, eof := 0, false;
    var image, n: nat := [], 0;
    StartPages(g, f, src, first);
    while !eof
      invariant p <= |src| && Engine(bch, f, g) && Building(image, g, f, src, first, n, p, eof)
      decreases |src| - p, !eof
    {
      var page := WritePage(bch, f, g, src, p, first + n, align, buf, out);
      if page.Crashed? {
        Blankness(g, src, p);
        return DivisionByZero;
      }
      BuildingNext(image, g, f, src, first, n, p, page.cnt, out[..]);
      if page.cnt > 0 { image, n := image + out[..], n + 1; }
      eof := page.cnt < g.pageSize;
      p := p + page.cnt;
    }
    PagesDone(image, g, f, src, first, n, p);
    r := Image(image, n);
  }

  lemma StartPages(g: Geometry, f: Field, src: seq<byte>, first: nat)
    requires Whole(g)
    ensures Building([], g, f, src, first, 0, 0, false)
  {
    hide Whole, PageHolds, PageMask;
  }

  lemma PagesDone(image: seq<byte>, g: Geometry, f: Field, src: seq<byte>, first: nat, n: nat, p: nat)
    requires Whole(g) && Building(image, g, f, src, first, n, p, true)
    ensures ImageHolds(image, g, f, src, first, n) && |src| <= Off(n, g.pageSize) && (n > 0 ==> Off(n - 1, g.pageSize) < |src|)
    ensures g.scramble && g.eraseblock < g.pageSize ==> BlankTo(src, |src|)
  {
    hide Whole, ImageHolds, Off, BlankTo;
  }

  /** What a page's blankness says about the source up to its end. */
  lemma Blankness(g: Geometry, src: seq<byte>, p: nat)
    requires p <= |src|
    ensures BlankTo(src, p) && Padded(src, p, g.pageSize) == Ones(g.pageSize) ==>
              BlankTo(src, if p + g.pageSize <= |src| then p + g.pageSize else |src|)
    ensures Padded(src, p, g.pageSize) != Ones(g.pageSize) ==> !BlankTo(src, |src|)
    ensures BlankTo(src, 0)
  {
    hide Padded, Ones;
    if BlankTo(src, p) { BlankPage(src, p, g.pageSize); }
    if BlankTo(src, |src|) { BlankPage(src, p, g.pageSize); }
  }

  /** The number of the page that will be programmed at `offset`. */
  function FirstPage(g: Geometry, offset: nat): nat {
    if g.pageSize == 0 then 0 else offset / g.pageSize
  }

  /**
   `create_image`, engine included.  It divides by zero exactly when scrambling
   is asked for, the erase block is smaller than a page and the source has a byte
   other than 0xFF.  Otherwise the image is a sequence of pages that holds the
   whole source, with no page more than needed; the pages are numbered from the
   one at `offset`, where the image will be programmed.
   */
  method CreateImage(g: Geometry, src: seq<byte>, offset: nat, align: nat) returns (r: Built)
    requires Whole(g) && align < 4
    ensures r.DivisionByZero? <==> g.scramble && g.eraseblock < g.pageSize && !BlankTo(src, |src|)
    ensures r.Image? ==> ImageHolds(r.bytes, g, ProgramField(), src, FirstPage(g, offset), r.pages)
    ensures r.Image? ==> |src| <= Off(r.pages, g.pageSize) && (r.pages > 0 ==> Off(r.pages - 1, g.pageSize) < |src|)
  {
    hide Whole, Accepted, ImageHolds, Off, FirstPage, B.GoodParameters, Primitive, BlankTo, B.BchControl.Ready;
    StepPositive(g);
    EngineExists(g);
    var bch := B.InitBch(14, g.strength, 0x5803);
    r := WritePages(bch, ProgramField(), g, src, FirstPage(g, offset), align);
  }

  lemma PagePositive(g: Geometry)
    requires Whole(g)
    ensures g.pageSize > 0
  {}

  lemma PageLength(out: seq<byte>, g: Geometry, f: Field, mask: Mask, src: seq<byte>, p: nat)
    requires Whole(g) && PageHolds(out, g, f, mask, src, p)
    ensures |out| == Total(g)
  {}

  // ----- what the parity is worth

  /** The codeword of a step: its bits and its parity bits as the encoder saw them. */
  ghost function StepWord(f: Field, t: nat, plain: seq<byte>, ecc: seq<byte>): (s: seq<bool>)
    requires Protects(f, t, plain, ecc)
    ensures |s| == 8 * |plain| + |GeneratorBits(f, t)| - 1
  {
    FlatBytes(AllReversed(plain)) + FlatBytes(AllReversed(ecc)[..B.EccBytes(f.m, t)])[..|GeneratorBits(f, t)| - 1]
  }

  lemma FlatBytesInjective(a: seq<byte>, b: seq<byte>)
    requires |a| == |b| && FlatBytes(a) == FlatBytes(b)
    ensures a == b
  {
    hide Bits;
    Pow2Values();
    forall i | 0 <= i < |a| ensures a[i] == b[i] {
      assert Bits(8, a[i]) == Bits(8, b[i]) by {
        forall j | 0 <= j < 8 ensures Bits(8, a[i])[j] == Bits(8, b[i])[j] {
          var q := 8 * i + j;
          assert q / 8 == i && q % 8 == j;
          assert FlatBytes(a)[q] == FlatBytes(b)[q];
        }
      }
      BitsInjective(8, a[i], b[i]);
    }
  }

  lemma StepWordVanishes(f: Field, t: nat, plain: seq<byte>, ecc: seq<byte>)
    requires Protects(f, t, plain, ecc)
    ensures Vanishes(f, t, StepWord(f, t, plain, ecc))
  {
    hide FlatBytes, Horner, Power, GeneratorBits, Parity, AllReversed, B.EccBytes;
  }

  lemma StepWordShort(g: Geometry, f: Field, plain: seq<byte>, ecc: seq<byte>)
    requires Accepted(g) && f.m == 14 && Protects(f, g.strength, plain, ecc) && |plain| == g.step + 4
    ensures |StepWord(f, g.strength, plain, ecc)| <= f.N()
  {
    Primitivity.FieldShape();
    hide FlatBytes, Horner, Power, GeneratorBits, Parity, AllReversed, Pow2;
  }

  /**
   Two different steps of a page are stored with codewords that differ in more
   than twice as many bits as the chosen strength.
   */
  lemma StepsDiffer(g: Geometry, x: seq<byte>, ex: seq<byte>, y: seq<byte>, ey: seq<byte>)
    requires Accepted(g) && |x| == |y| == g.step + 4 && x != y
    requires Protects(ProgramField(), g.strength, x, ex) && Protects(ProgramField(), g.strength, y, ey)
    ensures Distance(StepWord(ProgramField(), g.strength, x, ex), StepWord(ProgramField(), g.strength, y, ey)) > 2 * g.strength
  {
    hide FlatBytes, AllReversed, Protects, Vanishes, Distance, Primitive;
    var f, t := ProgramField(), g.strength;
    Primitivity.PolynomialIsPrimitive();
    StepWordVanishes(f, t, x, ex);
    StepWordVanishes(f, t, y, ey);
    StepWordShort(g, f, x, ex);
    var a, b := StepWord(f, t, x, ex), StepWord(f, t, y, ey);
    if a == b { SameStepWord(f, t, x, ex, y, ey); }
    MinimumDistance(f, t, a, b);
  }

  lemma SameStepWord(f: Field, t: nat, x: seq<byte>, ex: seq<byte>, y: seq<byte>, ey: seq<byte>)
    requires Protects(f, t, x, ex) && Protects(f, t, y, ey) && |x| == |y|
    requires StepWord(f, t, x, ex) == StepWord(f, t, y, ey)
    ensures x == y
  {
    hide FlatBytes, AllReversed, Protects, GeneratorBits;
    var n := 8 * |x|;
    assert StepWord(f, t, x, ex)[..n] == FlatBytes(AllReversed(x));
    assert StepWord(f, t, y, ey)[..n] == FlatBytes(AllReversed(y));
    FlatBytesInjective(AllReversed(x), AllReversed(y));
    AllReversedTwice(x);
    AllReversedTwice(y);
  }
}
