/**
 The SoC descriptions the tool ships, and that the SPL scheme's conditions hold
 for every one of them.
 */
module SocTables {
  import opened Memory
  import opened SramSwap
  import opened SplLoader

  const A10_A13_A20_SWAPS: seq<Swap> := [Swap(0x1C00, 0xA400, 0x400), Swap(0x5C00, 0xA800, 0x1400), Swap(0x7C00, 0xBC00, 0x400)]
  const AR100_ABUSING_SWAPS: seq<Swap> := [Swap(0x1800, 0x44000, 0x800), Swap(0x5C00, 0x44800, 0x2400)]
  const A31_SWAPS: seq<Swap> := [Swap(0x1800, 0x20000, 0x800), Swap(0x5C00, 0x20800, 0x2400)]
  const A64_SWAPS: seq<Swap> := [Swap(0x11C00, 0x31400, 0x400), Swap(0x15C00, 0x31800, 0x1400), Swap(0x17C00, 0x32C00, 0x400)]
  const A80_SWAPS: seq<Swap> := [Swap(0x11800, 0x20000, 0x800), Swap(0x15400, 0x20800, 0x2C00)]
  const F1C100S_SWAPS: seq<Swap> := [Swap(0x1C00, 0x9000, 0x400), Swap(0x5C00, 0x9400, 0x1400), Swap(0x7C00, 0xA800, 0x400)]
  const T7_SWAPS: seq<Swap> := [Swap(0x21C00, 0x4E400, 0x400), Swap(0x25C00, 0x4E800, 0x1400), Swap(0x27C00, 0x4FC00, 0x400)]
  const H6_SWAPS: seq<Swap> := [Swap(0x21C00, 0x42400, 0x400), Swap(0x25C00, 0x42800, 0x1400), Swap(0x27C00, 0x43C00, 0x400)]
  const V831_SWAPS: seq<Swap> := [Swap(0x21000, 0x38000, 0x1000)]
  const H616_SWAPS: seq<Swap> := [Swap(0x21000, 0x52A00, 0x1000)]
  const R329_SWAPS: seq<Swap> := [Swap(0x101000, 0x13BC00, 0x400)]
  const A523_SWAPS: seq<Swap> := [Swap(0x45000, 0x40200, 0x400)]
  const A133_SWAPS: seq<Swap> := [Swap(0x21000, 0x40000, 0x400)]

  /** All supported SoCs, in the order of the table. */
  const SHIPPED: seq<Soc> := [
    Soc(0x0, 0xA200, 0x200, 0xC000, A10_A13_A20_SWAPS),
    Soc(0x0, 0xA200, 0x200, 0xC000, A10_A13_A20_SWAPS),
    Soc(0x0, 0xA200, 0x200, 0xC000, A10_A13_A20_SWAPS),
    Soc(0x0, 0x46E00, 0x200, 0x10000, AR100_ABUSING_SWAPS),
    Soc(0x0, 0x22E00, 0x200, 0x8000, A31_SWAPS),
    Soc(0x0, 0x46E00, 0x200, 0x8000, AR100_ABUSING_SWAPS),
    Soc(0x10000, 0x31200, 0x200, 0x23000, A64_SWAPS),
    Soc(0x10000, 0x23400, 0x200, 0xA000, A80_SWAPS),
    Soc(0x0, 0xB400, 0x200, 0x8000, F1C100S_SWAPS),
    Soc(0x0, 0x46E00, 0x200, 0x8000, AR100_ABUSING_SWAPS),
    Soc(0x0, 0xA200, 0x200, 0x1B000, A10_A13_A20_SWAPS),
    Soc(0x0, 0xA200, 0x200, 0xF000, A10_A13_A20_SWAPS),
    Soc(0x20000, 0x4E200, 0x200, 0x2E000, T7_SWAPS),
    Soc(0x10000, 0x31200, 0x200, 0x23000, A64_SWAPS),
    Soc(0x0, 0xA200, 0x200, 0xC000, A10_A13_A20_SWAPS),
    Soc(0x20000, 0x42200, 0x200, 0x24000, H6_SWAPS),
    Soc(0x20000, 0x42200, 0x200, 0x24000, H6_SWAPS),
    Soc(0x20000, 0x2A200, 0x200, 0x39000, V831_SWAPS),
    Soc(0x20000, 0x2A200, 0x200, 0x39000, V831_SWAPS),
    Soc(0x20000, 0x53A00, 0x200, 0x33C00, H616_SWAPS),
    Soc(0x100000, 0x13BA00, 0x200, 0x1D0000, R329_SWAPS),
    Soc(0x20000, 0x3A200, 0x200, 0x21000, V831_SWAPS),
    Soc(0x20000, 0x3A200, 0x200, 0x28000, V831_SWAPS),
    Soc(0x20000, 0x42200, 0x200, 0x22000, H6_SWAPS),
    Soc(0x44000, 0x40000, 0x200, 0x18000, A523_SWAPS),
    Soc(0x20000, 0x40400, 0x200, 0x25000, A133_SWAPS)
  ]

  /** The record used for unknown SoCs; it states no SRAM size. */
  const GENERIC: Soc := Soc(0, 0x5680, 0x180, 0, [Swap(0x1C00, 0x5800, 0x400)])

  /** One buffer and the SoC around it: the conditions that concern no other buffer. */
  predicate OneOk(s: Soc, e: Swap) {
    EntryOk(e, TWO32) && SwapOk(s.splAddr, e)
    && Apart(e.buf1, e.size, s.thunkAddr, s.thunkSize) && Apart(e.buf2, e.size, s.thunkAddr, s.thunkSize)
  }

  predicate AreaOk(s: Soc) {
    && 0 < s.thunkSize && s.thunkAddr + s.thunkSize <= TWO32
    && (s.splAddr + 32 <= s.thunkAddr || s.thunkAddr + s.thunkSize <= s.splAddr)
    && s.splAddr + 32 <= TWO32 && s.splAddr + s.sramSize <= TWO32
    && THUNK_CODE + 4 + 12 * (|s.table| + 1) <= s.thunkSize
  }

  /** The same conditions, one entry and one pair at a time, for tables of at most three. */
  predicate Checked(s: Soc) {
    && AreaOk(s) && 1 <= |s.table| <= 3 && OneOk(s, s.table[0])
    && (|s.table| > 1 ==> OneOk(s, s.table[1]) && PairOk(s.table[0], s.table[1]))
    && (|s.table| > 2 ==> OneOk(s, s.table[2]) && PairOk(s.table[0], s.table[2]) && PairOk(s.table[1], s.table[2]))
  }

  lemma CheckedIsWellFormed(s: Soc)
    requires Checked(s)
    ensures WellFormed(s, TWO32)
    ensures THUNK_CODE + 4 + 12 * (|s.table| + 1) <= s.thunkSize
  {
    hide PairOk, EntryOk, SwapOk;
    forall j | 0 <= j < |s.table| ensures OneOk(s, s.table[j]) {
      if j == 0 {} else if j == 1 {} else {}
    }
    forall i, j | 0 <= i < j < |s.table| ensures PairOk(s.table[i], s.table[j]) {
      if j == 1 {} else if i == 0 {} else {}
    }
  }

  lemma Checked1(i: nat)
    requires 0 <= i < 4
    ensures i < |SHIPPED| && Checked(SHIPPED[i])
  {
    if i == 0 {
      assert Checked(SHIPPED[0]);
    } else if i == 1 {
      assert Checked(SHIPPED[1]);
    } else if i == 2 {
      assert Checked(SHIPPED[2]);
    } else {
      assert Checked(SHIPPED[3]);
    }
  }

  lemma Checked2(i: nat)
    requires 4 <= i < 8
    ensures i < |SHIPPED| && Checked(SHIPPED[i])
  {
    if i == 4 {
      assert Checked(SHIPPED[4]);
    } else if i == 5 {
      assert Checked(SHIPPED[5]);
    } else if i == 6 {
      assert Checked(SHIPPED[6]);
    } else {
      assert Checked(SHIPPED[7]);
    }
  }

  lemma Checked3(i: nat)
    requires 8 <= i < 12
    ensures i < |SHIPPED| && Checked(SHIPPED[i])
  {
    if i == 8 {
      assert Checked(SHIPPED[8]);
    } else if i == 9 {
      assert Checked(SHIPPED[9]);
    } else if i == 10 {
      assert Checked(SHIPPED[10]);
    } else {
      assert Checked(SHIPPED[11]);
    }
  }

  lemma Checked4(i: nat)
    requires 12 <= i < 16
    ensures i < |SHIPPED| && Checked(SHIPPED[i])
  {
    if i == 12 {
      assert Checked(SHIPPED[12]);
    } else if i == 13 {
      assert Checked(SHIPPED[13]);
    } else if i == 14 {
      assert Checked(SHIPPED[14]);
    } else {
      assert Checked(SHIPPED[15]);
    }
  }

  lemma Checked5(i: nat)
    requires 16 <= i < 20
    ensures i < |SHIPPED| && Checked(SHIPPED[i])
  {
    if i == 16 {
      assert Checked(SHIPPED[16]);
    } else if i == 17 {
      assert Checked(SHIPPED[17]);
    } else if i == 18 {
      assert Checked(SHIPPED[18]);
    } else {
      assert Checked(SHIPPED[19]);
    }
  }

  lemma Checked6(i: nat)
    requires 20 <= i < 23
    ensures i < |SHIPPED| && Checked(SHIPPED[i])
  {
    if i == 20 {
      assert Checked(SHIPPED[20]);
    } else if i == 21 {
      assert Checked(SHIPPED[21]);
    } else {
      assert Checked(SHIPPED[22]);
    }
  }

  lemma Checked7(i: nat)
    requires 23 <= i < 26
    ensures i < |SHIPPED| && Checked(SHIPPED[i])
  {
    if i == 23 {
      assert Checked(SHIPPED[23]);
    } else if i == 24 {
      assert Checked(SHIPPED[24]);
    } else {
      assert Checked(SHIPPED[25]);
    }
  }

  /** Every shipped description is well formed, and its thunk area holds the code and the table. */
  lemma ShippedWellFormed(i: nat)
    requires i < |SHIPPED|
    ensures WellFormed(SHIPPED[i], TWO32)
    ensures THUNK_CODE + 4 + 12 * (|SHIPPED[i].table| + 1) <= SHIPPED[i].thunkSize
  {
    hide WellFormed;
    if i < 4 {
      Checked1(i);
    } else if i < 8 {
      Checked2(i);
    } else if i < 12 {
      Checked3(i);
    } else if i < 16 {
      Checked4(i);
    } else if i < 20 {
      Checked5(i);
    } else if i < 23 {
      Checked6(i);
    } else {
      Checked7(i);
    }
    CheckedIsWellFormed(SHIPPED[i]);
  }

  /** So it is on the A523, the only shipped SoC with its thunk below the SPL. */
  lemma ThunkBelowOnA523(i: nat)
    requires i < |SHIPPED|
    ensures SHIPPED[i].thunkAddr < SHIPPED[i].splAddr <==> i == 24
    ensures FinalLimit(SHIPPED[24]) == SHIPPED[24].sramSize
  {
    var s := SHIPPED[24];
    ShippedWellFormed(24);
    ThunkBelowSetsNoLimit(s, TWO32);
    assert s.table[1..] == [];
    assert RunLimit(s.table, s.splAddr, s.sramSize) == RunLimit([], s.splAddr, s.sramSize);
  }

  /** What ends the room for an image: the thunk on the V831, the backup on the A133. */
  lemma LimitExamples()
    ensures FinalLimit(SHIPPED[17]) == 0xA200 && FinalLimit(SHIPPED[25]) == 0x20000
  {
    assert V831_SWAPS[1..] == [] && A133_SWAPS[1..] == [];
    assert RunLimit(V831_SWAPS, 0x20000, 0x39000) == RunLimit([], 0x20000, 0x18000);
    assert RunLimit(A133_SWAPS, 0x20000, 0x25000) == RunLimit([], 0x20000, 0x20000);
  }

  /** On an unknown SoC no image ever fits, whatever its length. */
  lemma GenericRefusesEveryImage()
    ensures WellFormed(GENERIC, TWO32) && FinalLimit(GENERIC) == 0
  {}
}
