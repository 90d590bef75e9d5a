/** The 128 seeds of the image builder are pairwise different, so pages share a key exactly when they agree
    modulo the pages of an erase block. */
module NandSeeds {
  import opened NandScrambler
  import opened NandPage
  import opened NandLayout

  /** Where a seed stands in the table. */
  ghost function Place(s: u15): nat {
    match s
    case 0x2b75 => 0 case 0x0bd0 => 1 case 0x5ca3 => 2 case 0x62d1 => 3
    case 0x1c93 => 4 case 0x07e9 => 5 case 0x2162 => 6 case 0x3a72 => 7
    case 0x0d67 => 8 case 0x67f9 => 9 case 0x1be7 => 10 case 0x077d => 11
    case 0x032f => 12 case 0x0dac => 13 case 0x2716 => 14 case 0x2436 => 15
    case 0x7922 => 16 case 0x1510 => 17 case 0x3860 => 18 case 0x5287 => 19
    case 0x480f => 20 case 0x4252 => 21 case 0x1789 => 22 case 0x5a2d => 23
    case 0x2a49 => 24 case 0x5e10 => 25 case 0x437f => 26 case 0x4b4e => 27
    case 0x2f45 => 28 case 0x216e => 29 case 0x5cb7 => 30 case 0x7130 => 31
    case 0x2a3f => 32 case 0x60e4 => 33 case 0x4dc9 => 34 case 0x0ef0 => 35
    case 0x0f52 => 36 case 0x1bb9 => 37 case 0x6211 => 38 case 0x7a56 => 39
    case 0x226d => 40 case 0x4ea7 => 41 case 0x6f36 => 42 case 0x3692 => 43
    case 0x38bf => 44 case 0x0c62 => 45 case 0x05eb => 46 case 0x4c55 => 47
    case 0x60f4 => 48 case 0x728c => 49 case 0x3b6f => 50 case 0x2037 => 51
    case 0x7f69 => 52 case 0x0936 => 53 case 0x651a => 54 case 0x4ceb => 55
    case 0x6218 => 56 case 0x79f3 => 57 case 0x383f => 58 case 0x18d9 => 59
    case 0x4f05 => 60 case 0x5c82 => 61 case 0x2912 => 62 case 0x6f17 => 63
    case 0x6856 => 64 case 0x5938 => 65 case 0x1007 => 66 case 0x61ab => 67
    case 0x3e7f => 68 case 0x57c2 => 69 case 0x542f => 70 case 0x4f62 => 71
    case 0x7454 => 72 case 0x2eac => 73 case 0x7739 => 74 case 0x42d4 => 75
    case 0x2f90 => 76 case 0x435a => 77 case 0x2e52 => 78 case 0x2064 => 79
    case 0x637c => 80 case 0x66ad => 81 case 0x2c90 => 82 case 0x0bad => 83
    case 0x759c => 84 case 0x0029 => 85 case 0x0986 => 86 case 0x7126 => 87
    case 0x1ca7 => 88 case 0x1605 => 89 case 0x386a => 90 case 0x27f5 => 91
    case 0x1380 => 92 case 0x6d75 => 93 case 0x24c3 => 94 case 0x0f8e => 95
    case 0x2b7a => 96 case 0x1418 => 97 case 0x1fd1 => 98 case 0x7dc1 => 99
    case 0x2d8e => 100 case 0x43af => 101 case 0x2267 => 102 case 0x7da3 => 103
    case 0x4e3d => 104 case 0x1338 => 105 case 0x50db => 106 case 0x454d => 107
    case 0x764d => 108 case 0x40a3 => 109 case 0x42e6 => 110 case 0x262b => 111
    case 0x2d2e => 112 case 0x1aea => 113 case 0x2e17 => 114 case 0x173d => 115
    case 0x3a6e => 116 case 0x71bf => 117 case 0x25f9 => 118 case 0x0a5d => 119
    case 0x7c57 => 120 case 0x0fbe => 121 case 0x46ce => 122 case 0x4939 => 123
    case 0x6b17 => 124 case 0x37bb => 125 case 0x3e91 => 126 case 0x76db => 127
    case _ => 128
  }

  lemma Row0(i: nat)
    requires 0 <= i < 8
    ensures |SEEDS| == 128 && Place(SEEDS[i]) == i
  {}

  lemma Row1(i: nat)
    requires 8 <= i < 16
    ensures |SEEDS| == 128 && Place(SEEDS[i]) == i
  {}

  lemma Row2(i: nat)
    requires 16 <= i < 24
    ensures |SEEDS| == 128 && Place(SEEDS[i]) == i
  {}

  lemma Row3(i: nat)
    requires 24 <= i < 32
    ensures |SEEDS| == 128 && Place(SEEDS[i]) == i
  {}

  lemma Row4(i: nat)
    requires 32 <= i < 40
    ensures |SEEDS| == 128 && Place(SEEDS[i]) == i
  {}

  lemma Row5(i: nat)
    requires 40 <= i < 48
    ensures |SEEDS| == 128 && Place(SEEDS[i]) == i
  {}

  lemma Row6(i: nat)
    requires 48 <= i < 56
    ensures |SEEDS| == 128 && Place(SEEDS[i]) == i
  {}

  lemma Row7(i: nat)
    requires 56 <= i < 64
    ensures |SEEDS| == 128 && Place(SEEDS[i]) == i
  {}

  lemma Row8(i: nat)
    requires 64 <= i < 72
    ensures |SEEDS| == 128 && Place(SEEDS[i]) == i
  {}

  lemma Row9(i: nat)
    requires 72 <= i < 80
    ensures |SEEDS| == 128 && Place(SEEDS[i]) == i
  {}

  lemma Row10(i: nat)
    requires 80 <= i < 88
    ensures |SEEDS| == 128 && Place(SEEDS[i]) == i
  {}

  lemma Row11(i: nat)
    requires 88 <= i < 96
    ensures |SEEDS| == 128 && Place(SEEDS[i]) == i
  {}

  lemma Row12(i: nat)
    requires 96 <= i < 104
    ensures |SEEDS| == 128 && Place(SEEDS[i]) == i
  {}

  lemma Row13(i: nat)
    requires 104 <= i < 112
    ensures |SEEDS| == 128 && Place(SEEDS[i]) == i
  {}

  lemma Row14(i: nat)
    requires 112 <= i < 120
    ensures |SEEDS| == 128 && Place(SEEDS[i]) == i
  {}

  lemma Row15(i: nat)
    requires 120 <= i < 128
    ensures |SEEDS| == 128 && Place(SEEDS[i]) == i
  {}

  lemma Placed(i: nat)
    requires i < 128
    ensures |SEEDS| == 128 && Place(SEEDS[i]) == i
  {
    hide SEEDS, Place;
    if i < 8 { Row0(i); }
    else if i < 16 { Row1(i); }
    else if i < 24 { Row2(i); }
    else if i < 32 { Row3(i); }
    else if i < 40 { Row4(i); }
    else if i < 48 { Row5(i); }
    else if i < 56 { Row6(i); }
    else if i < 64 { Row7(i); }
    else if i < 72 { Row8(i); }
    else if i < 80 { Row9(i); }
    else if i < 88 { Row10(i); }
    else if i < 96 { Row11(i); }
    else if i < 104 { Row12(i); }
    else if i < 112 { Row13(i); }
    else if i < 120 { Row14(i); }
    else { Row15(i); }
  }

  lemma SeedsDiffer(i: nat, j: nat)
    requires i < j < 128
    ensures |SEEDS| == 128 && SEEDS[i] != SEEDS[j]
  {
    hide SEEDS, Place;
    Placed(i);
    Placed(j);
  }

  /** After how many pages the seeds start again. */
  function Period(g: Geometry): nat
    requires 0 < g.pageSize <= g.eraseblock
  {
    if g.eraseblock / g.pageSize < 128 then g.eraseblock / g.pageSize else 128
  }

  /** The keys of two pages begin with the same two bytes, and are then the same throughout, exactly when the
      pages agree modulo the pages of an erase block (or 128). */
  lemma SharedKey(g: Geometry, a: nat, b: nat)
    requires 0 < g.pageSize <= g.eraseblock && g.scramble
    ensures Period(g) > 0 && PageMask(g, a).Seeded? && PageMask(g, b).Seeded?
    ensures a % Period(g) == b % Period(g) ==> PageMask(g, a) == PageMask(g, b)
    ensures Key(PageMask(g, a).seed, 0) == Key(PageMask(g, b).seed, 0)
      && Key(PageMask(g, a).seed, 1) == Key(PageMask(g, b).seed, 1)
      ==> a % Period(g) == b % Period(g)
  {
    hide SEEDS, Place, Key, PageMask;
    DivZero(g.eraseblock, g.pageSize);
    var n := Period(g);
    var r, s := a % n, b % n;
    PageSeed(g, a, a / n, r);
    PageSeed(g, b, b / n, s);
    if Key(SEEDS[r], 0) == Key(SEEDS[s], 0) && Key(SEEDS[r], 1) == Key(SEEDS[s], 1) {
      KeyTellsSeed(SEEDS[r], SEEDS[s]);
      if r < s { SeedsDiffer(r, s); } else if s < r { SeedsDiffer(s, r); }
    }
  }
}
