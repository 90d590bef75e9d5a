/**
 The binary form of a script as one sequence of bytes: a header, a table of
 sections, a table of entries and a data area. The header takes 16 bytes, each
 record 40: a 32-byte name and two words.
 */
module ScriptLayout {
  import opened BitVectors
  import opened Words
  import opened Memory
  import opened Script

  const VERSION_LIMIT: nat := 0x10
  const SECTION_LIMIT: nat := 0x100

  // ----- characters and names

  function Encoded(t: Text): (bs: seq<byte>)
    ensures |bs| == |t|
    ensures forall i :: 0 <= i < |t| ==> bs[i] == t[i] as int
  {
    seq(|t|, i requires 0 <= i < |t| => t[i] as int)
  }

  function Decoded(bs: seq<byte>): (t: Text)
    ensures |t| == |bs|
    ensures forall i :: 0 <= i < |t| ==> t[i] == bs[i] as char
  {
    seq(|bs|, i requires 0 <= i < |bs| => bs[i] as char)
  }

  lemma DecodedEncoded(t: Text)
    ensures Decoded(Encoded(t)) == t
  {}

  function Blank(k: nat): (bs: seq<byte>)
    ensures |bs| == k
    ensures forall i :: 0 <= i < k ==> bs[i] == 0
  {
    seq(k, i => 0)
  }

  function NameField(name: Text): (bs: seq<byte>)
    requires |name| <= NAME_MAX
    ensures |bs| == 32
  {
    Encoded(name) + Blank(32 - |name|)
  }

  /** Position of the first zero byte from `p` on, `pe` if there is none before it. */
  function Scan(b: seq<byte>, p: nat, pe: nat): (q: nat)
    requires p <= pe <= |b|
    ensures p <= q <= pe && (forall i :: p <= i < q ==> b[i] != 0) && (q < pe ==> b[q] == 0)
    decreases pe - p
  {
    if p == pe || b[p] == 0 then p else Scan(b, p + 1, pe)
  }

  lemma ScanFinds(b: seq<byte>, p: nat, pe: nat, q: nat)
    requires p <= q <= pe <= |b|
    requires forall i :: p <= i < q ==> b[i] != 0
    requires q < pe ==> b[q] == 0
    ensures Scan(b, p, pe) == q
  {}

  /** A name field read back, cut to what the tree stores. */
  function NameAt(b: seq<byte>, at: nat): (t: Text)
    requires at + 32 <= |b|
  {
    Decoded(b[at..Scan(b, at, at + NAME_MAX)])
  }

  lemma NameBack(b: seq<byte>, at: nat, name: Text)
    requires NameOk(name) && at + 32 <= |b| && b[at..at + 32] == NameField(name)
    ensures NameAt(b, at) == name
  {
    var f := b[at..at + 32];
    forall i | at <= i < at + |name| ensures b[i] == name[i - at] as int != 0 {
      assert f[i - at] == b[i];
    }
    assert b[at + |name|] == 0 by { assert f[|name|] == b[at + |name|]; }
    ScanFinds(b, at, at + NAME_MAX, at + |name|);
    assert b[at..at + |name|] == Encoded(name);
    DecodedEncoded(name);
  }

  // ----- records

  /** A section or entry record: name and two words. */
  function Rec(name: Text, w1: u32, w2: u32): (bs: seq<byte>)
    requires |name| <= NAME_MAX
    ensures |bs| == 40
  {
    NameField(name) + Le(w1) + Le(w2)
  }

  lemma RecBack(b: seq<byte>, at: nat, name: Text, w1: u32, w2: u32)
    requires NameOk(name) && at + 40 <= |b| && b[at..at + 40] == Rec(name, w1, w2)
    ensures NameAt(b, at) == name && WordAt(b, at + 32) == w1 && WordAt(b, at + 36) == w2
  {
    hide NameField, Le, WordAt, NameAt;
    var r := Rec(name, w1, w2);
    SubSlice(b, at, 40, 0, 32);
    SubSlice(b, at, 40, 32, 4);
    SubSlice(b, at, 40, 36, 4);
    assert r[0..0 + 32] == NameField(name) && r[32..32 + 4] == Le(w1) && r[36..36 + 4] == Le(w2);
    NameBack(b, at, name);
    WordOfLe(b, at + 32, w1);
    WordOfLe(b, at + 36, w2);
  }

  // ----- values

  function DataWords(v: Value): nat {
    match v
    case Null => 1
    case Single(_) => 1
    case Str(s) => (|s| + 3) / 4
    case Gpio(_, _, _) => 6
  }

  function TypeCode(v: Value): u32 {
    match v
    case Single(_) => 1
    case Str(_) => 2
    case Gpio(_, _, _) => 4
    case Null => 5
  }

  function GpioWords(port: u32, num: u32, d: Four): (ws: seq<u32>)
    ensures |ws| == 6
  {
    [port, num, U32(d[0]), U32(d[1]), U32(d[2]), U32(d[3])]
  }

  function DataBytes(v: Value): (bs: seq<byte>)
    ensures |bs| == 4 * DataWords(v)
  {
    match v
    case Null => Blank(4)
    case Single(w) => Le(w)
    case Str(s) => Encoded(s) + Blank(4 * DataWords(v) - |s|)
    case Gpio(port, num, d) => LeWords(GpioWords(port, num, d))
  }

  /** The type in the upper half, or-ed with the word count. */
  function Pattern(v: Value): (w: u32) {
    Or32(TypeCode(v) * 0x1_0000, DataWords(v) % TWO32)
  }

  lemma {:induction false} OrDisjoint(k: nat, t: nat, w: nat)
    requires w < Pow2(k)
    ensures Or(Shl(t, k), w) == Shl(t, k) + w
  {
    if k > 0 {
      OrDisjoint(k - 1, t, w / 2);
      assert Shl(t, k) == 2 * Shl(t, k - 1);
    } else {
      OrZero(t);
    }
  }

  lemma {:induction false} OrZero(t: nat)
    ensures Or(t, 0) == t
  {
    if t > 0 { OrZero(t / 2); }
  }

  /** As long as the count fits its half, both can be read back. */
  lemma PatternBack(v: Value)
    requires DataWords(v) <= 0xFFFF
    ensures Pattern(v) / 0x1_0000 % 0x1_0000 == TypeCode(v) && Pattern(v) % 0x1_0000 == DataWords(v)
  {
    hide Or, Shl, Pow2;
    Pow2Values();
    ShlByte(TypeCode(v));
    ShlByte(Shl(TypeCode(v), 8));
    ShlShl(TypeCode(v), 8, 8);
    OrDisjoint(16, TypeCode(v), DataWords(v));
  }

  // ----- the file as one sequence

  function WordCount(es: seq<Entry>): nat {
    if es == [] then 0 else WordCount(es[..|es| - 1]) + DataWords(es[|es| - 1].value)
  }

  predicate NamesFit(es: seq<Entry>) {
    forall i :: 0 <= i < |es| ==> |es[i].name| <= NAME_MAX
  }

  function EntryRec(e: Entry, data: nat): (bs: seq<byte>)
    requires |e.name| <= NAME_MAX
    ensures |bs| == 40
  {
    Rec(e.name, data / 4 % TWO32, Pattern(e.value))
  }

  /** Entry records, their data starting at `base`. */
  function EntryTab(es: seq<Entry>, base: nat): (bs: seq<byte>)
    requires NamesFit(es)
    ensures |bs| == 40 * |es|
  {
    if es == [] then []
    else
      var init := es[..|es| - 1];
      EntryTab(init, base) + EntryRec(es[|es| - 1], base + 4 * WordCount(init))
  }

  function DataTab(es: seq<Entry>): (bs: seq<byte>)
    ensures |bs| == 4 * WordCount(es)
  {
    if es == [] then [] else DataTab(es[..|es| - 1]) + DataBytes(es[|es| - 1].value)
  }

  predicate Fits(t: Tree) {
    forall j :: 0 <= j < |t| ==> |t[j].name| <= NAME_MAX && NamesFit(t[j].entries)
  }

  function SectionRec(s: Section, entry: nat): (bs: seq<byte>)
    requires |s.name| <= NAME_MAX
    ensures |bs| == 40
  {
    Rec(s.name, |s.entries| % TWO32, entry / 4 % TWO32)
  }

  /** Records of the first `j` sections, the entry table starting at `base`. */
  function SectionTab(t: Tree, j: nat, base: nat): (bs: seq<byte>)
    requires j <= |t| && Fits(t)
    ensures |bs| == 40 * j
  {
    if j == 0 then [] else SectionTab(t, j - 1, base) + SectionRec(t[j - 1], base + 40 * |All(t, j - 1)|)
  }

  function EntryBase(t: Tree): nat {
    16 + 40 * |t|
  }

  function DataBase(t: Tree): nat {
    EntryBase(t) + 40 * |All(t, |t|)|
  }

  /** The size of the file; `script_bin_size` computes it. */
  function Size(t: Tree): nat {
    DataBase(t) + 4 * WordCount(All(t, |t|))
  }

  function HeadBytes(sections: nat, size: nat): (bs: seq<byte>)
    ensures |bs| == 16
  {
    LeWords([sections % TWO32, size % TWO32, 1, 2])
  }

  lemma {:induction false} AllFit(t: Tree, j: nat)
    requires Fits(t) && j <= |t|
    ensures NamesFit(All(t, j))
  {
    if j > 0 { AllFit(t, j - 1); }
  }

  /** The whole file. */
  function Image(t: Tree): (bs: seq<byte>)
    requires Fits(t)
    ensures |bs| == Size(t)
  {
    AllFit(t, |t|);
    HeadBytes(|t|, Size(t)) + SectionTab(t, |t|, EntryBase(t)) + EntryTab(All(t, |t|), DataBase(t)) + DataTab(All(t, |t|))
  }

  // ----- unfolding, and tables of a prefix are prefixes of the table

  lemma WordsSnoc(es: seq<Entry>, e: Entry)
    ensures WordCount(es + [e]) == WordCount(es) + DataWords(e.value)
    ensures DataTab(es + [e]) == DataTab(es) + DataBytes(e.value)
  {
    assert (es + [e])[..|es|] == es;
  }

  lemma EntryTabSnoc(es: seq<Entry>, e: Entry, base: nat)
    requires NamesFit(es) && |e.name| <= NAME_MAX
    ensures NamesFit(es + [e])
    ensures EntryTab(es + [e], base) == EntryTab(es, base) + EntryRec(e, base + 4 * WordCount(es))
  {
    hide EntryRec, WordCount;
    assert (es + [e])[..|es|] == es;
  }

  lemma {:induction false} TabPrefix(a: seq<Entry>, b: seq<Entry>, base: nat)
    requires a <= b && NamesFit(b)
    ensures NamesFit(a) && EntryTab(a, base) <= EntryTab(b, base) && DataTab(a) <= DataTab(b) && WordCount(a) <= WordCount(b)
    decreases |b|
  {
    hide EntryRec, DataBytes, DataWords;
    if |a| < |b| {
      TabPrefix(a, b[..|b| - 1], base);
    } else {
      assert a == b;
    }
  }

  lemma {:induction false} SectionTabPrefix(t: Tree, j: nat, k: nat, base: nat)
    requires j <= k <= |t| && Fits(t)
    ensures SectionTab(t, j, base) <= SectionTab(t, k, base)
    decreases k
  {
    hide SectionRec;
    if j < k { SectionTabPrefix(t, j, k - 1, base); }
  }
}
