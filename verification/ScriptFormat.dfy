/**
 The binary format in plain numbers: where every field of a compiled script
 stands and what it holds.
 */
module ScriptFormat {
  import opened BitVectors
  import opened Words
  import opened Memory
  import opened Script
  import opened ScriptLayout
  import opened ScriptDecompile

  // ----- sizes and types

  /** Data words: as few as hold the characters, one for numbers and empty entries, six for a GPIO. */
  lemma WordsTaken(v: Value)
    ensures v.Str? ==> |v.s| <= 4 * DataWords(v) < |v.s| + 4
    ensures v.Single? || v.Null? ==> DataWords(v) == 1
    ensures v.Gpio? ==> DataWords(v) == 6
  {}

  /** The type in the upper half of the pattern word, the number of words in the lower. */
  lemma PatternWord(v: Value)
    requires DataWords(v) <= 0xFFFF
    ensures v.Single? ==> Pattern(v) == 0x1_0001
    ensures v.Str? ==> Pattern(v) == 0x2_0000 + DataWords(v)
    ensures v.Gpio? ==> Pattern(v) == 0x4_0006
    ensures v.Null? ==> Pattern(v) == 0x5_0001
  {
    hide Or, Shl, Pow2;
    Pow2Values();
    ShlByte(TypeCode(v));
    ShlByte(Shl(TypeCode(v), 8));
    ShlShl(TypeCode(v), 8, 8);
    OrDisjoint(16, TypeCode(v), DataWords(v));
  }

  // ----- fields

  /** Text at `a`, filled up with zeros to `n` bytes. */
  predicate TextAt(b: seq<byte>, a: nat, text: Text, n: nat) {
    && |text| <= n && a + n <= |b|
    && (forall i :: 0 <= i < |text| ==> b[a + i] == text[i] as int)
    && (forall i :: a + |text| <= i < a + n ==> b[i] == 0)
  }

  /** A record: 32 bytes of name, two words. */
  predicate RecordAt(b: seq<byte>, a: nat, name: Text, w1: nat, w2: nat) {
    TextAt(b, a, name, 32) && a + 40 <= |b| && WordAt(b, a + 32) == w1 && WordAt(b, a + 36) == w2
  }

  lemma RecordOf(b: seq<byte>, a: nat, name: Text, w1: u32, w2: u32)
    requires |name| <= NAME_MAX && a + 40 <= |b| && b[a..a + 40] == Rec(name, w1, w2)
    ensures RecordAt(b, a, name, w1, w2)
  {
    hide Le, WordAt, TextAt;
    var r := Rec(name, w1, w2);
    SubSlice(b, a, 40, 0, 32);
    SubSlice(b, a, 40, 32, 4);
    SubSlice(b, a, 40, 36, 4);
    assert r[0..0 + 32] == NameField(name) && r[32..32 + 4] == Le(w1) && r[36..36 + 4] == Le(w2);
    PaddedText(b, a, name, 32);
    WordOfLe(b, a + 32, w1);
    WordOfLe(b, a + 36, w2);
  }

  lemma PaddedText(b: seq<byte>, a: nat, text: Text, n: nat)
    requires |text| <= n && a + n <= |b| && b[a..a + n] == Encoded(text) + Blank(n - |text|)
    ensures TextAt(b, a, text, n)
  {
    var x := b[a..a + n];
    forall i | 0 <= i < |text| ensures b[a + i] == text[i] as int { assert x[i] == b[a + i]; }
    forall i | a + |text| <= i < a + n ensures b[i] == 0 { assert x[i - a] == b[i]; }
  }

  // ----- header, sections, entries

  /** Number of sections, size of the file, version 1.2. */
  lemma HeaderFields(t: Tree)
    requires Fits(t) && |t| < TWO32 && |Image(t)| < TWO32
    ensures var b := Image(t);
      |b| >= 16 && WordAt(b, 0) == |t| && WordAt(b, 4) == |b| && WordAt(b, 8) == 1 && WordAt(b, 12) == 2
  {
    hide WordAt, Image, HeadBytes, SectionTab, EntryTab, DataTab, All, WordCount;
    AllFit(t, |t|);
    Areas(t);
    HeadBack(Image(t), |t|, Size(t));
  }

  /** Where the record of entry `c` of section `j` stands: behind all section records and all entries before it. */
  function EntryPlace(t: Tree, j: nat, c: nat): nat
    requires j <= |t|
  {
    16 + 40 * |t| + 40 * (|All(t, j)| + c)
  }

  /** And its data: behind all entry records and the data of all entries before it. */
  function DataPlace(t: Tree, j: nat, c: nat): nat
    requires j < |t| && c <= |t[j].entries|
  {
    EntryPlace(t, |t|, 0) + 4 * WordCount(Before(t, j, c))
  }

  /** The record of section `j`: its name, the number of its entries, and the word offset of the first. */
  lemma SectionFields(t: Tree, j: nat)
    requires Fits(t) && j < |t| && |Image(t)| < TWO32
    ensures RecordAt(Image(t), 16 + 40 * j, t[j].name, |t[j].entries|, EntryPlace(t, j, 0) / 4)
    ensures EntryPlace(t, j, |t[j].entries|) <= |Image(t)| && EntryPlace(t, j, 0) % 4 == 0
  {
    hide All, Image, WordCount, SectionTab, EntryTab, DataTab, HeadBytes, Rec, RecordAt;
    AllFit(t, |t|);
    SectionAt(t, j);
    EntriesFit(t, j);
    EntryAligned(t, j);
    RecordOf(Image(t), 16 + 40 * j, t[j].name, |t[j].entries| % TWO32, EntryPlace(t, j, 0) / 4 % TWO32);
  }

  /** The record of an entry: its name, the word offset of its data, its pattern word. */
  lemma EntryFields(t: Tree, j: nat, c: nat)
    requires Fits(t) && j < |t| && c < |t[j].entries| && |Image(t)| < TWO32
    ensures var e := t[j].entries[c];
      RecordAt(Image(t), EntryPlace(t, j, c), e.name, DataPlace(t, j, c) / 4, Pattern(e.value))
    ensures DataPlace(t, j, c) + 4 * DataWords(t[j].entries[c].value) <= |Image(t)| && DataPlace(t, j, c) % 4 == 0
  {
    hide All, Image, WordCount, EntryTab, DataTab, HeadBytes, Rec, RecordAt, Pattern, DataWords, DataBytes;
    var e, es := t[j].entries[c], Before(t, j, c);
    AllFit(t, |t|);
    BeforeNext(t, j, c);
    assert NamesFit(t[j].entries);
    RecordPiece(t, es, e);
    DataPiece(t, es, e);
    DataAligned(t, WordCount(es));
    RecordOf(Image(t), EntryPlace(t, j, c), e.name, DataPlace(t, j, c) / 4 % TWO32, Pattern(e.value));
  }

  /** The data of an entry. */
  predicate ValueAt(b: seq<byte>, a: nat, v: Value) {
    match v
    case Single(w) => a + 4 <= |b| && WordAt(b, a) == w
    case Null => a + 4 <= |b| && WordAt(b, a) == 0
    case Str(s) => TextAt(b, a, s, 4 * DataWords(v))
    case Gpio(port, num, d) =>
      && a + 24 <= |b| && WordAt(b, a) == port && WordAt(b, a + 4) == num
      && S32(WordAt(b, a + 8)) == d[0] && S32(WordAt(b, a + 12)) == d[1]
      && S32(WordAt(b, a + 16)) == d[2] && S32(WordAt(b, a + 20)) == d[3]
  }

  lemma ValueOf(b: seq<byte>, a: nat, v: Value)
    requires a + 4 * DataWords(v) <= |b| && b[a..a + 4 * DataWords(v)] == DataBytes(v)
    ensures ValueAt(b, a, v)
  {
    hide WordAt, TextAt, Le, LeWords, Blank, Encoded;
    match v
    case Single(w) => WordOfLe(b, a, w);
    case Null => ZeroWord(b, a);
    case Str(s) => PaddedText(b, a, s, 4 * DataWords(v));
    case Gpio(port, num, d) => GpioParts(b, a, port, num, d);
  }

  lemma ZeroWord(b: seq<byte>, a: nat)
    requires a + 4 <= |b| && b[a..a + 4] == Blank(4)
    ensures WordAt(b, a) == 0
  {
    var x := b[a..a + 4];
    assert x[0] == b[a] && x[1] == b[a + 1] && x[2] == b[a + 2] && x[3] == b[a + 3];
  }

  lemma GpioParts(b: seq<byte>, a: nat, port: u32, num: u32, d: Four)
    requires a + 24 <= |b| && b[a..a + 24] == LeWords(GpioWords(port, num, d))
    ensures ValueAt(b, a, Gpio(port, num, d))
  {
    hide WordAt, LeWords, Le;
    var ws := GpioWords(port, num, d);
    forall i | 0 <= i < 6 ensures WordAt(b, a + 4 * i) == ws[i] {
      LeWordsAt(ws, i);
      SubSlice(b, a, 24, 4 * i, 4);
      WordOfLe(b, a + 4 * i, ws[i]);
    }
    assert WordAt(b, a + 4 * 0) == ws[0] && WordAt(b, a + 4 * 1) == ws[1] && WordAt(b, a + 4 * 2) == ws[2];
    assert WordAt(b, a + 4 * 3) == ws[3] && WordAt(b, a + 4 * 4) == ws[4] && WordAt(b, a + 4 * 5) == ws[5];
    SignBack(d[0]);
    SignBack(d[1]);
    SignBack(d[2]);
    SignBack(d[3]);
  }

  lemma DataFields(t: Tree, j: nat, c: nat)
    requires Fits(t) && j < |t| && c < |t[j].entries|
    ensures ValueAt(Image(t), DataPlace(t, j, c), t[j].entries[c].value)
  {
    hide All, Image, WordCount, EntryTab, DataTab, HeadBytes, ValueAt, DataWords, DataBytes;
    var e, es := t[j].entries[c], Before(t, j, c);
    AllFit(t, |t|);
    BeforeNext(t, j, c);
    assert NamesFit(t[j].entries);
    DataPiece(t, es, e);
    ValueOf(Image(t), DataPlace(t, j, c), e.value);
  }

  /** The smallest script with a string of four characters, field by field. */
  lemma Example()
    ensures var t: Tree := [Section("s", [Entry("k", Str("abcd"))])];
      && Fits(t) && |Image(t)| == 100
      && RecordAt(Image(t), 16, "s", 1, 14) && RecordAt(Image(t), 56, "k", 24, 0x2_0001) && TextAt(Image(t), 96, "abcd", 4)
  {
    hide Image, RecordAt, TextAt, Pattern;
    var e := Entry("k", Str("abcd"));
    var t: Tree := [Section("s", [e])];
    assert All(t, 0) == [];
    AllNext(t, 0);
    assert All(t, 1) == [e] && Before(t, 0, 0) == [];
    assert [e][..0] == [];
    WordsSnoc([], e);
    assert [] + [e] == [e];
    assert Size(t) == 100;
    SectionFields(t, 0);
    EntryFields(t, 0, 0);
    PatternWord(e.value);
    DataFields(t, 0, 0);
  }
}
