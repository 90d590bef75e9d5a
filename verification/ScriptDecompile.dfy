/**
 Reading a binary script back, and the law that what the compiler wrote comes
 back as the same tree, or is refused for a stated reason.
 */
module ScriptDecompile {
  import opened BitVectors
  import opened Memory
  import opened Script
  import opened ScriptLayout

  /** One decoded record; nameless empty entries are dropped. */
  datatype Item = Got(entry: Entry) | Dropped

  function DecodeGpio(b: seq<byte>, name: Text, at: nat, words: nat): (r: Res<Item>) {
    if at + 24 > |b| then Fault
    else
      var port := WordAt(b, at);
      if words == 6 && S32(port) != POWER && (S32(port) < 1 || S32(port) > GPIO_BANK_MAX) then Refused
      else if name == [] then Fault
      else Ok(Got(Entry(name, Gpio(port, WordAt(b, at + 4), [
                                     S32(WordAt(b, at + 8)), S32(WordAt(b, at + 12)),
                                     S32(WordAt(b, at + 16)), S32(WordAt(b, at + 20))]))))
  }

  function DecodeString(b: seq<byte>, name: Text, at: nat, words: nat): (r: Res<Item>) {
    var pe := at + 4 * words;
    if at > |b| then Fault
    else
      var q := Scan(b, at, if pe <= |b| then pe else |b|);
      if q == |b| && q < pe then Fault
      else Ok(Got(Entry(name, Str(Decoded(b[at..q])))))
  }

  /** One entry record. */
  function DecodeEntry(b: seq<byte>, at: nat): (r: Res<Item>)
    requires at + 40 <= |b|
  {
    var name, off, pattern := NameAt(b, at), S32(WordAt(b, at + 32)), WordAt(b, at + 36);
    var kind, words := pattern / 0x1_0000 % 0x1_0000, pattern % 0x1_0000;
    if kind == 5 then Ok(if name == [] then Dropped else Got(Entry(name, Null)))
    else if kind != 1 && kind != 2 && kind != 4 then Refused
    else if off < 0 then Fault
    else if kind == 1 then
      if 4 * off + 4 > |b| || name == [] then Fault else Ok(Got(Entry(name, Single(WordAt(b, 4 * off)))))
    else if kind == 2 then DecodeString(b, name, 4 * off, words)
    else DecodeGpio(b, name, 4 * off, words)
  }

  /** `n` consecutive entry records, appended to `acc`. */
  function DecodeEntries(b: seq<byte>, at: nat, n: nat, acc: seq<Entry>): (r: Res<seq<Entry>>)
    requires at + 40 * n <= |b|
    decreases n
  {
    if n == 0 then Ok(acc)
    else
      match DecodeEntry(b, at)
      case Ok(Got(e)) => DecodeEntries(b, at + 40, n - 1, acc + [e])
      case Ok(Dropped) => DecodeEntries(b, at + 40, n - 1, acc)
      case Refused => Refused
      case Fault => Fault
  }

  function DecodeSection(b: seq<byte>, at: nat): (r: Res<Section>)
    requires at + 40 <= |b|
  {
    var name, length, off := NameAt(b, at), S32(WordAt(b, at + 32)), S32(WordAt(b, at + 36));
    if off < 0 || off > |b| / 4 then Refused
    else if length < 0 || length > (|b| - 4 * off) / 40 then Refused
    else if name == [] then Fault
    else
      match DecodeEntries(b, 4 * off, length, [])
      case Ok(es) => Ok(Section(name, es))
      case Refused => Refused
      case Fault => Fault
  }

  function DecodeSections(b: seq<byte>, at: nat, n: nat, acc: Tree): (r: Res<Tree>)
    decreases n
  {
    if n == 0 then Ok(acc)
    else if at + 40 > |b| then Fault
    else
      match DecodeSection(b, at)
      case Ok(s) => DecodeSections(b, at + 40, n - 1, acc + [s])
      case Refused => Refused
      case Fault => Fault
  }

  function Decode(b: seq<byte>): (r: Res<Tree>) {
    if |b| < 16 then Fault
    else if WordAt(b, 8) > VERSION_LIMIT || WordAt(b, 12) > VERSION_LIMIT then Refused
    else if WordAt(b, 0) > SECTION_LIMIT then Refused
    else DecodeSections(b, 16, WordAt(b, 0), [])
  }

  // ----- the reader's loops

  method DecompileSection(b: seq<byte>, at: nat) returns (r: Res<Section>)
    requires at + 40 <= |b|
    ensures r == DecodeSection(b, at)
  {
    hide NameAt, WordAt, DecodeEntry;
    var name, length, off := NameAt(b, at), S32(WordAt(b, at + 32)), S32(WordAt(b, at + 36));
    if off < 0 || off > |b| / 4 { return Refused; }
    if length < 0 || length > (|b| - 4 * off) / 40 { return Refused; }
    if name == [] { return Fault; }
    var es: seq<Entry> := [];
    var cur, i := 4 * off, length;
    while i != 0
      invariant 0 <= i <= length && cur == 4 * off + 40 * (length - i) && cur + 40 * i <= |b|
      invariant DecodeEntries(b, cur, i, es) == DecodeEntries(b, 4 * off, length, [])
    {
      i := i - 1;
      match DecodeEntry(b, cur) {
        case Refused => return Refused;
        case Fault => return Fault;
        case Ok(Dropped) =>
        case Ok(Got(e)) => es := es + [e];
      }
      cur := cur + 40;
    }
    r := Ok(Section(name, es));
  }

  method DecompileBin(b: seq<byte>) returns (r: Res<Tree>)
    ensures r == Decode(b)
  {
    hide WordAt, DecodeSection;
    if |b| < 16 { return Fault; }
    if WordAt(b, 8) > VERSION_LIMIT || WordAt(b, 12) > VERSION_LIMIT { return Refused; }
    var sections: nat := WordAt(b, 0);
    if sections > SECTION_LIMIT { return Refused; }
    var t: Tree := [];
    var i := 0;
    while i < sections
      invariant i <= sections
      invariant DecodeSections(b, 16 + 40 * i, sections - i, t) == DecodeSections(b, 16, sections, [])
    {
      var at := 16 + 40 * i;
      if at + 40 > |b| { return Fault; }
      var s := DecompileSection(b, at);
      match s {
        case Refused => return Refused;
        case Fault => return Fault;
        case Ok(section) => t := t + [section];
      }
      i := i + 1;
    }
    r := Ok(t);
  }

  // ----- what the compiler may have been given

  /** An entry the tree's constructors can build and whose size the format can state. */
  predicate Sound(e: Entry) {
    && NameOk(e.name)
    && (e.value.Str? || e.name != [])
    && (e.value.Str? ==> NulFree(e.value.s) && DataWords(e.value) <= 0xFFFF)
  }

  predicate Known(e: Entry) {
    e.value.Gpio? ==> PortKnown(e.value.port)
  }

  predicate SoundSection(s: Section) {
    NameOk(s.name) && s.name != [] && forall i :: 0 <= i < |s.entries| ==> Sound(s.entries[i])
  }

  predicate SoundTree(t: Tree) {
    (forall j :: 0 <= j < |t| ==> SoundSection(t[j])) && Size(t) < 0x8000_0000
  }

  predicate KnownFrom(es: seq<Entry>, i: nat) {
    forall k :: i <= k < |es| ==> Known(es[k])
  }

  predicate KnownSections(t: Tree, j: nat) {
    forall k :: j <= k < |t| ==> KnownFrom(t[k].entries, 0)
  }

  // ----- values come back

  lemma SingleBack(b: seq<byte>, at: nat, w: u32)
    requires at + 4 <= |b| && b[at..at + 4] == Le(w)
    ensures WordAt(b, at) == w
  {
    hide Le, WordAt;
    WordOfLe(b, at, w);
  }

  lemma StringBack(b: seq<byte>, name: Text, at: nat, s: Text)
    requires NulFree(s) && at + 4 * DataWords(Str(s)) <= |b|
    requires b[at..at + 4 * DataWords(Str(s))] == DataBytes(Str(s))
    ensures DecodeString(b, name, at, DataWords(Str(s))) == Ok(Got(Entry(name, Str(s))))
  {
    var n := 4 * DataWords(Str(s));
    var d := b[at..at + n];
    forall i | at <= i < at + |s| ensures b[i] == s[i - at] as int != 0 {
      assert d[i - at] == b[i];
    }
    if |s| < n { assert d[|s|] == b[at + |s|] == 0; }
    ScanFinds(b, at, at + n, at + |s|);
    assert b[at..at + |s|] == Encoded(s);
    DecodedEncoded(s);
  }

  lemma SignBack(x: i32)
    ensures S32(U32(x)) == x
  {}

  lemma GpioBack(b: seq<byte>, name: Text, at: nat, port: u32, num: u32, d: Four)
    requires name != [] && at + 24 <= |b| && b[at..at + 24] == LeWords(GpioWords(port, num, d))
    ensures DecodeGpio(b, name, at, 6) == if PortKnown(port) then Ok(Got(Entry(name, Gpio(port, num, d)))) else Refused
  {
    hide WordAt, LeWords, Le;
    var ws := GpioWords(port, num, d);
    forall i | 0 <= i < 6 ensures WordAt(b, at + 4 * i) == ws[i] {
      LeWordsAt(ws, i);
      SubSlice(b, at, 24, 4 * i, 4);
      WordOfLe(b, at + 4 * i, ws[i]);
    }
    assert WordAt(b, at + 4 * 0) == ws[0] && WordAt(b, at + 4 * 1) == ws[1] && WordAt(b, at + 4 * 2) == ws[2];
    assert WordAt(b, at + 4 * 3) == ws[3] && WordAt(b, at + 4 * 4) == ws[4] && WordAt(b, at + 4 * 5) == ws[5];
    SignBack(d[0]);
    SignBack(d[1]);
    SignBack(d[2]);
    SignBack(d[3]);
    assert d == [d[0], d[1], d[2], d[3]];
  }

  /** One entry, given its record and its data. */
  lemma EntryBack(b: seq<byte>, at: nat, e: Entry, data: nat)
    requires Sound(e) && at + 40 <= |b| && b[at..at + 40] == EntryRec(e, data)
    requires data % 4 == 0 && data + 4 * DataWords(e.value) <= |b| < 0x8000_0000
    requires b[data..data + 4 * DataWords(e.value)] == DataBytes(e.value)
    ensures DecodeEntry(b, at) == if Known(e) then Ok(Got(e)) else Refused
  {
    hide WordAt, LeWords, Le, Pattern, NameAt, DecodeGpio, DecodeString, Rec;
    RecBack(b, at, e.name, data / 4 % TWO32, Pattern(e.value));
    PatternBack(e.value);
    assert 4 * S32(WordAt(b, at + 32)) == data;
    match e.value
    case Null =>
    case Single(w) => SingleBack(b, data, w);
    case Str(s) => StringBack(b, e.name, data, s);
    case Gpio(port, num, d) => GpioBack(b, e.name, data, port, num, d);
  }

  // ----- the layout found in the image

  lemma AreaSlices(h: seq<byte>, s: seq<byte>, e: seq<byte>, d: seq<byte>)
    ensures var b := h + s + e + d;
      && b[..|h|] == h && b[|h|..|h| + |s|] == s
      && b[|h| + |s|..|h| + |s| + |e|] == e && b[|h| + |s| + |e|..] == d
  {}

  lemma Areas(t: Tree)
    requires Fits(t) && NamesFit(All(t, |t|))
    ensures |Image(t)| == Size(t) && 16 <= EntryBase(t) <= DataBase(t) <= Size(t)
    ensures Image(t)[..16] == HeadBytes(|t|, Size(t))
    ensures Image(t)[16..EntryBase(t)] == SectionTab(t, |t|, EntryBase(t))
    ensures Image(t)[EntryBase(t)..DataBase(t)] == EntryTab(All(t, |t|), DataBase(t))
    ensures Image(t)[DataBase(t)..] == DataTab(All(t, |t|))
  {
    hide HeadBytes, SectionTab, EntryTab, DataTab, All, WordCount;
    AreaSlices(HeadBytes(|t|, Size(t)), SectionTab(t, |t|, EntryBase(t)), EntryTab(All(t, |t|), DataBase(t)), DataTab(All(t, |t|)));
  }

  /** The piece of an area that a prefix of its table ends with. */
  lemma AreaPiece(b: seq<byte>, lo: nat, hi: nat, tab: seq<byte>, part: seq<byte>, piece: seq<byte>)
    requires lo <= hi <= |b| && b[lo..hi] == tab && part + piece <= tab
    ensures lo + |part| + |piece| <= hi && b[lo + |part|..lo + |part| + |piece|] == piece
  {
    var x := b[lo + |part|..lo + |part| + |piece|];
    forall i | 0 <= i < |piece| ensures x[i] == piece[i] {
      assert (part + piece)[|part| + i] == tab[|part| + i] == b[lo + (|part| + i)];
    }
  }

  /** After the entries `es`, the next of `all` is `e`. */
  predicate Next(es: seq<Entry>, e: Entry, all: seq<Entry>) {
    es + [e] <= all
  }

  /** The record of an entry stands at its place in the image. */
  lemma RecordPiece(t: Tree, es: seq<Entry>, e: Entry)
    requires Fits(t) && NamesFit(All(t, |t|)) && Next(es, e, All(t, |t|)) && |e.name| <= NAME_MAX
    ensures EntryBase(t) + 40 * |es| + 40 <= |Image(t)|
    ensures Image(t)[EntryBase(t) + 40 * |es|..EntryBase(t) + 40 * |es| + 40] == EntryRec(e, DataBase(t) + 4 * WordCount(es))
  {
    hide All, EntryTab, Image, EntryRec, WordCount, Fits, NamesFit, EntryBase, DataBase, Next;
    var b, all, base := Image(t), All(t, |t|), DataBase(t);
    var tab, rec := EntryTab(all, base), EntryRec(e, base + 4 * WordCount(es));
    assert EntryBase(t) <= base <= |b| && b[EntryBase(t)..base] == tab by { EntryArea(t); }
    assert 40 * |es| + 40 <= |tab| && tab[40 * |es|..40 * |es| + 40] == rec by { RecordSlice(es, e, all, base); }
    SliceIs(b, EntryBase(t), base, tab, 40 * |es|, 40, rec);
  }

  lemma SliceIs(b: seq<byte>, lo: nat, hi: nat, tab: seq<byte>, k: nat, l: nat, piece: seq<byte>)
    requires lo <= hi <= |b| && b[lo..hi] == tab && k + l <= |tab| && tab[k..k + l] == piece
    ensures lo + k + l <= |b| && b[lo + k..lo + k + l] == piece
  {
    SliceOf(b, lo, hi, tab, k, l);
  }

  /** And so does its data. */
  lemma DataPiece(t: Tree, es: seq<Entry>, e: Entry)
    requires Fits(t) && NamesFit(All(t, |t|)) && Next(es, e, All(t, |t|)) && |e.name| <= NAME_MAX
    ensures DataBase(t) + 4 * WordCount(es) + 4 * DataWords(e.value) <= |Image(t)|
    ensures Image(t)[DataBase(t) + 4 * WordCount(es)..DataBase(t) + 4 * WordCount(es) + 4 * DataWords(e.value)] == DataBytes(e.value)
  {
    hide All, EntryTab, DataTab, Image, EntryRec, DataBytes, WordCount, DataWords, Size, Fits, NamesFit, EntryBase, DataBase, Next;
    DataArea(t);
    DataSlice(es, e, All(t, |t|));
    SliceOf(Image(t), DataBase(t), |Image(t)|, DataTab(All(t, |t|)), 4 * WordCount(es), 4 * DataWords(e.value));
  }

  lemma RecordSlice(es: seq<Entry>, e: Entry, all: seq<Entry>, base: nat)
    requires NamesFit(all) && Next(es, e, all) && |e.name| <= NAME_MAX
    ensures 40 * |es| + 40 <= 40 * |all|
    ensures EntryTab(all, base)[40 * |es|..40 * |es| + 40] == EntryRec(e, base + 4 * WordCount(es))
  {
    hide EntryTab, DataTab, EntryRec, DataBytes, WordCount, DataWords, NamesFit;
    TabPrefix(es + [e], all, base);
    TabPrefix(es, es + [e], base);
    EntryTabSnoc(es, e, base);
    var part, piece, tab := EntryTab(es, base), EntryRec(e, base + 4 * WordCount(es)), EntryTab(all, base);
    PrefixEnd(part, piece, tab);
    assert |part| == 40 * |es|;
  }

  lemma DataSlice(es: seq<Entry>, e: Entry, all: seq<Entry>)
    requires NamesFit(all) && Next(es, e, all) && |e.name| <= NAME_MAX
    ensures WordCount(es) + DataWords(e.value) <= WordCount(all)
    ensures DataTab(all)[4 * WordCount(es)..4 * WordCount(es) + 4 * DataWords(e.value)] == DataBytes(e.value)
  {
    hide EntryTab, DataTab, EntryRec, DataBytes, WordCount, DataWords, NamesFit;
    TabPrefix(es + [e], all, 0);
    WordsSnoc(es, e);
    PrefixEnd(DataTab(es), DataBytes(e.value), DataTab(all));
  }

  lemma SliceOf(b: seq<byte>, lo: nat, hi: nat, tab: seq<byte>, k: nat, l: nat)
    requires lo <= hi <= |b| && b[lo..hi] == tab && k + l <= |tab|
    ensures lo + k + l <= |b| && b[lo + k..lo + k + l] == tab[k..k + l]
  {
    SubSlice(b, lo, hi - lo, k, l);
  }

  lemma PrefixEnd(part: seq<byte>, piece: seq<byte>, tab: seq<byte>)
    requires part + piece <= tab
    ensures |part| + |piece| <= |tab| && tab[|part|..|part| + |piece|] == piece
  {
    forall i | 0 <= i < |piece| ensures tab[|part| + i] == piece[i] {
      assert (part + piece)[|part| + i] == piece[i];
    }
  }

  lemma EntryArea(t: Tree)
    requires Fits(t) && NamesFit(All(t, |t|))
    ensures EntryBase(t) <= DataBase(t) <= |Image(t)| && Image(t)[EntryBase(t)..DataBase(t)] == EntryTab(All(t, |t|), DataBase(t))
  {
    hide *;
    Areas(t);
  }

  lemma DataArea(t: Tree)
    requires Fits(t) && NamesFit(All(t, |t|))
    ensures DataBase(t) <= |Image(t)| && Image(t)[DataBase(t)..|Image(t)|] == DataTab(All(t, |t|))
  {
    hide *;
    Areas(t);
  }

  /** Entry `c` of section `j` comes back from the image. */
  lemma EntryAtBack(t: Tree, j: nat, c: nat)
    requires SoundTree(t) && Fits(t) && NamesFit(All(t, |t|)) && j < |t| && c < |t[j].entries|
    ensures var at := EntryBase(t) + 40 * (|All(t, j)| + c);
      && at + 40 <= |Image(t)|
      && DecodeEntry(Image(t), at) == if Known(t[j].entries[c]) then Ok(Got(t[j].entries[c])) else Refused
  {
    hide All, EntryTab, DataTab, Image, EntryRec, DataBytes, DataWords, WordCount, Size, Fits, NamesFit, EntryBase, DataBase, DecodeEntry, Before, Sound, SoundTree, Known;
    var e, es := t[j].entries[c], Before(t, j, c);
    SoundEntryAt(t, j, c);
    BeforeNext(t, j, c);
    RecordPiece(t, es, e);
    DataPiece(t, es, e);
    EntryBack(Image(t), EntryBase(t) + 40 * |es|, e, DataBase(t) + 4 * WordCount(es));
  }

  lemma SoundEntryAt(t: Tree, j: nat, c: nat)
    requires SoundTree(t) && Fits(t) && j < |t| && c < |t[j].entries|
    ensures Sound(t[j].entries[c]) && |t[j].entries[c].name| <= NAME_MAX && |Image(t)| < 0x8000_0000
    ensures |Before(t, j, c)| == |All(t, j)| + c && (DataBase(t) + 4 * WordCount(Before(t, j, c))) % 4 == 0
  {
    hide Image, All;
    assert SoundSection(t[j]);
    DataAligned(t, WordCount(Before(t, j, c)));
  }

  lemma DataAligned(t: Tree, w: nat)
    ensures (DataBase(t) + 4 * w) % 4 == 0
  {
    hide All;
    assert DataBase(t) + 4 * w == 4 * (4 + 10 * |t| + 10 * |All(t, |t|)| + w);
  }

  lemma {:induction false} EntriesBack(t: Tree, j: nat, c: nat)
    requires SoundTree(t) && Fits(t) && NamesFit(All(t, |t|)) && j < |t| && c <= |t[j].entries|
    ensures var at := EntryBase(t) + 40 * (|All(t, j)| + c);
      var es := t[j].entries;
      && at + 40 * (|es| - c) <= |Image(t)|
      && DecodeEntries(Image(t), at, |es| - c, es[..c]) == if KnownFrom(es, c) then Ok(es) else Refused
    decreases |t[j].entries| - c
  {
    hide All, DecodeEntry, Image, WordCount;
    var es := t[j].entries;
    if c == |es| {
      EntriesFit(t, j);
      assert es[..c] == es;
    } else {
      EntryAtBack(t, j, c);
      EntriesBack(t, j, c + 1);
      assert es[..c] + [es[c]] == es[..c + 1];
      assert KnownFrom(es, c) <==> Known(es[c]) && KnownFrom(es, c + 1);
    }
  }

  lemma EntriesFit(t: Tree, j: nat)
    requires Fits(t) && NamesFit(All(t, |t|)) && j < |t|
    ensures |All(t, j)| + |t[j].entries| <= |All(t, |t|)|
    ensures EntryBase(t) + 40 * (|All(t, j)| + |t[j].entries|) <= |Image(t)|
  {
    hide All, Image, WordCount;
    AllNext(t, j);
    AllPrefix(t, j + 1, |t|);
  }

  /** One section, given its record and what its entries decode to. */
  lemma SectionOf(b: seq<byte>, at: nat, s: Section, entry: nat, known: bool)
    requires NameOk(s.name) && s.name != [] && at + 40 <= |b| < 0x8000_0000 && b[at..at + 40] == SectionRec(s, entry)
    requires entry % 4 == 0 && entry + 40 * |s.entries| <= |b|
    requires DecodeEntries(b, entry, |s.entries|, []) == if known then Ok(s.entries) else Refused
    ensures DecodeSection(b, at) == if known then Ok(s) else Refused
  {
    hide WordAt, Rec, NameAt, DecodeEntries;
    RecBack(b, at, s.name, |s.entries| % TWO32, entry / 4 % TWO32);
    assert 4 * S32(WordAt(b, at + 36)) == entry && S32(WordAt(b, at + 32)) == |s.entries|;
  }

  /** The record of section `j` stands at its place in the image. */
  lemma SectionAt(t: Tree, j: nat)
    requires Fits(t) && NamesFit(All(t, |t|)) && j < |t|
    ensures 16 + 40 * (j + 1) <= |Image(t)|
    ensures Image(t)[16 + 40 * j..16 + 40 * j + 40] == SectionRec(t[j], EntryBase(t) + 40 * |All(t, j)|)
  {
    hide All, Image, WordCount, SectionTab, EntryTab, DataTab, HeadBytes, SectionRec;
    var b, base := Image(t), EntryBase(t);
    Areas(t);
    SectionTabPrefix(t, j + 1, |t|, base);
    SectionTabNext(t, j, base);
    AreaPiece(b, 16, base, SectionTab(t, |t|, base), SectionTab(t, j, base), SectionRec(t[j], base + 40 * |All(t, j)|));
  }

  lemma SoundAt(t: Tree, j: nat)
    requires SoundTree(t) && Fits(t) && j < |t|
    ensures NameOk(t[j].name) && t[j].name != [] && |t[j].name| <= NAME_MAX && |Image(t)| < 0x8000_0000
  {
    hide Image, Sound, All;
    assert SoundSection(t[j]);
  }

  lemma EntryAligned(t: Tree, j: nat)
    requires j <= |t|
    ensures (EntryBase(t) + 40 * |All(t, j)|) % 4 == 0
  {
    hide All;
    assert EntryBase(t) + 40 * |All(t, j)| == 4 * (4 + 10 * |t| + 10 * |All(t, j)|);
  }

  lemma SectionBack(t: Tree, j: nat)
    requires SoundTree(t) && Fits(t) && NamesFit(All(t, |t|)) && j < |t|
    ensures 16 + 40 * (j + 1) <= |Image(t)|
    ensures DecodeSection(Image(t), 16 + 40 * j) == if KnownFrom(t[j].entries, 0) then Ok(t[j]) else Refused
  {
    hide *;
    SoundAt(t, j);
    EntryAligned(t, j);
    SectionAt(t, j);
    EntriesFit(t, j);
    EntriesBack(t, j, 0);
    assert t[j].entries[..0] == [];
    SectionOf(Image(t), 16 + 40 * j, t[j], EntryBase(t) + 40 * |All(t, j)|, KnownFrom(t[j].entries, 0));
  }

  lemma SectionTabNext(t: Tree, j: nat, base: nat)
    requires j < |t| && Fits(t)
    ensures SectionTab(t, j + 1, base) == SectionTab(t, j, base) + SectionRec(t[j], base + 40 * |All(t, j)|)
  {}

  lemma {:induction false} SectionsBack(t: Tree, j: nat)
    requires SoundTree(t) && Fits(t) && NamesFit(All(t, |t|)) && j <= |t|
    ensures DecodeSections(Image(t), 16 + 40 * j, |t| - j, t[..j]) == if KnownSections(t, j) then Ok(t) else Refused
    decreases |t| - j
  {
    hide All, Image, WordCount, DecodeSection, KnownFrom;
    if j == |t| {
      assert t[..j] == t;
    } else {
      SectionBack(t, j);
      SectionsBack(t, j + 1);
      assert t[..j] + [t[j]] == t[..j + 1];
      assert KnownSections(t, j) <==> KnownFrom(t[j].entries, 0) && KnownSections(t, j + 1);
    }
  }

  lemma SoundFits(t: Tree)
    requires SoundTree(t)
    ensures Fits(t) && NamesFit(All(t, |t|))
  {
    forall j | 0 <= j < |t| ensures |t[j].name| <= NAME_MAX && NamesFit(t[j].entries) {
      assert SoundSection(t[j]);
      forall i | 0 <= i < |t[j].entries| ensures |t[j].entries[i].name| <= NAME_MAX { assert Sound(t[j].entries[i]); }
    }
    AllFit(t, |t|);
  }

  lemma HeadBack(b: seq<byte>, sections: nat, size: nat)
    requires 16 <= |b| && b[..16] == HeadBytes(sections, size)
    ensures WordAt(b, 0) == sections % TWO32 && WordAt(b, 4) == size % TWO32 && WordAt(b, 8) == 1 && WordAt(b, 12) == 2
  {
    hide WordAt, LeWords, Le;
    var ws: seq<u32> := [sections % TWO32, size % TWO32, 1, 2];
    assert b[0..0 + 16] == LeWords(ws);
    forall i | 0 <= i < 4 ensures WordAt(b, 4 * i) == ws[i] {
      LeWordsAt(ws, i);
      SubSlice(b, 0, 16, 4 * i, 4);
      WordOfLe(b, 4 * i, ws[i]);
    }
    assert WordAt(b, 4 * 0) == ws[0] && WordAt(b, 4 * 1) == ws[1] && WordAt(b, 4 * 2) == ws[2] && WordAt(b, 4 * 3) == ws[3];
  }

  /**
   The round trip, with its exact condition: the compiled file of every sound
   tree decompiles to that tree if it has at most 256 sections and only known
   port banks, and is refused, never misread, otherwise.
   */
  lemma RoundTrip(t: Tree)
    requires SoundTree(t)
    ensures Fits(t)
    ensures Decode(Image(t)) == if |t| <= SECTION_LIMIT && KnownSections(t, 0) then Ok(t) else Refused
  {
    hide All, Image, WordCount, DecodeSections, KnownSections, HeadBytes, WordAt, SectionTab, EntryTab, DataTab;
    SoundFits(t);
    Areas(t);
    HeadBack(Image(t), |t|, Size(t));
    assert |t| < TWO32;
    SectionsBack(t, 0);
    assert t[..0] == [];
  }
}
