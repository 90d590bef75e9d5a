/**
 Writing a binary script: the size computed in advance, and the generator that
 fills a zeroed buffer of that size through its three cursors.
 */
module ScriptCompile {
  import opened BitVectors
  import opened Memory
  import opened Script
  import opened ScriptLayout

  // ----- script_bin_size

  /** Data sizes add up over lists of entries. */
  lemma {:induction false} CountJoin(a: seq<Entry>, b: seq<Entry>)
    ensures WordCount(a + b) == WordCount(a) + WordCount(b)
    decreases |b|
  {
    hide DataWords;
    if b == [] {
      assert a + b == a;
    } else {
      var init := b[..|b| - 1];
      CountJoin(a, init);
      assert (a + b)[..|a + b| - 1] == a + init;
    }
  }

  /** The words and the number of entries of one section. */
  method CountSection(s: Section) returns (words: nat, c: nat)
    ensures words == WordCount(s.entries) && c == |s.entries|
  {
    hide DataWords;
    words, c := 0, 0;
    while c < |s.entries|
      invariant c <= |s.entries| && words == WordCount(s.entries[..c])
    {
      var e := s.entries[c];
      assert s.entries[..c + 1] == s.entries[..c] + [e];
      WordsSnoc(s.entries[..c], e);
      words, c := words + DataWords(e.value), c + 1;
    }
    assert s.entries[..c] == s.entries;
  }

  /** `script_bin_size`: exactly the length of the file to be generated. */
  method BinSize(t: Tree) returns (size: nat, sections: nat, entries: nat)
    ensures size == Size(t) && sections == |t| && entries == |All(t, |t|)|
    ensures Fits(t) ==> size == |Image(t)|
    ensures size % 4 == 0
  {
    hide WordCount, Image, Fits;
    var words := 0;
    sections, entries := 0, 0;
    CountNothing();
    while sections < |t|
      invariant sections <= |t|
      invariant words == WordCount(All(t, sections)) && entries == |All(t, sections)|
    {
      var w, c := CountSection(t[sections]);
      AllNext(t, sections);
      CountJoin(All(t, sections), t[sections].entries);
      words, sections, entries := words + w, sections + 1, entries + c;
    }
    size := 16 + sections * 40 + entries * 40 + words * 4;
    assert size == 4 * (4 + 10 * sections + 10 * entries + words);
  }

  lemma CountNothing()
    ensures WordCount([]) == 0
  {}

  // ----- areas that fill up from below

  /** The area `lo..hi` starts with `tab`; the rest is still zero. */
  ghost predicate Filled(b: seq<byte>, lo: nat, hi: nat, tab: seq<byte>) {
    && lo + |tab| <= hi <= |b| && b[lo..lo + |tab|] == tab
    && forall i :: lo + |tab| <= i < hi ==> b[i] == 0
  }

  lemma FillMore(b: seq<byte>, lo: nat, hi: nat, tab: seq<byte>, x: seq<byte>)
    requires Filled(b, lo, hi, tab) && lo + |tab| + |x| <= hi
    ensures Filled(Put(b, lo + |tab|, x), lo, hi, tab + x)
  {
    var a := lo + |tab|;
    var r := Put(b, a, x);
    assert r[lo..a] == b[lo..a];
    assert r[lo..a + |x|] == r[lo..a] + r[a..a + |x|];
  }

  /** Replacing a piece of what is written. */
  lemma FillSet(b: seq<byte>, lo: nat, hi: nat, x: seq<byte>, y: seq<byte>, y': seq<byte>, z: seq<byte>)
    requires Filled(b, lo, hi, x + y + z) && |y| == |y'|
    ensures Filled(Put(b, lo + |x|, y'), lo, hi, x + y' + z)
  {
    var a, n := lo + |x|, |x| + |y| + |z|;
    var r := Put(b, a, y');
    var tab := b[lo..lo + n];
    forall i | 0 <= i < n ensures r[lo + i] == (x + y' + z)[i] {
      assert tab[i] == b[lo + i];
    }
    assert r[lo..lo + n] == x + y' + z;
  }

  lemma FillElsewhere(b: seq<byte>, lo: nat, hi: nat, tab: seq<byte>, a: nat, x: seq<byte>)
    requires Filled(b, lo, hi, tab) && a + |x| <= |b| && (a + |x| <= lo || hi <= a)
    ensures Filled(Put(b, a, x), lo, hi, tab)
  {
    hide Put;
    PutLeaves(b, a, x);
    PutOutside(b, a, x, lo, |tab|);
  }

  /** Zeros already stand where padding would be written. */
  lemma PutPad(b: seq<byte>, a: nat, x: seq<byte>, k: nat)
    requires a + |x| + k <= |b| && forall i :: a + |x| <= i < a + |x| + k ==> b[i] == 0
    ensures Put(b, a, x) == Put(b, a, x + Blank(k))
  {}

  /** The four areas of the file under construction. */
  ghost predicate Building(b: seq<byte>, t: Tree, head: seq<byte>, secs: seq<byte>, ents: seq<byte>, data: seq<byte>) {
    && |b| == Size(t)
    && Filled(b, 0, 16, head) && Filled(b, 16, EntryBase(t), secs)
    && Filled(b, EntryBase(t), DataBase(t), ents) && Filled(b, DataBase(t), Size(t), data)
  }

  lemma BuildSection(b: seq<byte>, t: Tree, head: seq<byte>, secs: seq<byte>, ents: seq<byte>, data: seq<byte>, x: seq<byte>)
    requires Building(b, t, head, secs, ents, data) && 16 + |secs| + |x| <= EntryBase(t)
    ensures 16 + |secs| + |x| <= |b| && Building(Put(b, 16 + |secs|, x), t, head, secs + x, ents, data)
  {
    hide Filled, Put, Size;
    Order(b, t, head, secs, ents, data);
    var a := 16 + |secs|;
    FillMore(b, 16, EntryBase(t), secs, x);
    FillElsewhere(b, 0, 16, head, a, x);
    FillElsewhere(b, EntryBase(t), DataBase(t), ents, a, x);
    FillElsewhere(b, DataBase(t), Size(t), data, a, x);
  }

  lemma BuildEntry(b: seq<byte>, t: Tree, head: seq<byte>, secs: seq<byte>, ents: seq<byte>, data: seq<byte>, x: seq<byte>)
    requires Building(b, t, head, secs, ents, data) && EntryBase(t) + |ents| + |x| <= DataBase(t)
    ensures EntryBase(t) + |ents| + |x| <= |b| && Building(Put(b, EntryBase(t) + |ents|, x), t, head, secs, ents + x, data)
  {
    hide Filled, Put, Size;
    Order(b, t, head, secs, ents, data);
    var a := EntryBase(t) + |ents|;
    FillMore(b, EntryBase(t), DataBase(t), ents, x);
    FillElsewhere(b, 0, 16, head, a, x);
    FillElsewhere(b, 16, EntryBase(t), secs, a, x);
    FillElsewhere(b, DataBase(t), Size(t), data, a, x);
  }

  lemma BuildData(b: seq<byte>, t: Tree, head: seq<byte>, secs: seq<byte>, ents: seq<byte>, data: seq<byte>, x: seq<byte>)
    requires Building(b, t, head, secs, ents, data) && DataBase(t) + |data| + |x| <= Size(t)
    ensures DataBase(t) + |data| + |x| <= |b| && Building(Put(b, DataBase(t) + |data|, x), t, head, secs, ents, data + x)
  {
    hide Filled, Put, Size;
    Order(b, t, head, secs, ents, data);
    var a := DataBase(t) + |data|;
    FillMore(b, DataBase(t), Size(t), data, x);
    FillElsewhere(b, 0, 16, head, a, x);
    FillElsewhere(b, 16, EntryBase(t), secs, a, x);
    FillElsewhere(b, EntryBase(t), DataBase(t), ents, a, x);
  }

  /** Changing a piece of the last section record. */
  lemma BuildLength(b: seq<byte>, t: Tree, head: seq<byte>, x: seq<byte>, y: seq<byte>, y': seq<byte>, z: seq<byte>, ents: seq<byte>, data: seq<byte>)
    requires Building(b, t, head, x + y + z, ents, data) && |y| == |y'|
    ensures 16 + |x| + |y| <= |b| && Building(Put(b, 16 + |x|, y'), t, head, x + y' + z, ents, data)
  {
    hide Filled, Put, Size;
    Order(b, t, head, x + y + z, ents, data);
    var a := 16 + |x|;
    FillSet(b, 16, EntryBase(t), x, y, y', z);
    FillElsewhere(b, 0, 16, head, a, y');
    FillElsewhere(b, EntryBase(t), DataBase(t), ents, a, y');
    FillElsewhere(b, DataBase(t), Size(t), data, a, y');
  }

  lemma Order(b: seq<byte>, t: Tree, head: seq<byte>, secs: seq<byte>, ents: seq<byte>, data: seq<byte>)
    requires Building(b, t, head, secs, ents, data)
    ensures 16 <= EntryBase(t) <= DataBase(t) <= Size(t) == |b|
    ensures 16 + |secs| <= EntryBase(t) && EntryBase(t) + |ents| <= DataBase(t) && DataBase(t) + |data| <= Size(t)
    ensures forall i :: DataBase(t) + |data| <= i < Size(t) ==> b[i] == 0
    ensures forall i :: EntryBase(t) + |ents| <= i < DataBase(t) ==> b[i] == 0
    ensures forall i :: 16 + |secs| <= i < EntryBase(t) ==> b[i] == 0
  {}

  // ----- script_generate_bin

  /** A value at the data cursor; returns the bytes it takes. */
  method WriteValue(bin: array<byte>, at: nat, v: Value) returns (size: nat)
    requires at + 4 * DataWords(v) <= bin.Length
    requires forall i :: at <= i < at + 4 * DataWords(v) ==> bin[i] == 0
    modifies bin
    ensures size == 4 * DataWords(v) && bin[..] == Put(old(bin[..]), at, DataBytes(v))
  {
    hide Put, LeWords, Le;
    ghost var b := bin[..];
    match v {
      case Single(w) =>
        PutBytes(bin, at, Le(w));
        size := 4;
      case Str(s) =>
        PutBytes(bin, at, Encoded(s));
        size := (|s| + 3) / 4 * 4;
        PutPad(b, at, Encoded(s), size - |s|);
      case Gpio(port, num, d) =>
        PutBytes(bin, at, LeWords(GpioWords(port, num, d)));
        size := 24;
      case Null =>
        size := 4;
        PutPad(b, at, [], 4);
        PutNothing(b, at);
        assert [] + Blank(4) == Blank(4);
    }
  }

  lemma PutNothing(b: seq<byte>, a: nat)
    requires a <= |b|
    ensures Put(b, a, []) == b
  {}

  /** Name and two words of a record; the name's padding is already zero. */
  method WriteRecord(bin: array<byte>, at: nat, name: Text, w1: u32, w2: u32)
    requires |name| <= NAME_MAX && at + 40 <= bin.Length
    requires forall i :: at <= i < at + 40 ==> bin[i] == 0
    modifies bin
    ensures bin[..] == Put(old(bin[..]), at, Rec(name, w1, w2))
  {
    hide Put, Le;
    ghost var b := bin[..];
    PutBytes(bin, at, Encoded(name));
    PutPad(b, at, Encoded(name), 32 - |name|);
    PutBytes(bin, at + 32, Le(w1));
    PutBytes(bin, at + 36, Le(w2));
    PutBeside(b, at, NameField(name), Le(w1));
    PutBeside(b, at, NameField(name) + Le(w1), Le(w2));
  }

  /** Where the cursors stand after the entries `es`. */
  ghost predicate Cursors(t: Tree, es: seq<Entry>, entry: nat, data: nat) {
    && Fits(t) && es <= All(t, |t|)
    && entry == EntryBase(t) + 40 * |es| && data == DataBase(t) + 4 * WordCount(es)
  }

  /** The entries `es` are written, into tables of their prefix; both cursors follow. */
  ghost predicate Stage(b: seq<byte>, t: Tree, secs: seq<byte>, es: seq<Entry>, entry: nat, data: nat) {
    && Cursors(t, es, entry, data) && NamesFit(es)
    && Building(b, t, HeadBytes(|t|, Size(t)), secs, EntryTab(es, DataBase(t)), DataTab(es))
  }

  /** Both cursors have room for one more entry, on zeroed bytes. */
  lemma EntryRoom(b: seq<byte>, t: Tree, secs: seq<byte>, es: seq<Entry>, e: Entry, entry: nat, data: nat)
    requires Stage(b, t, secs, es, entry, data) && es + [e] <= All(t, |t|)
    ensures entry + 40 <= DataBase(t) <= data && data + 4 * DataWords(e.value) <= Size(t) == |b|
    ensures forall i :: entry <= i < entry + 40 ==> b[i] == 0
    ensures forall i :: data <= i < data + 4 * DataWords(e.value) ==> b[i] == 0
  {
    hide Building, HeadBytes, EntryTab, DataTab, WordCount, DataWords, All;
    AllFit(t, |t|);
    TabPrefix(es + [e], All(t, |t|), DataBase(t));
    WordsSnoc(es, e);
    Order(b, t, HeadBytes(|t|, Size(t)), secs, EntryTab(es, DataBase(t)), DataTab(es));
  }

  lemma StageNext(b: seq<byte>, t: Tree, secs: seq<byte>, es: seq<Entry>, e: Entry, entry: nat, data: nat)
    requires Stage(b, t, secs, es, entry, data) && es + [e] <= All(t, |t|) && |e.name| <= NAME_MAX
    requires entry + 40 <= DataBase(t) && data + 4 * DataWords(e.value) <= Size(t) == |b|
    ensures Stage(Put(Put(b, entry, EntryRec(e, data)), data, DataBytes(e.value)), t, secs, es + [e],
                  entry + 40, data + 4 * DataWords(e.value))
  {
    hide Building, HeadBytes, EntryTab, DataTab, All, EntryRec, DataBytes, Put, Size, NamesFit, Cursors, DataWords;
    var head, ents := HeadBytes(|t|, Size(t)), EntryTab(es, DataBase(t));
    CursorsNext(t, es, e, entry, data);
    EntryTabSnoc(es, e, DataBase(t));
    WordsSnoc(es, e);
    BuildEntry(b, t, head, secs, ents, DataTab(es), EntryRec(e, data));
    BuildData(Put(b, entry, EntryRec(e, data)), t, head, secs, ents + EntryRec(e, data), DataTab(es), DataBytes(e.value));
  }

  lemma CursorsNext(t: Tree, es: seq<Entry>, e: Entry, entry: nat, data: nat)
    requires Cursors(t, es, entry, data) && es + [e] <= All(t, |t|)
    ensures Cursors(t, es + [e], entry + 40, data + 4 * DataWords(e.value))
    ensures entry == EntryBase(t) + 40 * |es| && data == DataBase(t) + 4 * WordCount(es)
  {
    hide DataWords, WordCount, All;
    WordsSnoc(es, e);
  }

  /** One entry: record and data, and both cursors moved on. */
  method WriteEntry(bin: array<byte>, ghost t: Tree, ghost secs: seq<byte>, ghost es: seq<Entry>, e: Entry, entry: nat, data: nat)
    returns (entry': nat, data': nat)
    requires Stage(bin[..], t, secs, es, entry, data) && es + [e] <= All(t, |t|) && |e.name| <= NAME_MAX
    modifies bin
    ensures Stage(bin[..], t, secs, es + [e], entry', data')
  {
    hide Stage, DataWords, DataBytes, Rec, Put, Pattern, All, DataBase, Size;
    ghost var b := bin[..];
    EntryRoom(b, t, secs, es, e, entry, data);
    WriteRecord(bin, entry, e.name, data / 4 % TWO32, Pattern(e.value));
    PutLeaves(b, entry, EntryRec(e, data));
    var size := WriteValue(bin, data, e.value);
    StageNext(b, t, secs, es, e, entry, data);
    entry', data' := entry + 40, data + size;
  }

  // ----- sections

  /** A section's record while its entries are being written: the length still zero. */
  function OpenRec(s: Section, entry: nat): (bs: seq<byte>)
    requires |s.name| <= NAME_MAX
    ensures |bs| == 40
  {
    Rec(s.name, 0, entry / 4 % TWO32)
  }

  lemma SectionRoom(b: seq<byte>, t: Tree, j: nat, es: seq<Entry>, entry: nat, data: nat)
    requires Fits(t) && j < |t| && Stage(b, t, SectionTab(t, j, EntryBase(t)), es, entry, data)
    ensures 16 + 40 * j + 40 <= EntryBase(t) <= |b|
    ensures forall i :: 16 + 40 * j <= i < 16 + 40 * j + 40 ==> b[i] == 0
  {
    hide Building, HeadBytes, EntryTab, DataTab, WordCount, All, SectionTab;
    Order(b, t, HeadBytes(|t|, Size(t)), SectionTab(t, j, EntryBase(t)), EntryTab(es, DataBase(t)), DataTab(es));
  }

  lemma SectionOpened(b: seq<byte>, t: Tree, j: nat, es: seq<Entry>, entry: nat, data: nat)
    requires Fits(t) && j < |t| && Stage(b, t, SectionTab(t, j, EntryBase(t)), es, entry, data)
    requires 16 + 40 * j + 40 <= EntryBase(t) <= |b|
    ensures Stage(Put(b, 16 + 40 * j, OpenRec(t[j], entry)), t, SectionTab(t, j, EntryBase(t)) + OpenRec(t[j], entry), es, entry, data)
  {
    hide Building, HeadBytes, EntryTab, DataTab, WordCount, All, SectionTab, OpenRec, Put, Size;
    BuildSection(b, t, HeadBytes(|t|, Size(t)), SectionTab(t, j, EntryBase(t)), EntryTab(es, DataBase(t)), DataTab(es), OpenRec(t[j], entry));
  }

  /** Storing the number of entries completes the record. */
  lemma SectionClosed(b: seq<byte>, t: Tree, j: nat, es: seq<Entry>, entry0: nat, entry: nat, data: nat)
    requires Fits(t) && j < |t| && entry0 == EntryBase(t) + 40 * |All(t, j)|
    requires Stage(b, t, SectionTab(t, j, EntryBase(t)) + OpenRec(t[j], entry0), es, entry, data)
    ensures 16 + 40 * j + 36 <= |b|
    ensures Stage(Put(b, 16 + 40 * j + 32, Le(|t[j].entries| % TWO32)), t, SectionTab(t, j + 1, EntryBase(t)), es, entry, data)
  {
    hide Building, HeadBytes, EntryTab, DataTab, WordCount, All, SectionTab, Put, Le, Size, NameField;
    var s, n, tab, off := t[j], |t[j].entries|, SectionTab(t, j, EntryBase(t)), Le(entry0 / 4 % TWO32);
    assert tab + OpenRec(s, entry0) == (tab + NameField(s.name)) + Le(0) + off;
    BuildLength(b, t, HeadBytes(|t|, Size(t)), tab + NameField(s.name), Le(0), Le(n % TWO32), off, EntryTab(es, DataBase(t)), DataTab(es));
    SectionTabStep(t, j);
    assert (tab + NameField(s.name)) + Le(n % TWO32) + off == tab + SectionRec(s, entry0);
  }

  lemma SectionTabStep(t: Tree, j: nat)
    requires j < |t| && Fits(t)
    ensures SectionTab(t, j + 1, EntryBase(t)) == SectionTab(t, j, EntryBase(t)) + SectionRec(t[j], EntryBase(t) + 40 * |All(t, j)|)
  {}

  lemma StageCursor(b: seq<byte>, t: Tree, secs: seq<byte>, es: seq<Entry>, entry: nat, data: nat)
    requires Stage(b, t, secs, es, entry, data)
    ensures entry == EntryBase(t) + 40 * |es|
  {}

  /** One section: record, entries, and finally the length in the record. */
  method WriteSection(bin: array<byte>, t: Tree, j: nat, section: nat, entry: nat, data: nat) returns (entry': nat, data': nat)
    requires Fits(t) && j < |t| && section == 16 + 40 * j
    requires Stage(bin[..], t, SectionTab(t, j, EntryBase(t)), All(t, j), entry, data)
    modifies bin
    ensures Stage(bin[..], t, SectionTab(t, j + 1, EntryBase(t)), All(t, j + 1), entry', data')
  {
    hide Stage, SectionTab, All, Rec, Put, Le, EntryBase, Before;
    ghost var es0 := All(t, j);
    SectionRoom(bin[..], t, j, es0, entry, data);
    SectionOpened(bin[..], t, j, es0, entry, data);
    StageCursor(bin[..], t, SectionTab(t, j, EntryBase(t)), es0, entry, data);
    WriteRecord(bin, section, t[j].name, 0, entry / 4 % TWO32);
    ghost var secs := SectionTab(t, j, EntryBase(t)) + OpenRec(t[j], entry);
    entry', data' := entry, data;
    var c := 0;
    BeforeEnds(t, j);
    while c < |t[j].entries|
      invariant c <= |t[j].entries| && Stage(bin[..], t, secs, Before(t, j, c), entry', data')
    {
      BeforeNext(t, j, c);
      entry', data' := WriteEntry(bin, t, secs, Before(t, j, c), t[j].entries[c], entry', data');
      c := c + 1;
    }
    SectionClosed(bin[..], t, j, All(t, j + 1), entry, entry', data');
    PutBytes(bin, section + 32, Le(c % TWO32));
  }

  lemma BeforeEnds(t: Tree, j: nat)
    requires j < |t|
    ensures Before(t, j, 0) == All(t, j) && Before(t, j, |t[j].entries|) == All(t, j + 1)
  {
    hide All;
    AllNext(t, j);
    assert t[j].entries[..|t[j].entries|] == t[j].entries;
  }

  lemma Zeroed(b: seq<byte>, t: Tree)
    requires |b| == Size(t) && forall i :: 0 <= i < |b| ==> b[i] == 0
    ensures Building(b, t, [], [], [], [])
  {
    Bases(t);
    hide Size, EntryBase, DataBase;
  }

  lemma BuildHead(b: seq<byte>, t: Tree, x: seq<byte>)
    requires Building(b, t, [], [], [], []) && |x| == 16
    ensures 16 <= |b| && Building(Put(b, 0, x), t, x, [], [], [])
  {
    hide Filled, Put, Size, DataBase;
    Order(b, t, [], [], [], []);
    FillMore(b, 0, 16, [], x);
    assert [] + x == x;
    FillElsewhere(b, 16, EntryBase(t), [], 0, x);
    FillElsewhere(b, EntryBase(t), DataBase(t), [], 0, x);
    FillElsewhere(b, DataBase(t), Size(t), [], 0, x);
  }

  lemma StartBuilding(b: seq<byte>, t: Tree)
    requires |b| == Size(t) && Fits(t) && forall i :: 0 <= i < |b| ==> b[i] == 0
    ensures 16 <= |b|
    ensures Stage(Put(b, 0, HeadBytes(|t|, Size(t))), t, SectionTab(t, 0, EntryBase(t)), All(t, 0), EntryBase(t), DataBase(t))
  {
    hide HeadBytes, Put, Building;
    Zeroed(b, t);
    BuildHead(b, t, HeadBytes(|t|, Size(t)));
  }

  lemma FilledUp(b: seq<byte>, lo: nat, hi: nat, tab: seq<byte>)
    requires Filled(b, lo, hi, tab) && lo + |tab| == hi
    ensures b[lo..hi] == tab
  {}

  lemma FourAreas(b: seq<byte>, e: nat, d: nat)
    requires 16 <= e <= d <= |b|
    ensures b == b[0..16] + b[16..e] + b[e..d] + b[d..|b|]
  {}

  /** When all sections are written the four areas are full. */
  lemma Finished(b: seq<byte>, t: Tree, entry: nat, data: nat)
    requires Fits(t) && Stage(b, t, SectionTab(t, |t|, EntryBase(t)), All(t, |t|), entry, data)
    ensures data == Size(t) && b == Image(t)
  {
    hide HeadBytes, SectionTab, EntryTab, DataTab, All, WordCount, Filled, Fits, NamesFit;
    var e, d, all := EntryBase(t), DataBase(t), All(t, |t|);
    FilledUp(b, 0, 16, HeadBytes(|t|, Size(t)));
    FilledUp(b, 16, e, SectionTab(t, |t|, e));
    FilledUp(b, e, d, EntryTab(all, d));
    FilledUp(b, d, |b|, DataTab(all));
    FourAreas(b, e, d);
  }

  /**
   `script_generate_bin`: a zeroed buffer of the computed size becomes the
   image, and the data cursor ends exactly at its end.
   */
  method GenerateBin(bin: array<byte>, t: Tree, sections: nat, entries: nat) returns (cursor: nat)
    requires Fits(t) && sections == |t| && entries == |All(t, |t|)| && bin.Length == Size(t)
    requires forall i :: 0 <= i < bin.Length ==> bin[i] == 0
    modifies bin
    ensures bin[..] == Image(t) && cursor == Size(t)
  {
    hide Stage, SectionTab, All, Put, Image, LeWords, Size;
    var section: nat := 16;
    var entry: nat := section + sections * 40;
    cursor := entry + entries * 40;
    Bases(t);
    StartBuilding(bin[..], t);
    PutBytes(bin, 0, HeadBytes(sections, bin.Length));
    var j := 0;
    while j < |t|
      invariant j <= |t| && section == 16 + 40 * j
      invariant Stage(bin[..], t, SectionTab(t, j, EntryBase(t)), All(t, j), entry, cursor)
    {
      entry, cursor := WriteSection(bin, t, j, section, entry, cursor);
      j, section := j + 1, section + 40;
    }
    Finished(bin[..], t, entry, cursor);
  }

  lemma Bases(t: Tree)
    ensures 16 + |t| * 40 == EntryBase(t) && EntryBase(t) + |All(t, |t|)| * 40 == DataBase(t)
    ensures 16 <= EntryBase(t) <= DataBase(t) <= Size(t)
  {}

  /** Compile: size first, then generation into a zeroed buffer of that size. */
  method Compile(t: Tree) returns (bin: array<byte>)
    requires Fits(t)
    ensures fresh(bin) && bin[..] == Image(t)
  {
    hide Image, All;
    var size, sections, entries := BinSize(t);
    bin := new byte[size](_ => 0);
    var cursor := GenerateBin(bin, t, sections, entries);
  }
}
