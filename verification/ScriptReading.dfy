/**
 What the binary decompiler reads from any file, stated field by field and
 without its loops.
 */
module ScriptReading {
  import opened BitVectors
  import opened Memory
  import opened Script
  import opened ScriptLayout
  import opened ScriptDecompile

  /** `text` is what stands at `a`, up to the first zero byte but at most `n` characters. */
  predicate StringAt(b: seq<byte>, a: nat, text: Text, n: nat) {
    && |text| <= n && a + |text| <= |b|
    && (forall i :: a <= i < a + |text| ==> b[i] != 0 && b[i] == text[i - a] as int)
    && (|text| < n ==> a + |text| < |b| && b[a + |text|] == 0)
  }

  lemma StringUnique(b: seq<byte>, a: nat, x: Text, y: Text, n: nat)
    requires StringAt(b, a, x, n) && StringAt(b, a, y, n)
    ensures x == y
  {
    assert |x| == |y|;
    forall i | 0 <= i < |x| ensures x[i] == y[i] { assert b[a + i] == x[i] as int == y[i] as int; }
  }

  lemma NameRead(b: seq<byte>, at: nat)
    requires at + 32 <= |b|
    ensures StringAt(b, at, NameAt(b, at), 31)
  {}

  /** The entry whose record stands at `at`. */
  predicate EntryReads(b: seq<byte>, at: nat, e: Entry) {
    && at + 40 <= |b| && StringAt(b, at, e.name, 31)
    && var off, kind, words := WordAt(b, at + 32), WordAt(b, at + 36) / 0x1_0000, WordAt(b, at + 36) % 0x1_0000;
      match e.value
      case Null => kind == 5 && e.name != []
      case Single(w) => kind == 1 && e.name != [] && off < 0x8000_0000 && 4 * off + 4 <= |b| && w == WordAt(b, 4 * off)
      case Str(s) => kind == 2 && off < 0x8000_0000 && StringAt(b, 4 * off, s, 4 * words)
      case Gpio(port, num, d) =>
        && kind == 4 && e.name != [] && off < 0x8000_0000 && 4 * off + 24 <= |b|
        && (words == 6 ==> port == 0xFFFF || 1 <= port <= 14)
        && port == WordAt(b, 4 * off) && num == WordAt(b, 4 * off + 4)
        && forall i :: 0 <= i < 4 ==> d[i] == S32(WordAt(b, 4 * off + 8 + 4 * i))
  }

  lemma KindOf(w: u32)
    ensures w / 0x1_0000 % 0x1_0000 == w / 0x1_0000
  {}

  lemma StringReads(b: seq<byte>, name: Text, at: nat, words: nat, s: Text)
    ensures DecodeString(b, name, at, words) == Ok(Got(Entry(name, Str(s)))) <==> StringAt(b, at, s, 4 * words)
  {
    if at <= |b| {
      var pe := at + 4 * words;
      var lim := if pe <= |b| then pe else |b|;
      var q := Scan(b, at, lim);
      if StringAt(b, at, s, 4 * words) {
        ScanFinds(b, at, lim, at + |s|);
        assert b[at..q] == Encoded(s);
        DecodedEncoded(s);
      }
    }
  }

  lemma GpioReads(b: seq<byte>, name: Text, at: nat, words: nat, port: u32, num: u32, d: Four)
    ensures DecodeGpio(b, name, at, words) == Ok(Got(Entry(name, Gpio(port, num, d)))) <==>
              && name != [] && at + 24 <= |b| && (words == 6 ==> port == 0xFFFF || 1 <= port <= 14)
              && port == WordAt(b, at) && num == WordAt(b, at + 4)
              && forall i :: 0 <= i < 4 ==> d[i] == S32(WordAt(b, at + 8 + 4 * i))
  {
    hide WordAt;
    if at + 24 <= |b| {
      var x: Four := [S32(WordAt(b, at + 8)), S32(WordAt(b, at + 12)), S32(WordAt(b, at + 16)), S32(WordAt(b, at + 20))];
      assert at + 8 + 4 * 0 == at + 8 && at + 8 + 4 * 1 == at + 12 && at + 8 + 4 * 2 == at + 16 && at + 8 + 4 * 3 == at + 20;
      assert forall i :: 0 <= i < 4 ==> x[i] == S32(WordAt(b, at + 8 + 4 * i));
      assert d == x <==> forall i :: 0 <= i < 4 ==> d[i] == x[i];
    }
  }

  /** Every outcome of decoding an entry record. */
  lemma EntryOutcome(b: seq<byte>, at: nat, e: Entry)
    requires at + 40 <= |b|
    ensures DecodeEntry(b, at) == Ok(Got(e)) <==> EntryReads(b, at, e)
    ensures DecodeEntry(b, at) == Ok(Dropped) <==> WordAt(b, at + 36) / 0x1_0000 == 5 && b[at] == 0
    ensures var kind := WordAt(b, at + 36) / 0x1_0000;
      kind != 1 && kind != 2 && kind != 4 && kind != 5 ==> DecodeEntry(b, at) == Refused
  {
    hide WordAt, StringAt, DecodeString, DecodeGpio, NameAt;
    var name, pattern := NameAt(b, at), WordAt(b, at + 36);
    var off: nat, words: nat := 4 * WordAt(b, at + 32), pattern % 0x1_0000;
    KindOf(pattern);
    NameRead(b, at);
    EmptyName(b, at);
    Kinds(b, name, off, words);
    if StringAt(b, at, e.name, 31) { StringUnique(b, at, e.name, name, 31); }
    match e.value
    case Null =>
    case Single(w) =>
    case Str(s) => StringReads(b, name, off, words, s);
    case Gpio(port, num, d) => GpioReads(b, name, off, words, port, num, d);
  }

  lemma Kinds(b: seq<byte>, name: Text, at: nat, words: nat)
    ensures var r := DecodeString(b, name, at, words);
      r.Ok? ==> r.value.Got? && r.value.entry.name == name && r.value.entry.value.Str?
    ensures var r := DecodeGpio(b, name, at, words);
      r.Ok? ==> r.value.Got? && r.value.entry.name == name && r.value.entry.value.Gpio?
  {
    hide WordAt;
  }

  lemma EmptyName(b: seq<byte>, at: nat)
    requires at + 32 <= |b|
    ensures NameAt(b, at) == [] <==> b[at] == 0
  {}

  // ----- lists of entries

  /** The records from `at` on, one entry each. */
  predicate EntriesRead(b: seq<byte>, at: nat, es: seq<Entry>) {
    forall c :: 0 <= c < |es| ==> EntryReads(b, at + 40 * c, es[c])
  }

  lemma {:induction false} EntriesOutcome(b: seq<byte>, at: nat, n: nat, acc: seq<Entry>, es: seq<Entry>)
    requires at + 40 * n <= |b|
    ensures DecodeEntries(b, at, n, acc).Ok? ==> |DecodeEntries(b, at, n, acc).value| <= |acc| + n
    ensures |es| == |acc| + n && acc <= es ==>
              (DecodeEntries(b, at, n, acc) == Ok(es) <==> EntriesRead(b, at, es[|acc|..]))
    ensures DecodeEntries(b, at, n, acc).Ok? ==> acc <= DecodeEntries(b, at, n, acc).value
    decreases n
  {
    hide DecodeEntry, EntryReads, EntriesRead;
    if n == 0 {
      if |es| == |acc| && acc <= es { assert es[|acc|..] == [] && es == acc; }
      NothingRead(b, at);
    } else {
      var r := DecodeEntry(b, at);
      if |es| == |acc| + n && acc <= es {
        var e := es[|acc|];
        EntryOutcome(b, at, e);
        FirstEntry(b, at, es[|acc|..]);
        assert es[|acc|..][0] == e && es[|acc|..][1..] == es[|acc| + 1..];
        if r == Ok(Got(e)) { EntriesOutcome(b, at + 40, n - 1, acc + [e], es); }
      }
      if r.Ok? { EntriesOutcome(b, at + 40, n - 1, if r.value.Got? then acc + [r.value.entry] else acc, es); }
    }
  }

  lemma NothingRead(b: seq<byte>, at: nat)
    ensures EntriesRead(b, at, [])
  {}

  lemma FirstEntry(b: seq<byte>, at: nat, es: seq<Entry>)
    requires es != []
    ensures EntriesRead(b, at, es) <==> EntryReads(b, at, es[0]) && EntriesRead(b, at + 40, es[1..])
  {
    hide EntryReads;
    assert at + 40 * 0 == at;
    if EntryReads(b, at, es[0]) && EntriesRead(b, at + 40, es[1..]) {
      forall c | 0 <= c < |es| ensures EntryReads(b, at + 40 * c, es[c]) {
        if c > 0 { assert es[1..][c - 1] == es[c] && at + 40 + 40 * (c - 1) == at + 40 * c; }
      }
    }
    if EntriesRead(b, at, es) {
      forall c | 0 <= c < |es[1..]| ensures EntryReads(b, at + 40 + 40 * c, es[1..][c]) {
        assert es[1..][c] == es[c + 1] && at + 40 + 40 * c == at + 40 * (c + 1);
      }
    }
  }

  // ----- sections and files

  /** The section whose record stands at `at`, an entry for each of its entry records. */
  predicate SectionReads(b: seq<byte>, at: nat, s: Section) {
    && at + 40 <= |b| && s.name != [] && StringAt(b, at, s.name, 31)
    && var length, off: nat := WordAt(b, at + 32), WordAt(b, at + 36);
      && |s.entries| == length && 4 * off + 40 * length <= |b| < 0x8000_0000 && EntriesRead(b, 4 * off, s.entries)
  }

  /** A range inside the file is what the reader's two checks ask for. */
  lemma RangeChecks(size: nat, length: u32, off: u32)
    requires size < 0x8000_0000
    ensures !(S32(off) < 0 || S32(off) > size / 4) && !(S32(length) < 0 || S32(length) > (size - 4 * S32(off)) / 40)
       <==> 4 * off + 40 * length <= size
  {}

  lemma SectionOutcome(b: seq<byte>, at: nat, s: Section)
    requires at + 40 <= |b| < 0x8000_0000
    ensures DecodeSection(b, at) == Ok(s) && |s.entries| == WordAt(b, at + 32) <==> SectionReads(b, at, s)
    ensures 4 * WordAt(b, at + 36) + 40 * WordAt(b, at + 32) > |b| ==> DecodeSection(b, at) == Refused
    ensures DecodeSection(b, at).Ok? ==> |DecodeSection(b, at).value.entries| <= WordAt(b, at + 32)
  {
    hide WordAt, StringAt, NameAt, DecodeEntries, EntriesRead;
    var name, length, off := NameAt(b, at), WordAt(b, at + 32), WordAt(b, at + 36);
    NameRead(b, at);
    if StringAt(b, at, s.name, 31) { StringUnique(b, at, s.name, name, 31); }
    RangeChecks(|b|, length, off);
    if 4 * off + 40 * length <= |b| {
      EntriesOutcome(b, 4 * off, length, [], s.entries);
      assert s.entries[0..] == s.entries;
    }
    assert s == Section(s.name, s.entries);
  }

  /** The sections whose records stand from `at` on. */
  predicate SectionsRead(b: seq<byte>, at: nat, t: Tree) {
    forall j :: 0 <= j < |t| ==> SectionReads(b, at + 40 * j, t[j])
  }

  /** Every record of the `j`-th section gives an entry: no nameless null entry is dropped. */
  predicate Complete(b: seq<byte>, at: nat, t: Tree) {
    forall j :: 0 <= j < |t| ==> AllEntries(b, at + 40 * j, t[j])
  }

  predicate AllEntries(b: seq<byte>, at: nat, s: Section) {
    at + 40 <= |b| && |s.entries| == WordAt(b, at + 32)
  }

  lemma FirstSection(b: seq<byte>, at: nat, t: Tree)
    requires t != []
    ensures SectionsRead(b, at, t) <==> SectionReads(b, at, t[0]) && SectionsRead(b, at + 40, t[1..])
    ensures Complete(b, at, t) <==> AllEntries(b, at, t[0]) && Complete(b, at + 40, t[1..])
  {
    hide SectionReads, AllEntries;
    assert at + 40 * 0 == at;
    forall j | 0 <= j < |t[1..]| ensures t[1..][j] == t[j + 1] && at + 40 + 40 * j == at + 40 * (j + 1) {}
    forall j | 1 <= j < |t| ensures t[j] == t[1..][j - 1] && at + 40 * j == at + 40 + 40 * (j - 1) {}
  }

  lemma {:induction false} SectionsOutcome(b: seq<byte>, at: nat, n: nat, acc: Tree, t: Tree)
    requires |b| < 0x8000_0000 && acc <= t && |t| == |acc| + n
    ensures DecodeSections(b, at, n, acc) == Ok(t) && Complete(b, at, t[|acc|..]) <==> SectionsRead(b, at, t[|acc|..])
    decreases n
  {
    hide DecodeSection, SectionReads, Complete, SectionsRead;
    if n == 0 {
      assert t[|acc|..] == [] && t == acc;
      NoSections(b, at);
    } else {
      var s := t[|acc|];
      FirstSection(b, at, t[|acc|..]);
      assert t[|acc|..][0] == s && t[|acc|..][1..] == t[|acc| + 1..];
      if at + 40 <= |b| {
        SectionOutcome(b, at, s);
        if DecodeSection(b, at) == Ok(s) {
          SectionsOutcome(b, at + 40, n - 1, acc + [s], t);
        } else {
          SectionsKeep(b, at, n, acc);
        }
      } else {
        NotInFile(b, at, s);
      }
    }
  }

  lemma NoSections(b: seq<byte>, at: nat)
    ensures SectionsRead(b, at, []) && Complete(b, at, [])
  {}

  lemma NotInFile(b: seq<byte>, at: nat, s: Section)
    requires at + 40 > |b|
    ensures !SectionReads(b, at, s)
  {}

  lemma {:induction false} SectionsKeep(b: seq<byte>, at: nat, n: nat, acc: Tree)
    ensures DecodeSections(b, at, n, acc).Ok? ==> acc <= DecodeSections(b, at, n, acc).value
    ensures DecodeSections(b, at, n, acc).Ok? && n > 0 ==>
              && at + 40 <= |b| && DecodeSection(b, at).Ok?
              && acc + [DecodeSection(b, at).value] <= DecodeSections(b, at, n, acc).value
    ensures DecodeSections(b, at, n, acc).Ok? ==> |DecodeSections(b, at, n, acc).value| == |acc| + n
    decreases n
  {
    hide DecodeSection;
    if n > 0 && at + 40 <= |b| && DecodeSection(b, at).Ok? {
      SectionsKeep(b, at + 40, n - 1, acc + [DecodeSection(b, at).value]);
    }
  }

  /** A file that holds the script: an acceptable header and all its sections. */
  predicate FileReads(b: seq<byte>, t: Tree) {
    && 16 <= |b| && WordAt(b, 8) <= 16 && WordAt(b, 12) <= 16
    && |t| == WordAt(b, 0) <= 256 && SectionsRead(b, 16, t)
  }

  /**
   The decompiler returns exactly the script the file holds; nothing is lost
   unless a nameless null entry is dropped.
   */
  lemma DecodesWhatItReads(b: seq<byte>, t: Tree)
    requires |b| < 0x8000_0000
    ensures Decode(b) == Ok(t) && Complete(b, 16, t) <==> FileReads(b, t)
  {
    hide WordAt, DecodeSections, SectionsRead, Complete;
    if |b| >= 16 {
      var n: nat := WordAt(b, 0);
      if |t| == n {
        SectionsOutcome(b, 16, n, [], t);
        assert t[0..] == t;
      } else {
        SectionsKeep(b, 16, n, []);
      }
    }
  }

  /** What the header alone decides. */
  lemma HeaderOutcome(b: seq<byte>)
    requires |b| >= 16
    ensures WordAt(b, 8) > 16 || WordAt(b, 12) > 16 || WordAt(b, 0) > 256 ==> Decode(b) == Refused
    ensures WordAt(b, 8) <= 16 && WordAt(b, 12) <= 16 && WordAt(b, 0) == 0 ==> Decode(b) == Ok([])
  {
    hide WordAt;
  }
}
