/**
 The law that joins the fex printer and the fex parser: parsing the text printed
 for a script gives the script back.
 */
module FexRoundTrip {
  import opened BitVectors
  import opened Memory
  import opened Script
  import opened FexLexer
  import opened FexWriter
  import opened FexParser

  // ----- which scripts can be printed faithfully

  predicate LegalKey(name: Text) {
    |name| <= NAME_MAX && forall i :: 0 <= i < |name| ==> IsKeyChar(name[i])
  }

  predicate LegalPath(name: Text) {
    0 < |name| <= NAME_MAX && forall i :: 0 <= i < |name| ==> IsPathChar(name[i])
  }

  /** No character that would end the line. */
  predicate Clean(t: Text) {
    forall i :: 0 <= i < |t| ==> t[i] != '\0' && t[i] != '\n'
  }

  predicate LegalPin(port: u32, num: u32) {
    (port == POWER || 1 <= port <= GPIO_BANK_MAX + 1) && num <= 255
  }

  predicate LegalData(d: Four) {
    forall i :: 0 <= i < 4 ==> d[i] >= -1
  }

  /** Keys are legal, strings leave room for the key on one line, settings are not negative. */
  predicate LegalEntry(e: Entry) {
    && LegalKey(e.name) && (e.value.Str? || e.name != [])
    && (e.value.Str? ==> Clean(e.value.s) && |e.name| + |e.value.s| + 5 <= MAX_LINE)
    && (e.value.Gpio? ==> LegalPin(e.value.port, e.value.num) && LegalData(e.value.data))
  }

  predicate LegalEntries(es: seq<Entry>) {
    forall i :: 0 <= i < |es| ==> LegalEntry(es[i])
  }

  predicate Legal(t: Tree) {
    forall j :: 0 <= j < |t| ==> LegalPath(t[j].name) && LegalEntries(t[j].entries)
  }

  // ----- from the text to the body of a line

  lemma {:induction false} ChunkOfLine(l: Text, rest: Text, k: nat)
    requires Clean(l) && k <= |l| <= MAX_LINE
    ensures ChunkLength(l + ['\n'] + rest, k) == if |l| == MAX_LINE then MAX_LINE else |l| + 1
    decreases |l| - k
  {
    var text := l + ['\n'] + rest;
    if k < |l| {
      assert text[k] == l[k];
      ChunkOfLine(l, rest, k + 1);
    } else {
      assert text[k] == '\n';
    }
  }

  lemma {:induction false} CStringWhole(v: Text)
    requires NulFree(v)
    ensures CString(v) == v
    decreases |v|
  {
    if v != [] {
      assert NulFree(v[1..]);
      CStringWhole(v[1..]);
    }
  }

  /** A line body: does not start with a blank, and ends in nothing that gets cut off. */
  predicate Solid(core: Text) {
    && core != [] && Clean(core) && !IsBlank(core[0])
    && !IsBlank(core[|core| - 1]) && core[|core| - 1] != ';' && core[|core| - 1] != '\r'
  }

  /** One leading blank at most, and the line end if it fits. */
  lemma BodyIs(lead: bool, core: Text, end: bool)
    requires Solid(core)
    ensures Body((if lead then [' '] else []) + core + (if end then ['\n'] else [])) == core
  {
    hide CString;
    var pre: Text, post: Text := if lead then [' '] else [], if end then ['\n'] else [];
    var chunk := pre + core + post;
    CStringWhole(chunk);
    assert chunk[|pre|] == core[0];
    assert BlankEnd(chunk, |pre|) == |pre|;
    assert BlankEnd(chunk, 0) == |pre|;
    var rest := chunk[|pre|..];
    assert rest == core + post;
    LineEnd(core, end);
  }

  lemma LineEnd(core: Text, end: bool)
    requires Solid(core)
    ensures NoSemicolon(Trimmed(NoNewline(core + (if end then ['\n'] else [])))) == core
  {
    var v := core + (if end then ['\n'] else []);
    if end {
      assert v[|v| - 1] == '\n' && v[|v| - 2] == core[|core| - 1];
      assert v[..|v| - 1] == core;
    } else {
      assert v == core;
    }
    assert NoNewline(v) == core;
    assert Trimmed(core) == core;
  }

  function Lead(lead: bool): (r: Text) {
    if lead then [' '] else []
  }

  /** What remains to be done after a line. */
  function Continue(line: Line, rest: Text, t: Tree): (r: Res<Tree>)
    requires line.Item? ==> t != []
  {
    match line
    case Skip => ParseText(rest, t)
    case Head(name) => ParseText(rest, t + [Section(name, [])])
    case Item(e) => ParseText(rest, Append(t, e))
    case Bad => Refused
    case Abort => Fault
  }

  lemma OneChunk(text: Text, t: Tree, n: nat)
    requires text != [] && n == ChunkLength(text, 0)
    ensures ParseText(text, t) == Continue(ParseBody(Body(text[..n]), t != []), text[n..], t)
  {
    hide Body, ParseBody, ChunkLength;
  }

  lemma EmptyLine(rest: Text, t: Tree)
    ensures ParseText(['\n'] + rest, t) == ParseText(rest, t)
  {
    var text := ['\n'] + rest;
    assert ChunkLength(text, 0) == 1;
    OneChunk(text, t, 1);
    assert text[..1] == ['\n'] && text[1..] == rest;
    assert CString(['\n']) == ['\n'] by { CStringWhole(['\n']); }
    assert BlankEnd(['\n'], 0) == 0;
    assert ['\n'][0..] == ['\n'];
    assert Body(['\n']) == [];
  }

  /**
   A printed line of at most 255 characters is parsed as one line. With exactly
   255 its line end is left over, and read as an empty line.
   */
  lemma LineStep(lead: bool, core: Text, rest: Text, t: Tree)
    requires Solid(core) && |Lead(lead)| + |core| <= MAX_LINE
    ensures ParseText(Lead(lead) + core + ['\n'] + rest, t) == Continue(ParseBody(core, t != []), rest, t)
  {
    hide Body, ParseBody, ChunkLength, ParseText;
    var l := Lead(lead) + core;
    var text := l + ['\n'] + rest;
    assert Clean(l);
    ChunkOfLine(l, rest, 0);
    if |l| == MAX_LINE {
      assert text[..MAX_LINE] == l && text[MAX_LINE..] == ['\n'] + rest;
      assert l + [] == l;
      BodyIs(lead, core, false);
      OneChunk(text, t, MAX_LINE);
      EmptyAfter(ParseBody(core, t != []), rest, t);
    } else {
      var n := |l| + 1;
      assert text[..n] == l + ['\n'] && text[n..] == rest;
      BodyIs(lead, core, true);
      OneChunk(text, t, n);
    }
  }

  lemma EmptyAfter(line: Line, rest: Text, t: Tree)
    requires line.Item? ==> t != []
    ensures Continue(line, ['\n'] + rest, t) == Continue(line, rest, t)
  {
    hide ParseText;
    match line
    case Skip => EmptyLine(rest, t);
    case Head(name) => EmptyLine(rest, t + [Section(name, [])]);
    case Item(e) => EmptyLine(rest, Append(t, e));
    case Bad =>
    case Abort =>
  }

  // ----- section lines

  lemma {:induction false} NameEndAt(v: Text, p: nat, q: nat, path: bool)
    requires p <= q <= |v|
    requires forall i :: p <= i < q ==> if path then IsPathChar(v[i]) else IsKeyChar(v[i])
    requires q < |v| ==> !(if path then IsPathChar(v[q]) else IsKeyChar(v[q]))
    ensures NameEnd(v, p, path) == q
    decreases q - p
  {
    if p < q { NameEndAt(v, p + 1, q, path); }
  }

  lemma HeadLine(s: Section, open: bool)
    requires LegalPath(s.name)
    ensures Solid(SectionLine(s)) && |SectionLine(s)| <= MAX_LINE
    ensures ParseBody(SectionLine(s), open) == Head(s.name)
  {
    hide NameEnd;
    var b := SectionLine(s);
    forall i | 1 <= i < 1 + |s.name| ensures b[i] == s.name[i - 1] {}
    assert b[|b| - 1] == ']';
    NameEndAt(b, 1, 1 + |s.name|, true);
    assert b[1..1 + |s.name|] == s.name;
  }

  // ----- key lines

  /** What the parser sees of a key line: a missing key takes its blank with it. */
  function KeyBody(name: Text, tail: Text): (b: Text) {
    (if name == [] then ['='] else name + [' ', '=']) + tail
  }

  /** Where the parser's scans of a key line stop. */
  lemma KeyScan(name: Text, tail: Text)
    requires LegalKey(name)
    ensures var b, eq := KeyBody(name, tail), if name == [] then 0 else |name| + 1;
      && |b| == eq + 1 + |tail| && NameEnd(b, 0, false) == |name| && b[..|name|] == name
      && BlankEnd(b, |name|) == eq && b[eq] == '=' && b[eq + 1..] == tail
  {
    hide NameEnd;
    var b, eq := KeyBody(name, tail), if name == [] then 0 else |name| + 1;
    forall i | 0 <= i < |name| ensures b[i] == name[i] {}
    NameEndAt(b, 0, |name|, false);
    assert b[eq] == '=';
    assert BlankEnd(b, eq) == eq;
  }

  lemma {:induction false} BlankEndSuffix(b: Text, p: nat, v: Text)
    requires p <= |b| && b[p..] == if v == [] then [] else [' '] + v
    requires v != [] ==> !IsBlank(v[0])
    ensures b[BlankEnd(b, p)..] == v
  {
    if v != [] {
      assert b[p] == b[p..][0] == ' ' && b[p + 1] == b[p..][1] == v[0];
      assert BlankEnd(b, p + 1) == p + 1;
      assert b[p + 1..] == b[p..][1..];
    }
  }

  /** A key line is neither a comment nor a section. */
  lemma KeyStart(name: Text, tail: Text)
    requires LegalKey(name)
    ensures var b := KeyBody(name, tail); b != [] && b[0] != ';' && b[0] != '#' && b[0] != ':' && b[0] != '['
  {
    assert KeyBody(name, tail)[0] == if name == [] then '=' else name[0];
  }

  lemma KeyParsed(name: Text, tail: Text, v: Text)
    requires LegalKey(name) && (v != [] ==> !IsBlank(v[0])) && tail == if v == [] then [] else [' '] + v
    ensures ParseKey(KeyBody(name, tail)) == ParseValue(name, v)
  {
    hide NameEnd, ParseValue, BlankEnd, KeyBody, LegalKey;
    var b, eq := KeyBody(name, tail), if name == [] then 0 else |name| + 1;
    KeyScan(name, tail);
    BlankEndSuffix(b, eq + 1, v);
  }

  lemma KeyLine(name: Text, v: Text)
    requires LegalKey(name) && (v != [] ==> !IsBlank(v[0]))
    ensures ParseBody(KeyBody(name, if v == [] then [] else [' '] + v), true) == ParseValue(name, v)
  {
    hide NameEnd, ParseValue, BlankEnd, KeyBody, ParseKey, ParseHead, IsKeyChar;
    var tail := if v == [] then [] else [' '] + v;
    KeyStart(name, tail);
    KeyParsed(name, tail, v);
  }

  // ----- values

  lemma StartsMeans(v: Text, p: nat, w: Text, k: nat)
    requires k < |w| && p + k < |v|
    ensures Starts(v, p, w) ==> v[p + k] == w[k]
  {
    if Starts(v, p, w) { assert v[p..p + |w|][k] == v[p + k]; }
  }

  lemma SingleValue(name: Text, hexa: bool, w: u32)
    requires LegalKey(name) && name != []
    ensures ParseValue(name, SingleText(hexa, w)) == Item(Entry(name, Single(w)))
  {
    hide Digits, Strtol;
    var v := SingleText(hexa, w);
    if hexa {
      StrtolHex(v, w);
      assert v[0] == '0';
    } else {
      StrtolSigned(v, S32(w));
      assert S32(w) % TWO32 == w;
    }
    StartsMeans(v, 0, PORT, 0);
  }

  lemma StringValue(name: Text, s: Text)
    requires LegalKey(name)
    ensures ParseValue(name, ['"'] + s + ['"']) == Item(Entry(name, Str(s)))
  {
    hide ParsePort, ParseNumber;
    var v := ['"'] + s + ['"'];
    assert v[1..|v| - 1] == s;
  }

  // ----- GPIO settings

  lemma {:induction false} SettingsBack(v: Text, p: nat, i: nat, data: Four, d: Four)
    requires p <= |v| && i <= 4 && LegalData(d) && v[p..] == SettingsText(d, i)
    requires forall k :: 0 <= k < 4 ==> data[k] == if k < i then d[k] else -1
    ensures ScanSettings(v, p, i, data) == Stopped(|v|, d)
    decreases 4 - i
  {
    hide SettingText, Strtol, Starts;
    if i == 4 {
      assert v[p..] == [];
      assert data == d;
    } else {
      var s, rest := SettingText(d[i]), SettingsText(d, i + 1);
      assert v[p..] == s + rest;
      var q := p + |s|;
      Behind(v, p, s, rest);
      SettingBack(v, p, d[i]);
      var next: Four := if d[i] == -1 then data else data[i := d[i]];
      SettingsBack(v, q, i + 1, next, d);
    }
  }

  lemma SubText(v: Text, p: nat, n: nat, k: nat, l: nat)
    requires p + n <= |v| && k + l <= n
    ensures v[p..p + n][k..k + l] == v[p + k..p + k + l]
  {
    var x, y := v[p..p + n][k..k + l], v[p + k..p + k + l];
    forall i | 0 <= i < l ensures x[i] == y[i] {
      assert x[i] == v[p..p + n][k + i] == v[p + (k + i)];
    }
  }

  lemma Behind(v: Text, p: nat, s: Text, rest: Text)
    requires p <= |v| && v[p..] == s + rest
    ensures p + |s| <= |v| && v[p + |s|..] == rest && v[p..p + |s|] == s
  {
    var w := v[p..];
    assert forall i :: 0 <= i < |w| ==> w[i] == v[p + i];
    assert v[p + |s|..] == w[|s|..];
    assert v[p..p + |s|] == w[..|s|];
  }

  /** One printed setting is read as it was meant. */
  lemma SettingBack(v: Text, p: nat, d: i32)
    requires d >= -1 && p + |SettingText(d)| <= |v| && v[p..p + |SettingText(d)|] == SettingText(d)
    ensures d == -1 ==> Starts(v, p, DEFAULT) && |SettingText(d)| == 9
    ensures d != -1 ==> !Starts(v, p, DEFAULT) && p < |v| && v[p] == '<'
    ensures d != -1 ==> Strtol(v, p + 1, 10) == (d, p + |SettingText(d)| - 1)
    ensures d != -1 ==> At(v, p + |SettingText(d)| - 1) == '>' && |SettingText(d)| > 2
  {
    hide Strtol, Digits;
    if d != -1 {
      Bracketed(v, p, Digits(d, 10));
      StrtolDecimal(v, p + 1, d);
      StartsMeans(v, p, DEFAULT, 1);
    }
  }

  lemma Bracketed(v: Text, p: nat, n: Text)
    requires n != [] && p + |n| + 2 <= |v| && v[p..p + |n| + 2] == ['<'] + n + ['>']
    ensures v[p] == '<' && v[p + 1..p + 1 + |n|] == n && v[p + 1] == n[0] && v[p + 1 + |n|] == '>'
  {
    var w := v[p..p + |n| + 2];
    assert w[0] == v[p] && w[1] == v[p + 1] && w[1 + |n|] == v[p + 1 + |n|];
    SubText(v, p, |n| + 2, 1, |n|);
    assert w[1..1 + |n|] == n;
  }

  // ----- GPIO pins

  lemma NumberBack(v: Text, p: nat, num: nat, rest: Text)
    requires p <= |v| && num <= 255 && rest != [] && rest[0] == '<' && v[p..] == Digits(num, 10) + rest
    ensures p + |Digits(num, 10)| <= |v| && v[p + |Digits(num, 10)|..] == rest
    ensures Strtol(v, p, 10) == (num, p + |Digits(num, 10)|)
  {
    hide Strtol, Digits;
    var w := Digits(num, 10);
    Behind(v, p, w, rest);
    assert v[p + |w|] == v[p + |w|..][0];
    StrtolDecimal(v, p, num);
  }

  lemma PaddedBack(v: Text, p: nat, num: nat, rest: Text)
    requires p <= |v| && num <= 255 && rest != [] && rest[0] == '<' && v[p..] == Padded(num) + rest
    ensures p + |Padded(num)| <= |v| && v[p + |Padded(num)|..] == rest
    ensures Strtol(v, p, 10) == (num, p + |Padded(num)|)
  {
    hide Strtol, Digits;
    if num < 10 {
      Shift(['0'], Digits(num, 10), rest);
      SmallBack(v, p, num, rest);
    } else {
      NumberBack(v, p, num, rest);
    }
  }

  lemma SmallBack(v: Text, p: nat, num: nat, rest: Text)
    requires p <= |v| && num <= 255 && rest != [] && rest[0] == '<' && v[p..] == ['0'] + (Digits(num, 10) + rest)
    ensures p + 1 + |Digits(num, 10)| <= |v| && v[p + 1 + |Digits(num, 10)|..] == rest
    ensures Strtol(v, p, 10) == (num, p + 1 + |Digits(num, 10)|)
  {
    hide Strtol, Digits;
    ZeroBack(v, p, Digits(num, 10), rest);
    StrtolPadded(v, p, num);
  }

  lemma ZeroBack(v: Text, p: nat, w: Text, rest: Text)
    requires p <= |v| && v[p..] == ['0'] + (w + rest) && rest != []
    ensures p + 1 + |w| < |v| && v[p] == '0' && v[p + 1..p + 1 + |w|] == w
    ensures v[p + 1 + |w|..] == rest && v[p + 1 + |w|] == rest[0]
  {
    Behind(v, p, ['0'], w + rest);
    assert v[p..p + 1][0] == v[p];
    Behind(v, p + 1, w, rest);
    assert v[p + 1 + |w|..][0] == v[p + 1 + |w|];
  }

  lemma SettingsStart(d: Four)
    ensures SettingsText(d, 0) != [] && SettingsText(d, 0)[0] == '<'
  {
    hide SettingText;
  }

  lemma PinBack(name: Text, v: Text, p: nat, padded: bool, port: u32, num: u32, d: Four)
    requires LegalKey(name) && name != [] && p <= |v| && num <= 255 && LegalData(d)
    requires v[p..] == (if padded then Padded(num) else Digits(num, 10)) + SettingsText(d, 0)
    ensures ParsePin(name, v, p, port) == Item(Entry(name, Gpio(port, num, d)))
  {
    hide Strtol, ScanSettings, SettingsText, Digits, Padded;
    SettingsStart(d);
    if padded { PaddedBack(v, p, num, SettingsText(d, 0)); } else { NumberBack(v, p, num, SettingsText(d, 0)); }
    var end := Strtol(v, p, 10).1;
    SettingsBack(v, end, 0, [-1, -1, -1, -1], d);
  }

  /** The parts of a port value. */
  lemma PinParts(pin: Text, num: Text, rest: Text)
    ensures var v := PORT + (pin + num) + rest;
      v[0] == 'p' && v[0..5] == PORT && v[5..5 + |pin|] == pin && v[5 + |pin|..] == num + rest
  {
    assert PORT + (pin + num) + rest == PORT + pin + (num + rest);
  }

  lemma GpioValue(name: Text, hexa: bool, port: u32, num: u32, d: Four)
    requires LegalKey(name) && name != [] && LegalPin(port, num) && LegalData(d)
    ensures ParseValue(name, ValueText(hexa, Gpio(port, num, d))) == Item(Entry(name, Gpio(port, num, d)))
  {
    hide ParsePin, SettingsText, Padded, Digits;
    var v, rest := ValueText(hexa, Gpio(port, num, d)), SettingsText(d, 0);
    if port == POWER {
      PinParts(POWER_PIN, Digits(num, 10), rest);
      assert v[5] == 'p';
      PinBack(name, v, 10, false, port, num, d);
    } else {
      PinParts(['P', BankLetter(port)], Padded(num), rest);
      assert v[5] == v[5..7][0] == 'P' && v[6] == v[5..7][1] == BankLetter(port);
      PinBack(name, v, 7, true, port, num, d);
    }
  }

  lemma ValueBack(e: Entry, hexa: bool)
    requires LegalEntry(e) && !e.value.Null?
    ensures ParseValue(e.name, ValueText(hexa, e.value)) == Item(e)
  {
    hide ParseValue, SingleText, PinText, SettingsText;
    match e.value
    case Single(w) => SingleValue(e.name, hexa, w);
    case Str(s) => StringValue(e.name, s);
    case Gpio(port, num, d) => GpioValue(e.name, hexa, port, num, d);
  }

  // ----- whole lines

  lemma WordSolid(v: Text)
    requires v != [] && forall i :: 0 <= i < |v| ==> IsKeyChar(v[i])
    ensures Solid(v)
  {}

  lemma Powers()
    ensures Power(10, 10) == 100_0000_0000 && Power(10, 3) == 1000 && Power(16, 8) == TWO32
  {
    assert Power(10, 4) == 10000;
    assert Power(10, 7) == 1000_0000;
    assert Power(16, 4) == 0x1_0000;
  }

  lemma SingleSolid(hexa: bool, w: u32)
    ensures Solid(SingleText(hexa, w)) && |SingleText(hexa, w)| <= 11
  {
    hide Digits, Power;
    Powers();
    DigitsLength(w, 16, 8, TWO32);
    var x: int := S32(w);
    DigitsLength(if x < 0 then -x else x, 10, 10, 100_0000_0000);
    WordSolid(SingleText(hexa, w));
  }

  lemma SettingClean(d: i32)
    requires d >= -1
    ensures Clean(SettingText(d)) && |SettingText(d)| <= 12
  {
    hide Digits, Power;
    if d != -1 {
      Powers();
      DigitsLength(d, 10, 10, 100_0000_0000);
      WordSolid(Signed(d));
    }
  }

  lemma {:induction false} SettingsClean(d: Four, i: nat)
    requires LegalData(d) && i < 4
    ensures Clean(SettingsText(d, i)) && 0 < |SettingsText(d, i)| <= 12 * (4 - i)
    ensures SettingsText(d, i)[|SettingsText(d, i)| - 1] == '>'
    decreases 4 - i
  {
    hide SettingText;
    SettingClean(d[i]);
    if i < 3 { SettingsClean(d, i + 1); } else { NoSettings(d); }
  }

  lemma PinClean(port: u32, num: u32)
    requires LegalPin(port, num)
    ensures Clean(PinText(port, num)) && |PinText(port, num)| <= 8
  {
    hide Digits, Power;
    Powers();
    DigitsLength(num, 10, 3, 1000);
    WordSolid(Digits(num, 10));
  }

  lemma ValueSolid(e: Entry, hexa: bool)
    requires LegalEntry(e) && !e.value.Null?
    ensures Solid(ValueText(hexa, e.value)) && |e.name| + 3 + |ValueText(hexa, e.value)| <= MAX_LINE
  {
    hide SingleText, PinText, SettingsText, Digits;
    match e.value
    case Single(w) => SingleSolid(hexa, w);
    case Str(s) =>
    case Gpio(port, num, d) =>
      PinClean(port, num);
      SettingsClean(d, 0);
  }

  lemma KeyBodySolid(name: Text, v: Text)
    requires LegalKey(name) && (v == [] ==> name != []) && (v != [] ==> Solid(v))
    ensures Solid(KeyBody(name, if v == [] then [] else [' '] + v))
  {
    assert Clean(name);
    var b := KeyBody(name, if v == [] then [] else [' '] + v);
    assert b[0] == if name == [] then '=' else name[0];
    assert b[|b| - 1] == if v == [] then '=' else v[|v| - 1];
  }

  /** The printed line of an entry, as the parser takes it apart. */
  lemma EntryParts(e: Entry)
    requires LegalEntry(e)
    ensures var v := if e.value.Null? then [] else ValueText(InHexa(e.name), e.value);
      EntryLine(e) == Lead(e.name == []) + KeyBody(e.name, if v == [] then [] else [' '] + v)
  {
    hide ValueText, InHexa;
    if !e.value.Null? { ValueSolid(e, InHexa(e.name)); }
  }

  /** One printed entry, parsed inside a section. */
  lemma EntryStep(e: Entry, rest: Text, t: Tree)
    requires LegalEntry(e) && t != []
    ensures ParseText(EntryLine(e) + ['\n'] + rest, t) == ParseText(rest, Append(t, e))
  {
    hide ValueText, InHexa, ParseText, KeyBody, ParseValue, ParseBody, EntryLine, Solid;
    var v := if e.value.Null? then [] else ValueText(InHexa(e.name), e.value);
    if !e.value.Null? {
      SolidStart(e, InHexa(e.name));
      ValueBack(e, InHexa(e.name));
    } else {
      NullBack(e);
    }
    var core := KeyBody(e.name, if v == [] then [] else [' '] + v);
    EntryParts(e);
    KeyBodySolid(e.name, v);
    KeyLine(e.name, v);
    KeyBodyLength(e.name, v);
    LineStep(e.name == [], core, rest, t);
  }

  lemma SolidStart(e: Entry, hexa: bool)
    requires LegalEntry(e) && !e.value.Null?
    ensures var v := ValueText(hexa, e.value);
      v != [] && !IsBlank(v[0]) && Solid(v) && |e.name| + 3 + |v| <= MAX_LINE
  {
    ValueSolid(e, hexa);
  }

  lemma NullBack(e: Entry)
    requires LegalEntry(e) && e.value.Null?
    ensures ParseValue(e.name, []) == Item(e)
  {}

  lemma KeyBodyLength(name: Text, v: Text)
    requires |name| + 3 + |v| <= MAX_LINE
    ensures |Lead(name == [])| + |KeyBody(name, if v == [] then [] else [' '] + v)| <= MAX_LINE
  {}

  // ----- the whole text

  lemma {:induction false} EntriesParse(t: Tree, name: Text, es: seq<Entry>, c: nat, rest: Text)
    requires LegalEntries(es) && c <= |es|
    ensures ParseText(EntryLines(es, c) + rest, t + [Section(name, es[..c])]) == ParseText(rest, t + [Section(name, es)])
    decreases |es| - c
  {
    hide ParseText, EntryLine;
    var cur := t + [Section(name, es[..c])];
    if c == |es| {
      assert es[..c] == es;
      assert EntryLines(es, c) + rest == rest;
    } else {
      var tail := EntryLines(es, c + 1) + rest;
      assert EntryLines(es, c) + rest == EntryLine(es[c]) + ['\n'] + tail;
      EntryStep(es[c], tail, cur);
      assert es[..c] + [es[c]] == es[..c + 1];
      assert Append(cur, es[c]) == t + [Section(name, es[..c + 1])];
      EntriesParse(t, name, es, c + 1, rest);
    }
  }

  lemma {:induction false} SectionsParse(t: Tree, j: nat)
    requires Legal(t) && j <= |t|
    ensures ParseText(FexText(t, j), t[..j]) == Ok(t)
    decreases |t| - j
  {
    hide ParseText, EntryLines, SectionLine, Solid, ParseBody;
    if j == |t| {
      assert t[..j] == t;
      NothingLeft(t);
    } else {
      var s, cur := t[j], t[..j];
      var rest := ['\n'] + FexText(t, j + 1);
      SectionTextIs(t, j);
      HeadLine(s, cur != []);
      assert SectionLine(s) == Lead(false) + SectionLine(s);
      LineStep(false, SectionLine(s), EntryLines(s.entries, 0) + rest, cur);
      assert s.entries[..0] == [];
      EntriesParse(cur, s.name, s.entries, 0, rest);
      EmptyLine(FexText(t, j + 1), cur + [s]);
      assert cur + [s] == t[..j + 1];
      SectionsParse(t, j + 1);
    }
  }

  lemma NothingLeft(t: Tree)
    ensures FexText(t, |t|) == [] && ParseText([], t) == Ok(t)
  {}

  lemma SectionTextIs(t: Tree, j: nat)
    requires j < |t|
    ensures FexText(t, j) == SectionLine(t[j]) + ['\n'] + (EntryLines(t[j].entries, 0) + (['\n'] + FexText(t, j + 1)))
  {
    hide EntryLines, SectionLine;
  }

  /** The round trip: the printed text of every legal script parses to that script. */
  lemma RoundTrip(t: Tree)
    requires Legal(t)
    ensures ParseText(FexText(t, 0), []) == Ok(t)
  {
    assert t[..0] == [];
    SectionsParse(t, 0);
  }
}
