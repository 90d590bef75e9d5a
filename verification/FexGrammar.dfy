/**
 Everything the fex parser is meant to accept, as a grammar with its meaning:
 comments, blanks, both line ends, trailing semicolons, and all spellings of
 values.  The parser reads every text of the grammar as what it means.
 */
module FexGrammar {
  import opened BitVectors
  import opened Memory
  import opened Script
  import opened FexLexer
  import opened FexWriter
  import opened FexParser
  import opened FexRoundTrip
  import opened FexNotation

  // ----- spellings and what they mean

  datatype Base = Octal | Decimal | Hex | HEX

  datatype Setting = Default | Level(digits: Text)

  /** A value as it may be written. */
  datatype Spelling =
    | Nothing
    | Quoted(s: Text)
    | Bare(s: Text)
    | Number(neg: bool, base: Base, digits: Text)
    | Pin(bank: c8, digits: Text, settings: seq<Setting>)
    | PowerPin(digits: Text, settings: seq<Setting>)

  datatype FexLine =
    | Empty(lead: Text)
    | Comment(lead: Text, mark: c8, text: Text)
    | Head(lead: Text, name: Text, semicolon: bool, trail: Text)
    | Key(lead: Text, name: Text, before: Text, after: Text, value: Spelling, semicolon: bool, trail: Text)

  function Radix(base: Base): nat {
    match base
    case Octal => 8
    case Decimal => 10
    case _ => 16
  }

  function Prefix(base: Base): Text {
    match base
    case Octal => "0"
    case Decimal => ""
    case Hex => "0x"
    case HEX => "0X"
  }

  function SettingSpelt(s: Setting): (v: Text) {
    match s
    case Default => "<default>"
    case Level(digits) => ['<'] + digits + ['>']
  }

  function SettingsSpelt(ss: seq<Setting>): (v: Text) {
    if ss == [] then [] else SettingSpelt(ss[0]) + SettingsSpelt(ss[1..])
  }

  function Minus(neg: bool): Text {
    if neg then ['-'] else []
  }

  function Spelt(v: Spelling): (s: Text) {
    match v
    case Nothing => []
    case Quoted(s) => ['"'] + s + ['"']
    case Bare(s) => s
    case Number(neg, base, digits) => Minus(neg) + Prefix(base) + digits
    case Pin(bank, digits, settings) => "port:P" + [bank] + digits + SettingsSpelt(settings)
    case PowerPin(digits, settings) => "port:power" + digits + SettingsSpelt(settings)
  }

  predicate InRadix(digits: Text, b: nat) {
    digits != [] && forall i :: 0 <= i < |digits| ==> DigitVal(digits[i]) < b
  }

  /** Decimal numbers do not begin with a zero, which would make them octal. */
  predicate WellSpelt(v: Spelling) {
    match v
    case Nothing => true
    case Quoted(s) => Clean(s)
    case Bare(s) =>
      && Solid(s) && !(|s| > 1 && s[0] == '"' && s[|s| - 1] == '"') && !("port:" <= s)
      && !IsDigit(s[0]) && !(s[0] == '-' && |s| > 1 && IsDigit(s[1]))
    case Number(neg, base, digits) => InRadix(digits, Radix(base)) && (base.Decimal? && |digits| > 1 ==> digits[0] != '0')
    case Pin(bank, digits, settings) => Clean([bank]) && InRadix(digits, 10) && LevelsSpelt(settings)
    case PowerPin(digits, settings) => InRadix(digits, 10) && LevelsSpelt(settings)
  }

  predicate LevelsSpelt(ss: seq<Setting>) {
    forall i :: 0 <= i < |ss| ==> ss[i].Level? ==> InRadix(ss[i].digits, 10)
  }

  /** At most so many settings, none above 2^31 - 1. */
  predicate LevelsFit(ss: seq<Setting>, room: nat) {
    |ss| <= room && forall i :: 0 <= i < |ss| ==> LevelFits(ss[i])
  }

  predicate LevelFits(s: Setting) {
    s.Level? ==> NumberOf(s.digits, 10) <= 0x7FFF_FFFF
  }

  /** Settings that are missing or default count as -1. */
  function LevelAt(ss: seq<Setting>, i: nat): i32 {
    if i < |ss| && ss[i].Level? && LevelFits(ss[i]) then NumberOf(ss[i].digits, 10) else -1
  }

  function Levels(ss: seq<Setting>): Four {
    [LevelAt(ss, 0), LevelAt(ss, 1), LevelAt(ss, 2), LevelAt(ss, 3)]
  }

  /** A negative number as a word; below the least 64-bit number all are taken for that. */
  function Negated(n: int): u32 {
    if n > 0x8000_0000_0000_0000 then 0 else -n % 0x1_0000_0000
  }

  /** The value meant; numbers below 2^32 are taken modulo 2^32, pin numbers are at most 255, banks A to O. */
  function Meaning(v: Spelling): (r: Res<Value>) {
    match v
    case Nothing => Ok(Null)
    case Quoted(s) => Ok(Str(s))
    case Bare(s) => Ok(Str(s))
    case Number(neg, base, digits) =>
      var n := NumberOf(digits, Radix(base));
      if neg then Ok(Single(Negated(n)))
      else if n < 0x1_0000_0000 then Ok(Single(n)) else Refused
    case Pin(bank, digits, settings) =>
      if 'A' <= bank <= 'O' && NumberOf(digits, 10) <= 255 && LevelsFit(settings, 4) then
        Ok(Gpio(bank as int - 'A' as int + 1, NumberOf(digits, 10), Levels(settings)))
      else Refused
    case PowerPin(digits, settings) =>
      if NumberOf(digits, 10) <= 255 && LevelsFit(settings, 4) then Ok(Gpio(0xFFFF, NumberOf(digits, 10), Levels(settings)))
      else Refused
  }

  predicate Blanks(t: Text) {
    forall i :: 0 <= i < |t| ==> t[i] == ' ' || t[i] == '\t'
  }

  function Semi(semicolon: bool): Text {
    if semicolon then [';'] else []
  }

  /** What is between the blanks at both ends. */
  function CoreOf(l: FexLine): (s: Text)
    requires l.Head? || l.Key?
  {
    if l.Head? then ['['] + l.name + [']'] else l.name + l.before + ['='] + l.after + Spelt(l.value)
  }

  function LineSpelt(l: FexLine): (s: Text) {
    match l
    case Empty(lead) => lead
    case Comment(lead, mark, text) => lead + [mark] + text
    case _ => l.lead + CoreOf(l) + Semi(l.semicolon) + l.trail
  }

  predicate Names(name: Text, path: bool) {
    forall i :: 0 <= i < |name| ==> if path then IsPathChar(name[i]) else IsKeyChar(name[i])
  }

  predicate WellFormedLine(l: FexLine) {
    && Blanks(l.lead)
    && match l
      case Empty(_) => true
      case Comment(_, mark, text) => mark in {';', '#', ':'} && '\n' !in text
      case Head(_, name, _, trail) => Names(name, true) && Blanks(trail)
      case Key(_, name, before, after, value, _, trail) =>
        && Names(name, false) && Blanks(before) && Blanks(after) && Blanks(trail) && WellSpelt(value)
        && (name == [] ==> before == []) && (value.Nothing? ==> after == [])
  }

  /** What a line does to the tree: names keep their first 31 characters, entries go to the last section. */
  function Effect(l: FexLine, t: Tree): (r: Res<Tree>) {
    match l
    case Empty(_) => Ok(t)
    case Comment(_, _, _) => Ok(t)
    case Head(_, name, _, _) => if name == [] then Fault else Ok(t + [Section(First31(name), [])])
    case Key(_, name, _, _, value, _, _) =>
      if t == [] then Refused
      else
        match Meaning(value)
        case Ok(v) => if name == [] && !v.Str? then Fault else Ok(WithEntry(t, |t| - 1, Entry(First31(name), v)))
        case _ => Refused
  }

  function First31(name: Text): Text {
    if |name| <= 31 then name else name[..31]
  }

  /** How a line of the buffer ends: at a line end, at the end of the file, or because the buffer is full. */
  predicate LineEnd(end: Text) {
    end == "\n" || end == "\r\n" || end == []
  }

  /** The buffer takes 255 characters. */
  predicate Stops(n: nat, end: Text, last: bool) {
    LineEnd(end) && if end == [] then n == 255 || (last && 0 < n <= 255) else n + |end| <= 255
  }

  // ----- from the text to the core of a line

  lemma {:induction false} BlanksEnd(v: Text, p: nat, q: nat)
    requires p <= q <= |v| && (forall i :: p <= i < q ==> IsBlank(v[i])) && (q < |v| ==> !IsBlank(v[q]))
    ensures BlankEnd(v, p) == q
    decreases q - p
  {
    if p < q { BlanksEnd(v, p + 1, q); }
  }

  lemma {:induction false} TrimBlanks(x: Text, trail: Text)
    requires Blanks(trail) && x != [] && !IsBlank(x[|x| - 1])
    ensures Trimmed(x + trail) == x
    decreases |trail|
  {
    var v := x + trail;
    if trail == [] {
      assert v == x;
    } else {
      assert v[..|v| - 1] == x + trail[..|trail| - 1];
      TrimBlanks(x, trail[..|trail| - 1]);
    }
  }

  /** What the line end leaves. */
  lemma EndCut(x: Text, end: Text)
    requires LineEnd(end) && '\n' !in x && (end == "\n" && x != [] ==> x[|x| - 1] != '\r')
    ensures NoNewline(x + end) == x
  {
    var v := x + end;
    if end == "\n" {
      assert v[|v| - 1] == '\n' && v[..|v| - 1] == x;
      if |v| > 1 { assert v[|v| - 2] == x[|x| - 1]; }
    } else if end == [] {
      assert v == x && (x != [] ==> x[|x| - 1] in x);
    } else {
      assert v[|v| - 1] == '\n' && v[|v| - 2] == '\r' && v[..|v| - 2] == x;
    }
  }

  /** Blanks around, one semicolon and the line end come off. */
  lemma CoreFound(lead: Text, core: Text, semicolon: bool, trail: Text, end: Text)
    requires Blanks(lead) && Blanks(trail) && Solid(core) && LineEnd(end)
    ensures Body(lead + core + Semi(semicolon) + trail + end) == core
  {
    hide CString, NoNewline, Trimmed, NoSemicolon;
    var x, chunk := core + Semi(semicolon), lead + core + Semi(semicolon) + trail + end;
    PartsClean(lead, core, semicolon, trail, end);
    CStringWhole(chunk);
    LeadEnds(lead, core, Semi(semicolon) + trail + end);
    assert chunk == lead + core + (Semi(semicolon) + trail + end);
    assert chunk[|lead|..] == x + trail + end;
    LastOfCore(core, semicolon, trail);
    EndCut(x + trail, end);
    TrimBlanks(x, trail);
    SemicolonOff(core, semicolon);
  }

  lemma PartsClean(lead: Text, core: Text, semicolon: bool, trail: Text, end: Text)
    requires Blanks(lead) && Blanks(trail) && Solid(core) && LineEnd(end)
    ensures NulFree(lead + core + Semi(semicolon) + trail + end)
  {}

  lemma LeadEnds(lead: Text, core: Text, x: Text)
    requires Blanks(lead) && Solid(core)
    ensures BlankEnd(lead + core + x, 0) == |lead|
  {
    var chunk := lead + core + x;
    assert chunk[|lead|] == core[0];
    BlanksEnd(chunk, 0, |lead|);
  }

  lemma LastOfCore(core: Text, semicolon: bool, trail: Text)
    requires Solid(core) && Blanks(trail)
    ensures var x := core + Semi(semicolon);
      && x != [] && !IsBlank(x[|x| - 1]) && '\n' !in x + trail && (x + trail)[|x + trail| - 1] != '\r'
  {
    var x := core + Semi(semicolon);
    assert x[|x| - 1] == if semicolon then ';' else core[|core| - 1];
    assert trail != [] ==> (x + trail)[|x + trail| - 1] == trail[|trail| - 1];
  }

  lemma SemicolonOff(core: Text, semicolon: bool)
    requires Solid(core)
    ensures NoSemicolon(core + Semi(semicolon)) == core
  {
    if semicolon {
      assert (core + [';'])[..|core|] == core;
    } else {
      assert core + [] == core;
    }
  }

  lemma NothingFound(lead: Text, end: Text)
    requires Blanks(lead) && LineEnd(end)
    ensures Body(lead + end) == []
  {
    hide CString, NoNewline;
    var chunk := lead + end;
    CStringWhole(chunk);
    BlanksEnd(chunk, 0, |lead|);
    assert chunk[|lead|..] == [] + end;
    EndCut([], end);
  }

  lemma {:induction false} CStringFront(a: Text, x: Text)
    requires NulFree(a)
    ensures CString(a + x) == a + CString(x)
    decreases |a|
  {
    if a == [] {
      assert a + x == x;
    } else {
      assert (a + x)[1..] == a[1..] + x && NulFree(a[1..]);
      CStringFront(a[1..], x);
    }
  }

  lemma {:induction false} TrimKeeps(v: Text)
    requires v != []
    ensures Trimmed(v) != [] && Trimmed(v)[0] == v[0]
    decreases |v|
  {
    if |v| > 1 && IsBlank(v[|v| - 1]) { TrimKeeps(v[..|v| - 1]); }
  }

  /** Whatever follows its mark, a comment begins with it or is gone. */
  lemma MarkFound(lead: Text, mark: c8, x: Text)
    requires Blanks(lead) && mark in {';', '#', ':'}
    ensures var b := Body(lead + [mark] + x); b == [] || b[0] == mark
  {
    hide CString, Trimmed;
    var chunk := lead + [mark] + x;
    CStringFront(lead + [mark], x);
    var line := CString(chunk);
    assert line == lead + [mark] + CString(x);
    assert line[|lead|] == mark;
    BlanksEnd(line, 0, |lead|);
    var v := line[|lead|..];
    assert v != [] && v[0] == mark;
    TrimKeeps(NoNewline(v));
  }

  /** One line of the file. */
  lemma {:induction false} ChunkIs(l: Text, end: Text, rest: Text, k: nat)
    requires '\n' !in l && Stops(|l|, end, rest == []) && k <= |l|
    ensures ChunkLength(l + end + rest, k) == |l| + |end|
    decreases |l| - k
  {
    var text := l + end + rest;
    if k < |l| {
      assert text[k] == l[k] != '\n' by { assert l[k] in l; }
      ChunkIs(l, end, rest, k + 1);
    } else if end != [] {
      assert text[k..k + |end|] == end;
      assert text[k] == end[0] && (|end| == 2 ==> text[k + 1] == end[1]);
    }
  }

  lemma LineRead(l: Text, end: Text, rest: Text, t: Tree)
    requires '\n' !in l && Stops(|l|, end, rest == [])
    ensures ParseText(l + end + rest, t) == Continue(ParseBody(Body(l + end), t != []), rest, t)
  {
    hide Body, ParseBody, ChunkLength, ParseText;
    var text, n := l + end + rest, |l| + |end|;
    ChunkIs(l, end, rest, 0);
    assert text[..n] == l + end && text[n..] == rest;
    OneChunk(text, t, n);
  }

  // ----- numbers

  /** Scanning collects digits from the left as `NumberOf` does. */
  lemma {:induction false} ScanTo(v: Text, p: nat, q: nat, b: nat)
    requires p <= q <= |v| && forall i :: p <= i < q ==> DigitVal(v[i]) < b
    ensures ScanDigits(v, p, b, 0) == ScanDigits(v, q, b, NumberOf(v[p..q], b))
    decreases q - p
  {
    hide ScanDigits, DigitVal;
    var x := v[p..q];
    if p < q {
      ScanTo(v, p, q - 1, b);
      assert x[..|x| - 1] == v[p..q - 1] && x[|x| - 1] == v[q - 1];
      ScanOne(v, q - 1, b, NumberOf(v[p..q - 1], b));
    }
  }

  /** Digits of a number that ends before a character of another kind. */
  lemma DigitsScan(v: Text, p: nat, digits: Text, b: nat)
    requires InRadix(digits, b) && b <= 16 && p + |digits| <= |v| && v[p..p + |digits|] == digits
    requires DigitVal(At(v, p + |digits|)) >= b
    ensures ScanDigits(v, p, b, 0) == (NumberOf(digits, b), p + |digits|)
  {
    hide ScanDigits, DigitVal, NumberOf;
    var q := p + |digits|;
    forall i | p <= i < q ensures DigitVal(v[i]) < b { assert v[p..q][i - p] == v[i]; }
    ScanTo(v, p, q, b);
    ScanStops(v, q, b, NumberOf(digits, b));
  }

  lemma {:induction false} ScanNothing(v: Text, p: nat, b: nat)
    requires p <= |v| && DigitVal(At(v, p)) >= b && b <= 16
    ensures ScanDigits(v, p, b, 0) == (0, p)
  {}

  /** A leading zero adds nothing to an octal number. */
  lemma {:induction false} LeadingZero(digits: Text, b: nat)
    ensures NumberOf(['0'] + digits, b) == NumberOf(digits, b)
    decreases |digits|
  {
    if digits == [] {
      assert NumberOf(['0'][..0], b) == 0;
    } else {
      var x := ['0'] + digits;
      assert x[..|x| - 1] == ['0'] + digits[..|digits| - 1];
      LeadingZero(digits[..|digits| - 1], b);
    }
  }

  /** The number as `strtoll` understands it. */
  function NumberValue(neg: bool, n: int): int {
    Clamped(if neg then -n else n)
  }

  lemma NumberScan(neg: bool, base: Base, digits: Text)
    requires WellSpelt(Number(neg, base, digits))
    ensures var v := Spelt(Number(neg, base, digits));
      Strtol(v, 0, 0) == (NumberValue(neg, NumberOf(digits, Radix(base))), |v|)
  {
    hide Strtol, NumberOf, NumberValue, Spelt, WellSpelt;
    match base
    case Octal => OctalScan(neg, digits);
    case Decimal => DecimalScan(neg, digits);
    case _ => HexScan(neg, base, digits);
  }

  lemma OctalScan(neg: bool, digits: Text)
    requires WellSpelt(Number(neg, Octal, digits))
    ensures var v := Spelt(Number(neg, Octal, digits));
      Strtol(v, 0, 0) == (NumberValue(neg, NumberOf(digits, 8)), |v|)
  {
    hide ScanDigits, NumberOf, Clamped, InRadix, DigitVal, Spelt, WellSpelt, SpaceEnd, IsDigit;
    var v, s, all := Spelt(Number(neg, Octal, digits)), |Minus(neg)|, ['0'] + digits;
    FirstDigit(neg, Octal, digits);
    OctalDigits(neg, digits);
    LeadingZero(digits, 8);
    NoPrefix(digits);
    DigitsScan(v, s, all, 8);
  }

  lemma OctalDigits(neg: bool, digits: Text)
    requires WellSpelt(Number(neg, Octal, digits))
    ensures var v, s := Spelt(Number(neg, Octal, digits)), |Minus(neg)|;
      InRadix(digits, 8) && |v| == s + 1 + |digits| && v[s..|v|] == ['0'] + digits
  {
    hide InRadix;
    assert Spelt(Number(neg, Octal, digits)) == Minus(neg) + (['0'] + digits);
  }

  lemma NoPrefix(digits: Text)
    requires InRadix(digits, 8)
    ensures digits[0] != 'x' && digits[0] != 'X' && InRadix(['0'] + digits, 8) && DigitVal('\0') == 16
  {
    assert DigitVal(digits[0]) < 8;
  }

  lemma DecimalScan(neg: bool, digits: Text)
    requires WellSpelt(Number(neg, Decimal, digits))
    ensures var v := Spelt(Number(neg, Decimal, digits));
      Strtol(v, 0, 0) == (NumberValue(neg, NumberOf(digits, 10)), |v|)
  {
    hide ScanDigits, NumberOf, Clamped;
    var v, s := Spelt(Number(neg, Decimal, digits)), |Minus(neg)|;
    FirstDigit(neg, Decimal, digits);
    assert v[s..s + |digits|] == digits;
    if digits[0] == '0' {
      assert digits == ['0'];
      DigitsScan(v, s, digits, 8);
      SingleZero();
    } else {
      DigitsScan(v, s, digits, 10);
    }
  }

  lemma HexScan(neg: bool, base: Base, digits: Text)
    requires (base.Hex? || base.HEX?) && WellSpelt(Number(neg, base, digits))
    ensures var v := Spelt(Number(neg, base, digits));
      Strtol(v, 0, 0) == (NumberValue(neg, NumberOf(digits, 16)), |v|)
  {
    hide ScanDigits, NumberOf, Clamped, InRadix, DigitVal, Spelt, WellSpelt, SpaceEnd, IsDigit, Prefix;
    var v, s := Spelt(Number(neg, base, digits)), |Minus(neg)|;
    FirstDigit(neg, base, digits);
    HexDigits(neg, base, digits);
    DigitsScan(v, s + 2, digits, 16);
  }

  lemma HexDigits(neg: bool, base: Base, digits: Text)
    requires (base.Hex? || base.HEX?) && WellSpelt(Number(neg, base, digits))
    ensures var v, s := Spelt(Number(neg, base, digits)), |Minus(neg)|;
      && |digits| > 0 && InRadix(digits, 16) && |v| == s + 2 + |digits| && v[s + 2..|v|] == digits
      && (v[s + 1] == 'x' || v[s + 1] == 'X') && DigitVal(v[s + 2]) < 16 && DigitVal('\0') == 16
  {
    var x := Minus(neg) + Prefix(base);
    assert Spelt(Number(neg, base, digits)) == x + digits;
    assert x[|Minus(neg)| + 1] == Prefix(base)[1];
    assert DigitVal(digits[0]) < 16;
  }

  lemma SingleZero()
    ensures NumberOf(['0'], 8) == 0 && NumberOf(['0'], 10) == 0
  {
    assert ['0'][..0] == [];
  }

  /** What stands at the beginning of a number. */
  lemma FirstDigit(neg: bool, base: Base, digits: Text)
    requires WellSpelt(Number(neg, base, digits))
    ensures var v, s := Spelt(Number(neg, base, digits)), |Minus(neg)|;
      && s < |v| && IsDigit(v[s]) && (neg <==> v[0] == '-') && SpaceEnd(v, 0) == 0
      && (if base.Decimal? then v[s] == digits[0] else v[s] == '0')
      && (base.Octal? ==> v[s + 1] == digits[0]) && (base.Hex? || base.HEX? ==> v[s + 2] == digits[0])
      && |v| == s + |Prefix(base)| + |digits|
  {
    assert DigitVal(digits[0]) < Radix(base);
  }

  lemma NumberParsed(key: Text, neg: bool, base: Base, digits: Text)
    requires WellSpelt(Number(neg, base, digits))
    ensures ParseValue(key, Spelt(Number(neg, base, digits))) == Outcome(key, Meaning(Number(neg, base, digits)))
  {
    hide Strtol, NumberOf, ParsePort;
    var v := Spelt(Number(neg, base, digits));
    FirstDigit(neg, base, digits);
    NumberScan(neg, base, digits);
    StartsMeans(v, 0, PORT, 0);
  }

  /** What a line with that value contributes. */
  function Outcome(key: Text, r: Res<Value>): (line: Line) {
    match r
    case Ok(v) => if key == [] && !v.Str? then Abort else Item(Entry(First31(key), v))
    case _ => Bad
  }

  // ----- GPIO values

  lemma StrtolDigits(v: Text, p: nat, digits: Text)
    requires InRadix(digits, 10) && p + |digits| <= |v| && v[p..p + |digits|] == digits
    requires DigitVal(At(v, p + |digits|)) >= 10
    ensures Strtol(v, p, 10) == (Clamped(NumberOf(digits, 10)), p + |digits|)
  {
    hide ScanDigits, NumberOf, Clamped;
    assert v[p] == digits[0] && DigitVal(digits[0]) < 10;
    assert SpaceEnd(v, p) == p;
    DigitsScan(v, p, digits, 10);
  }

  /** The four settings once the first `i` are known. */
  predicate Filled(data: Four, before: Four, i: nat, ss: seq<Setting>) {
    forall k :: 0 <= k < 4 ==> data[k] == if k < i then before[k] else LevelAt(ss, k - i)
  }

  lemma {:induction false} SettingsParsed(v: Text, p: nat, i: nat, data: Four, ss: seq<Setting>)
    requires p <= |v| && i <= 4 && LevelsSpelt(ss) && v[p..] == SettingsSpelt(ss)
    requires forall k :: i <= k < 4 ==> data[k] == -1
    ensures var r := ScanSettings(v, p, i, data);
      if LevelsFit(ss, 4 - i) then r.Stopped? && r.p == |v| && Filled(r.data, data, i, ss)
      else r.OutOfRange? || r.p < |v|
    decreases 4 - i
  {
    hide Strtol, Starts, SettingSpelt, NumberOf, InRadix, ScanSettings;
    if ss == [] {
      assert v[p..] == [];
      ScanEnds(v, p, i, data);
    } else {
      var s, rest := ss[0], ss[1..];
      Behind(v, p, SettingSpelt(s), SettingsSpelt(rest));
      assert LevelsSpelt(rest);
      OneSetting(v, p, s);
      if i == 4 {
        ScanEnds(v, p, i, data);
      } else {
        Shorter(ss, 4 - i);
        ScanStep(v, p, i, data, s);
        if LevelFits(s) {
          var next: Four := if s.Default? then data else data[i := NumberFits(s)];
          SettingsParsed(v, p + |SettingSpelt(s)|, i + 1, next, rest);
        }
      }
    }
  }

  function NumberFits(s: Setting): i32
    requires s.Level? && LevelFits(s)
  {
    NumberOf(s.digits, 10)
  }

  lemma ScanEnds(v: Text, p: nat, i: nat, data: Four)
    requires p <= |v| && i <= 4 && (p == |v| || i == 4)
    ensures ScanSettings(v, p, i, data) == Stopped(p, data)
  {}

  /** One turn of the loop over the settings. */
  lemma ScanStep(v: Text, p: nat, i: nat, data: Four, s: Setting)
    requires s.Level? ==> InRadix(s.digits, 10)
    requires p + |SettingSpelt(s)| <= |v| && v[p..p + |SettingSpelt(s)|] == SettingSpelt(s)
    requires i < 4
    ensures ScanSettings(v, p, i, data)
         == if s.Default? then ScanSettings(v, p + |SettingSpelt(s)|, i + 1, data)
            else if LevelFits(s) then ScanSettings(v, p + |SettingSpelt(s)|, i + 1, data[i := NumberFits(s)])
            else OutOfRange
  {
    hide Strtol, Starts, SettingSpelt, NumberOf, InRadix;
    OneSetting(v, p, s);
  }

  lemma Shorter(ss: seq<Setting>, room: nat)
    requires ss != [] && room > 0
    ensures LevelsFit(ss, room) <==> LevelFits(ss[0]) && LevelsFit(ss[1..], room - 1)
    ensures forall k :: 1 <= k ==> LevelAt(ss, k) == LevelAt(ss[1..], k - 1)
  {
    hide NumberOf, LevelFits;
    var rest := ss[1..];
    if LevelFits(ss[0]) && LevelsFit(rest, room - 1) {
      forall k | 0 <= k < |ss| ensures LevelFits(ss[k]) { if k > 0 { assert ss[k] == rest[k - 1]; } }
    }
  }

  /** What the loop sees of one setting. */
  lemma OneSetting(v: Text, p: nat, s: Setting)
    requires s.Level? ==> InRadix(s.digits, 10)
    requires p + |SettingSpelt(s)| <= |v| && v[p..p + |SettingSpelt(s)|] == SettingSpelt(s)
    ensures p < |v| && v[p] == '<' && (Starts(v, p, DEFAULT) <==> s.Default?) && (s.Default? ==> |SettingSpelt(s)| == 9)
    ensures s.Level? ==>
              var end := p + |SettingSpelt(s)| - 1;
              && Strtol(v, p + 1, 10) == (Clamped(NumberOf(s.digits, 10)), end) && At(v, end) == '>' && end > p + 1
  {
    hide Strtol, NumberOf, Clamped;
    assert SettingSpelt(s)[0] == v[p] == '<';
    if s.Level? {
      Bracketed(v, p, s.digits);
      assert DigitVal(s.digits[0]) < 10;
      StrtolDigits(v, p + 1, s.digits);
      StartsMeans(v, p, DEFAULT, 1);
    }
  }

  /** A pin number and its settings. */
  lemma PinParsed(key: Text, v: Text, p: nat, port: u32, digits: Text, ss: seq<Setting>)
    requires p <= |v| && InRadix(digits, 10) && LevelsSpelt(ss) && v[p..] == digits + SettingsSpelt(ss)
    ensures ParsePin(key, v, p, port)
         == Outcome(key, if NumberOf(digits, 10) <= 255 && LevelsFit(ss, 4) then Ok(Gpio(port, NumberOf(digits, 10), Levels(ss)))
                         else Refused)
  {
    hide Strtol, NumberOf, ScanSettings, InRadix, LevelsFit;
    var end := p + |digits|;
    Behind(v, p, digits, SettingsSpelt(ss));
    AfterDigits(v, end, ss);
    NotEmpty(digits);
    StrtolDigits(v, p, digits);
    SettingsParsed(v, end, 0, [-1, -1, -1, -1], ss);
    var r := ScanSettings(v, end, 0, [-1, -1, -1, -1]);
    if LevelsFit(ss, 4) { assert r.data == Levels(ss); }
  }

  lemma NotEmpty(digits: Text)
    requires InRadix(digits, 10)
    ensures |digits| > 0
  {}

  lemma AfterDigits(v: Text, end: nat, ss: seq<Setting>)
    requires end <= |v| && v[end..] == SettingsSpelt(ss)
    ensures DigitVal(At(v, end)) >= 10
  {
    if ss != [] {
      assert SettingsSpelt(ss)[0] == '<';
      assert v[end] == v[end..][0];
    }
  }

  /** Anything that begins with `port:` is read as a port. */
  lemma PortParsed(key: Text, v: Text)
    requires Starts(v, 0, PORT)
    ensures ParseValue(key, v) == ParsePort(key, v)
  {
    hide ParsePort, ParseNumber;
    StartsMeans(v, 0, PORT, 0);
  }

  lemma PowerParsed(key: Text, digits: Text, ss: seq<Setting>)
    requires WellSpelt(PowerPin(digits, ss))
    ensures ParseValue(key, Spelt(PowerPin(digits, ss))) == Outcome(key, Meaning(PowerPin(digits, ss)))
  {
    hide ParsePin, NumberOf, LevelsFit, SettingsSpelt, InRadix, ParseValue;
    var v, rest := Spelt(PowerPin(digits, ss)), SettingsSpelt(ss);
    assert v == PORT + (POWER_PIN + digits) + rest;
    PinParts(POWER_PIN, digits, rest);
    assert v[5] == v[5..10][0] == 'p';
    PortParsed(key, v);
    PinParsed(key, v, 10, POWER, digits, ss);
  }

  lemma BankParsed(key: Text, bank: c8, digits: Text, ss: seq<Setting>)
    requires WellSpelt(Pin(bank, digits, ss))
    ensures ParseValue(key, Spelt(Pin(bank, digits, ss))) == Outcome(key, Meaning(Pin(bank, digits, ss)))
  {
    hide ParsePin, NumberOf, LevelsFit, SettingsSpelt, InRadix, ParseValue;
    var v, rest := Spelt(Pin(bank, digits, ss)), SettingsSpelt(ss);
    assert v == PORT + (['P', bank] + digits) + rest;
    PinParts(['P', bank], digits, rest);
    assert v[5] == v[5..7][0] == 'P' && v[6] == v[5..7][1] == bank;
    PortParsed(key, v);
    if 'A' <= bank <= 'O' { PinParsed(key, v, 7, bank as int - 'A' as int + 1, digits, ss); }
  }

  /** Every spelling of a value is read as its meaning. */
  lemma ValueParsed(key: Text, s: Spelling)
    requires WellSpelt(s)
    ensures ParseValue(key, Spelt(s)) == Outcome(key, Meaning(s))
  {
    match s
    case Nothing =>
    case Quoted(x) => assert Spelt(s)[1..|x| + 1] == x;
    case Bare(x) => BareParsed(key, x);
    case Number(neg, base, digits) => NumberParsed(key, neg, base, digits);
    case Pin(bank, digits, settings) => BankParsed(key, bank, digits, settings);
    case PowerPin(digits, settings) => PowerParsed(key, digits, settings);
  }

  lemma BareParsed(key: Text, x: Text)
    requires WellSpelt(Bare(x))
    ensures ParseValue(key, x) == Item(Entry(First31(key), Str(x)))
  {
    hide ParsePort, ParseNumber;
    StartsIs(x, PORT);
  }

  lemma StartsIs(v: Text, w: Text)
    ensures Starts(v, 0, w) <==> w <= v
  {}

  // ----- lines

  /** The core of a section line. */
  lemma HeadParsed(name: Text, open: bool)
    requires Names(name, true)
    ensures Solid(['['] + name + [']'])
    ensures ParseBody(['['] + name + [']'], open) == if name == [] then Abort else FexParser.Head(First31(name))
  {
    hide NameEnd;
    var b := ['['] + name + [']'];
    forall i | 1 <= i < 1 + |name| ensures IsPathChar(b[i]) { assert b[i] == name[i - 1]; }
    assert b[1 + |name|] == ']';
    NameEndAt(b, 1, 1 + |name|, true);
    assert b[1..1 + |name|] == name;
  }

  /** Where the scans over a key line stop. */
  lemma KeyScans(name: Text, before: Text, after: Text, v: Text)
    requires Names(name, false) && Blanks(before) && Blanks(after) && (v != [] ==> !IsBlank(v[0]))
    ensures var b, eq := name + before + ['='] + after + v, |name| + |before|;
      && eq + 1 + |after| <= |b| && NameEnd(b, 0, false) == |name| && b[..|name|] == name
      && BlankEnd(b, |name|) == eq && b[eq] == '=' && b[BlankEnd(b, eq + 1)..] == v
  {
    hide NameEnd, IsKeyChar, BlankEnd;
    var b, eq := name + before + ['='] + after + v, |name| + |before|;
    forall i | 0 <= i < |name| ensures b[i] == name[i] {}
    forall i | |name| <= i < eq ensures b[i] == before[i - |name|] {}
    forall i | eq + 1 <= i < eq + 1 + |after| ensures b[i] == after[i - eq - 1] {}
    assert b[eq] == '=';
    NoKeyChars();
    NameEndAt(b, 0, |name|, false);
    BlanksEnd(b, |name|, eq);
    assert v != [] ==> b[eq + 1 + |after|] == v[0];
    BlanksEnd(b, eq + 1, eq + 1 + |after|);
  }

  lemma NoKeyChars()
    ensures !IsKeyChar('=') && !IsKeyChar(' ') && !IsKeyChar('\t')
  {}

  lemma KeyRead(name: Text, before: Text, after: Text, v: Text)
    requires Names(name, false) && Blanks(before) && Blanks(after) && (v != [] ==> !IsBlank(v[0]))
    requires name == [] ==> before == []
    ensures ParseBody(name + before + ['='] + after + v, true) == ParseValue(name, v)
    ensures ParseBody(name + before + ['='] + after + v, false) == Bad
  {
    hide NameEnd, BlankEnd, ParseValue, Blanks;
    var b := name + before + ['='] + after + v;
    KeyScans(name, before, after, v);
    KeyFirst(name, before, after, v);
  }

  lemma KeyFirst(name: Text, before: Text, after: Text, v: Text)
    requires Names(name, false) && (name == [] ==> before == [])
    ensures var b := name + before + ['='] + after + v;
      b != [] && b[0] != ';' && b[0] != '#' && b[0] != ':' && b[0] != '[' && !IsBlank(b[0])
  {
    assert (name + before + ['='] + after + v)[0] == if name == [] then '=' else name[0];
  }

  lemma SpeltSolid(s: Spelling)
    requires WellSpelt(s)
    ensures s.Nothing? <==> Spelt(s) == []
    ensures !s.Nothing? ==> Solid(Spelt(s))
  {
    hide Solid, InRadix, SettingsSpelt;
    match s
    case Nothing =>
    case Quoted(x) => QuotedSolid(x);
    case Bare(x) => Initial(x);
    case Number(neg, base, digits) => NumberSolid(neg, base, digits);
    case Pin(bank, digits, settings) => PinSolid("port:P" + [bank], digits, settings);
    case PowerPin(digits, settings) => PinSolid("port:power", digits, settings);
  }

  lemma Initial(x: Text)
    requires Solid(x)
    ensures x != []
  {}

  lemma QuotedSolid(x: Text)
    requires Clean(x)
    ensures Solid(['"'] + x + ['"'])
  {}

  lemma NumberSolid(neg: bool, base: Base, digits: Text)
    requires InRadix(digits, Radix(base))
    ensures Solid(Minus(neg) + Prefix(base) + digits)
  {
    DigitsClean(digits, Radix(base));
    var x := Minus(neg) + Prefix(base);
    if x == [] { assert x + digits == digits; } else { SignSolid(neg, base); Tail(x, digits); }
  }

  lemma SignSolid(neg: bool, base: Base)
    requires neg || !base.Decimal?
    ensures Solid(Minus(neg) + Prefix(base))
  {}

  lemma PinSolid(front: Text, digits: Text, ss: seq<Setting>)
    requires Clean(front) && front != [] && !IsBlank(front[0]) && InRadix(digits, 10) && LevelsSpelt(ss)
    ensures Solid(front + digits + SettingsSpelt(ss))
  {
    hide SettingsSpelt;
    DigitsClean(digits, 10);
    FrontSolid(front, digits);
    SettingsCleanly(ss);
    Tail(front + digits, SettingsSpelt(ss));
  }

  lemma FrontSolid(front: Text, x: Text)
    requires Clean(front) && front != [] && !IsBlank(front[0]) && Solid(x)
    ensures Solid(front + x)
  {}

  lemma DigitsClean(digits: Text, b: nat)
    requires InRadix(digits, b) && b <= 16
    ensures Solid(digits)
  {
    forall i | 0 <= i < |digits|
      ensures digits[i] != '\0' && digits[i] != '\n' && !IsBlank(digits[i]) && digits[i] != ';' && digits[i] != '\r'
    {
      assert DigitVal(digits[i]) < 16;
    }
  }

  lemma {:induction false} SettingsCleanly(ss: seq<Setting>)
    requires LevelsSpelt(ss)
    ensures if ss == [] then SettingsSpelt(ss) == [] else Solid(SettingsSpelt(ss))
    decreases |ss|
  {
    hide Solid, InRadix, SettingSpelt;
    if ss != [] {
      assert LevelsSpelt(ss[1..]);
      SettingsCleanly(ss[1..]);
      SettingSolid(ss[0]);
      Tail(SettingSpelt(ss[0]), SettingsSpelt(ss[1..]));
    }
  }

  lemma SettingSolid(s: Setting)
    requires s.Level? ==> InRadix(s.digits, 10)
    ensures Solid(SettingSpelt(s))
  {
    if s.Level? {
      DigitsClean(s.digits, 10);
      FrontSolid(['<'], s.digits);
      Tail(['<'] + s.digits, ['>']);
    }
  }

  lemma Tail(x: Text, y: Text)
    requires Solid(x) && (y == [] || Solid(y))
    ensures Solid(x + y)
  {
    if y == [] { assert x + y == x; }
  }

  lemma CoreSolid(l: FexLine)
    requires WellFormedLine(l) && (l.Head? || l.Key?)
    ensures Solid(CoreOf(l))
  {
    hide Spelt, WellSpelt;
    if l.Head? {
      HeadParsed(l.name, true);
    } else {
      SpeltSolid(l.value);
      KeyFirst(l.name, l.before, l.after, Spelt(l.value));
      var b := CoreOf(l);
      NamesClean(l.name);
      BlanksClean(l.before);
      BlanksClean(l.after);
      assert b[|b| - 1] == if l.value.Nothing? then '=' else Spelt(l.value)[|Spelt(l.value)| - 1];
    }
  }

  lemma NamesClean(name: Text)
    requires Names(name, false)
    ensures Clean(name)
  {
    forall i | 0 <= i < |name| ensures name[i] != '\0' && name[i] != '\n' { assert IsKeyChar(name[i]); }
  }

  lemma BlanksClean(t: Text)
    requires Blanks(t)
    ensures Clean(t)
  {}

  /** What a body means for the tree. */
  function Contribution(line: Line, t: Tree): (r: Res<Tree>)
    requires line.Item? ==> t != []
  {
    match line
    case Skip => Ok(t)
    case Head(name) => Ok(t + [Section(name, [])])
    case Item(e) => Ok(Append(t, e))
    case Bad => Refused
    case Abort => Fault
  }

  lemma CoreRead(l: FexLine, t: Tree)
    requires WellFormedLine(l) && (l.Head? || l.Key?)
    ensures Contribution(ParseBody(CoreOf(l), t != []), t) == Effect(l, t)
  {
    hide ParseValue, Meaning, Spelt, WellSpelt, ParseBody;
    if l.Head? {
      HeadParsed(l.name, t != []);
    } else {
      SpeltSolid(l.value);
      if !l.value.Nothing? { SolidFirst(Spelt(l.value)); }
      KeyRead(l.name, l.before, l.after, Spelt(l.value));
      ValueParsed(l.name, l.value);
      MeaningKinds(l.value);
    }
  }

  lemma SolidFirst(v: Text)
    requires Solid(v)
    ensures v != [] && !IsBlank(v[0])
  {}

  lemma MeaningKinds(s: Spelling)
    ensures !Meaning(s).Fault?
  {}

  /** One line of the grammar, at any place of a file: it has its effect, and the rest is read on. */
  lemma LineParsed(l: FexLine, end: Text, rest: Text, t: Tree)
    requires WellFormedLine(l) && Stops(|LineSpelt(l)|, end, rest == [])
    ensures ParseText(LineSpelt(l) + end + rest, t)
         == if Effect(l, t).Ok? then ParseText(rest, Effect(l, t).value) else Effect(l, t)
  {
    hide ParseText, Body, ParseBody, Effect, CoreOf, Solid, Spelt, WellSpelt;
    OneLine(l);
    LineRead(LineSpelt(l), end, rest, t);
    var b := Body(LineSpelt(l) + end);
    if l.Empty? {
      NothingFound(l.lead, end);
      Skipped(b, t, l);
    } else if l.Comment? {
      assert LineSpelt(l) + end == l.lead + [l.mark] + (l.text + end);
      MarkFound(l.lead, l.mark, l.text + end);
      Skipped(b, t, l);
    } else {
      CoreSolid(l);
      CoreFound(l.lead, CoreOf(l), l.semicolon, l.trail, end);
      CoreRead(l, t);
    }
  }

  lemma Skipped(b: Text, t: Tree, l: FexLine)
    requires (l.Empty? && b == []) || (l.Comment? && WellFormedLine(l) && (b == [] || b[0] == l.mark))
    ensures ParseBody(b, t != []) == Skip && Effect(l, t) == Ok(t)
  {}

  lemma OneLine(l: FexLine)
    requires WellFormedLine(l)
    ensures '\n' !in LineSpelt(l)
  {
    hide CoreOf, Spelt, WellSpelt;
    BlanksClean(l.lead);
    if l.Head? || l.Key? {
      CoreSolid(l);
      BlanksClean(l.trail);
    }
  }

  // ----- files

  datatype Ended = Ended(line: FexLine, end: Text)

  /** Every line ends as it may; only the last may lack a line end, or one that fills the buffer. */
  predicate WellFormedFile(ls: seq<Ended>) {
    forall i :: 0 <= i < |ls| ==> FitsBuffer(ls[i], i == |ls| - 1)
  }

  predicate FitsBuffer(l: Ended, last: bool) {
    WellFormedLine(l.line) && Stops(|LineSpelt(l.line)|, l.end, last)
  }

  function FileSpelt(ls: seq<Ended>): (text: Text) {
    if ls == [] then [] else LineSpelt(ls[0].line) + ls[0].end + FileSpelt(ls[1..])
  }

  /** The effects of all lines in turn, up to the first that is refused. */
  function FileMeaning(ls: seq<Ended>, t: Tree): (r: Res<Tree>)
    decreases |ls|
  {
    if ls == [] then Ok(t)
    else
      var r := Effect(ls[0].line, t);
      if r.Ok? then FileMeaning(ls[1..], r.value) else r
  }

  /** The parser reads every file of the grammar as what it means. */
  lemma {:induction false} FileParsed(ls: seq<Ended>, t: Tree)
    requires WellFormedFile(ls)
    ensures ParseText(FileSpelt(ls), t) == FileMeaning(ls, t)
    decreases |ls|
  {
    hide Effect, LineSpelt, ParseText, FitsBuffer;
    if ls == [] {
      NoText(t);
    } else {
      var l, rest := ls[0], ls[1..];
      assert FitsBuffer(l, 0 == |ls| - 1);
      forall i | 0 <= i < |rest| ensures FitsBuffer(rest[i], i == |rest| - 1) {
        assert FitsBuffer(ls[i + 1], i + 1 == |ls| - 1);
      }
      LineFits(l, FileSpelt(rest), |ls| == 1);
      LineParsed(l.line, l.end, FileSpelt(rest), t);
      var r := Effect(l.line, t);
      if r.Ok? { FileParsed(rest, r.value); }
    }
  }

  lemma NoText(t: Tree)
    ensures ParseText([], t) == Ok(t)
  {}

  lemma LineFits(l: Ended, rest: Text, last: bool)
    requires FitsBuffer(l, last) && (last ==> rest == [])
    ensures WellFormedLine(l.line) && Stops(|LineSpelt(l.line)|, l.end, rest == [])
  {}

  // ----- lines that are refused

  /** A line whose core is refused makes the parser refuse the file. */
  lemma RefusedLine(lead: Text, core: Text, semicolon: bool, trail: Text, end: Text, rest: Text, t: Tree)
    requires Blanks(lead) && Blanks(trail) && Solid(core) && ParseBody(core, t != []) == Bad
    requires Stops(|lead + core + Semi(semicolon) + trail|, end, rest == [])
    ensures ParseText(lead + core + Semi(semicolon) + trail + end + rest, t) == Refused
  {
    hide ParseText, Body, ParseBody;
    var l := lead + core + Semi(semicolon) + trail;
    BlanksClean(lead);
    BlanksClean(trail);
    assert Clean(l);
    CoreFound(lead, core, semicolon, trail, end);
    LineRead(l, end, rest, t);
  }

  /** A section line must end with its bracket and hold nothing but a path. */
  lemma HeadRefused(name: Text, x: Text, open: bool)
    requires Names(name, true) && x != "]" && (x != [] ==> !IsPathChar(x[0]))
    ensures ParseBody(['['] + name + x, open) == Bad
  {
    hide NameEnd;
    var b := ['['] + name + x;
    forall i | 1 <= i < 1 + |name| ensures IsPathChar(b[i]) { assert b[i] == name[i - 1]; }
    assert x != [] ==> b[1 + |name|] == x[0];
    NameEndAt(b, 1, 1 + |name|, true);
    if |x| == 1 { assert x == [x[0]]; }
  }

  /** A key must be followed by an equals sign, and must not come before the first section. */
  lemma KeyRefused(name: Text, before: Text, x: Text, open: bool)
    requires Names(name, false) && name != [] && Blanks(before) && (x != [] ==> x[0] != '=' && !IsBlank(x[0]))
    requires before == [] && x != [] ==> !IsKeyChar(x[0])
    ensures ParseBody(name + before + x, open) == Bad
  {
    hide NameEnd, IsKeyChar, BlankEnd;
    var b, eq := name + before + x, |name| + |before|;
    forall i | 0 <= i < |name| ensures b[i] == name[i] {}
    forall i | |name| <= i < eq ensures b[i] == before[i - |name|] {}
    assert x != [] ==> b[eq] == x[0];
    NoKeyChars();
    NameEndAt(b, 0, |name|, false);
    BlanksEnd(b, |name|, eq);
    KeyFirst(name, before, [], x);
    KeyInitial(name, b);
  }

  lemma KeyInitial(name: Text, b: Text)
    requires Names(name, false) && name != [] && name <= b
    ensures b[0] != ';' && b[0] != '#' && b[0] != ':' && b[0] != '['
  {
    assert b[0] == name[0];
  }

  // ----- an example

  const COMMENT_LINE: Ended := Ended(Comment("", ';', " c"), "\n")
  const HEAD_LINE: Ended := Ended(FexLine.Head("", "s", false, ""), "\r\n")
  const KEY_LINE: Ended := Ended(Key(" ", "k", "\t", "", Number(false, HEX, "1F"), true, ""), "\n")

  lemma ExampleLines()
    ensures FitsBuffer(COMMENT_LINE, false) && LineSpelt(COMMENT_LINE.line) == "; c"
    ensures FitsBuffer(HEAD_LINE, false) && LineSpelt(HEAD_LINE.line) == "[s]"
    ensures FitsBuffer(KEY_LINE, true) && LineSpelt(KEY_LINE.line) == " k\t=0X1F;"
  {}

  lemma ExampleEffects()
    ensures Effect(COMMENT_LINE.line, []) == Ok([]) && Effect(HEAD_LINE.line, []) == Ok([Section("s", [])])
    ensures Effect(KEY_LINE.line, [Section("s", [])]) == Ok([Section("s", [Entry("k", Single(31))])])
  {
    var d: Text := "1F";
    assert d[..1] == "1" && d[..1][..0] == [];
    assert NumberOf("1", 16) == 1 && NumberOf(d, 16) == 31;
    assert Meaning(KEY_LINE.line.value) == Ok(Single(31));
    var t: Tree := [Section("s", [])];
    assert [] + [Section("s", [])] == t;
    assert t[0].entries + [Entry("k", Single(31))] == [Entry("k", Single(31))];
    assert WithEntry(t, 0, Entry("k", Single(31))) == [Section("s", [Entry("k", Single(31))])];
  }

  lemma ExampleText()
    ensures FileSpelt([COMMENT_LINE, HEAD_LINE, KEY_LINE]) == "; c\n[s]\r\n k\t=0X1F;\n"
  {
    hide LineSpelt;
    ExampleLines();
    assert [COMMENT_LINE, HEAD_LINE, KEY_LINE][1..] == [HEAD_LINE, KEY_LINE];
    assert [HEAD_LINE, KEY_LINE][1..] == [KEY_LINE] && [KEY_LINE][1..] == [];
    assert FileSpelt([KEY_LINE]) == " k\t=0X1F;\n";
    assert FileSpelt([HEAD_LINE, KEY_LINE]) == "[s]\r\n k\t=0X1F;\n";
  }

  lemma ExampleMeaning()
    ensures FileMeaning([COMMENT_LINE, HEAD_LINE, KEY_LINE], []) == Ok([Section("s", [Entry("k", Single(31))])])
  {
    hide Effect;
    ExampleEffects();
    var t: Tree := [Section("s", [])];
    assert [COMMENT_LINE, HEAD_LINE, KEY_LINE][1..] == [HEAD_LINE, KEY_LINE];
    assert [HEAD_LINE, KEY_LINE][1..] == [KEY_LINE] && [KEY_LINE][1..] == [];
    assert FileMeaning([KEY_LINE], t) == FileMeaning([], [Section("s", [Entry("k", Single(31))])]);
    assert FileMeaning([HEAD_LINE, KEY_LINE], []) == FileMeaning([KEY_LINE], t);
  }

  /** A comment, a section with the other line end, an upper-case number behind blanks with a semicolon. */
  lemma Example()
    ensures ParseText("; c\n[s]\r\n k\t=0X1F;\n", []) == Ok([Section("s", [Entry("k", Single(31))])])
  {
    hide ParseText, FitsBuffer, FileSpelt, FileMeaning;
    ExampleLines();
    ExampleText();
    ExampleMeaning();
    FileParsed([COMMENT_LINE, HEAD_LINE, KEY_LINE], []);
  }
}
