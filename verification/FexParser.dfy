/**
 Parsing fex text line by line: what each line means, the loops over the line
 buffer that find it out, and the loop over the file.
 */
module FexParser {
  import opened BitVectors
  import opened Memory
  import opened Script
  import opened FexLexer
  import opened FexWriter

  /** What a line contributes; `Bad` is an error message, `Abort` a failed assertion. */
  datatype Line = Skip | Head(name: Text) | Item(entry: Entry) | Bad | Abort

  /** `fgets` fills at most this many characters. */
  const MAX_LINE: nat := 255

  // ----- cutting up the buffer

  function BlankEnd(v: Text, p: nat): (q: nat)
    requires p <= |v|
    ensures p <= q <= |v|
    decreases |v| - p
  {
    if p < |v| && IsBlank(v[p]) then BlankEnd(v, p + 1) else p
  }

  function NameEnd(v: Text, p: nat, path: bool): (q: nat)
    requires p <= |v|
    ensures p <= q <= |v|
    decreases |v| - p
  {
    if p < |v| && (if path then IsPathChar(v[p]) else IsKeyChar(v[p])) then NameEnd(v, p + 1, path) else p
  }

  /** The line end, with or without a carriage return. */
  function NoNewline(v: Text): (r: Text) {
    if v != [] && v[|v| - 1] == '\n' then
      if |v| > 1 && v[|v| - 2] == '\r' then v[..|v| - 2] else v[..|v| - 1]
    else v
  }

  /** Trailing blanks off; the first character always stays. */
  function Trimmed(v: Text): (r: Text) {
    if |v| > 1 && IsBlank(v[|v| - 1]) then Trimmed(v[..|v| - 1]) else v
  }

  function NoSemicolon(v: Text): (r: Text) {
    if v != [] && v[|v| - 1] == ';' then v[..|v| - 1] else v
  }

  /** The characters in front of the first zero character. */
  function CString(v: Text): (r: Text)
    ensures |r| <= |v| && NulFree(r)
  {
    if v == [] || v[0] == '\0' then [] else [v[0]] + CString(v[1..])
  }

  /** What of the buffer is looked at. */
  function Body(chunk: Text): (r: Text) {
    var line := CString(chunk);
    NoSemicolon(Trimmed(NoNewline(line[BlankEnd(line, 0)..])))
  }

  predicate Starts(v: Text, p: nat, w: Text) {
    p + |w| <= |v| && v[p..p + |w|] == w
  }

  // ----- values

  datatype Settings = Stopped(p: nat, data: Four) | OutOfRange

  /** The settings from the `i`-th on; stops at the first character that does not fit. */
  function ScanSettings(v: Text, p: nat, i: nat, data: Four): (r: Settings)
    requires p <= |v| && i <= 4
    ensures r.Stopped? ==> p <= r.p <= |v|
    decreases 4 - i
  {
    if p == |v| || i == 4 then Stopped(p, data)
    else if Starts(v, p, DEFAULT) then ScanSettings(v, p + 9, i + 1, data)
    else if v[p] != '<' then Stopped(p, data)
    else
      var (x, end) := Strtol(v, p + 1, 10);
      if end == p + 1 then Stopped(end, data)
      else if x < 0 || x > 0x7FFF_FFFF then OutOfRange
      else if At(v, end) != '>' then Stopped(end, data)
      else ScanSettings(v, end + 1, i + 1, data[i := x])
  }

  /** A port value; `p` is behind the bank or the word power. */
  function ParsePin(key: Text, v: Text, p: nat, port: u32): (r: Line)
    requires p <= |v|
  {
    var (num, end) := Strtol(v, p, 10);
    if end == p || num < 0 || num > 255 then Bad
    else
      match ScanSettings(v, end, 0, [-1, -1, -1, -1])
      case OutOfRange => Bad
      case Stopped(q, data) =>
        if q < |v| then Bad else if key == [] then Abort else Item(Entry(Cut(key), Gpio(port, num, data)))
  }

  function ParsePort(key: Text, v: Text): (r: Line)
    requires Starts(v, 0, PORT)
  {
    if At(v, 5) == 'P' then
      if At(v, 6) < 'A' || At(v, 6) as int > 'A' as int + GPIO_BANK_MAX then Bad
      else ParsePin(key, v, 7, At(v, 6) as int - 'A' as int + 1)
    else if Starts(v, 5, POWER_PIN) then ParsePin(key, v, 10, POWER)
    else Bad
  }

  function ParseNumber(key: Text, v: Text): (r: Line) {
    var (x, end) := Strtol(v, 0, 0);
    if end != |v| || x > 0xFFFF_FFFF then Bad
    else if key == [] then Abort
    else Item(Entry(Cut(key), Single(x % TWO32)))
  }

  function ParseValue(key: Text, v: Text): (r: Line) {
    if v == [] then if key == [] then Abort else Item(Entry(Cut(key), Null))
    else if |v| > 1 && v[0] == '"' && v[|v| - 1] == '"' then Item(Entry(Cut(key), Str(v[1..|v| - 1])))
    else if Starts(v, 0, PORT) then ParsePort(key, v)
    else if IsDigit(v[0]) || (v[0] == '-' && IsDigit(At(v, 1))) then ParseNumber(key, v)
    else Item(Entry(Cut(key), Str(v)))
  }

  // ----- lines

  function ParseKey(b: Text): (r: Line) {
    var mark := NameEnd(b, 0, false);
    var p := BlankEnd(b, mark);
    if At(b, p) != '=' then Bad else ParseValue(b[..mark], b[BlankEnd(b, p + 1)..])
  }

  function ParseHead(b: Text): (r: Line)
    requires b != []
  {
    var p := NameEnd(b, 1, true);
    if At(b, p) != ']' || p + 1 != |b| then Bad
    else if p == 1 then Abort
    else Head(Cut(b[1..p]))
  }

  /** A line's meaning; `open` tells whether a section has been seen. */
  function ParseBody(b: Text, open: bool): (r: Line)
    ensures r.Item? ==> open
  {
    if b == [] || b[0] == ';' || b[0] == '#' || b[0] == ':' then Skip
    else if b[0] == '[' then ParseHead(b)
    else if !open then Bad
    else ParseKey(b)
  }

  // ----- the whole text

  /** Length of what the next `fgets` delivers. */
  function ChunkLength(text: Text, k: nat): (n: nat)
    requires k <= |text|
    ensures k <= n <= |text| && (k < MAX_LINE && k < |text| ==> n > k) && (k <= MAX_LINE ==> n <= MAX_LINE)
    decreases |text| - k
  {
    if k == |text| || k >= MAX_LINE then k
    else if text[k] == '\n' then k + 1
    else ChunkLength(text, k + 1)
  }

  /** New entries go to the section seen last. */
  function Append(t: Tree, e: Entry): (r: Tree)
    requires t != []
    ensures r == WithEntry(t, |t| - 1, e)
  {
    t[..|t| - 1] + [Section(t[|t| - 1].name, t[|t| - 1].entries + [e])]
  }

  function ParseText(text: Text, t: Tree): (r: Res<Tree>)
    decreases |text|
  {
    if text == [] then Ok(t)
    else
      var n := ChunkLength(text, 0);
      var rest := text[n..];
      match ParseBody(Body(text[..n]), t != [])
      case Skip => ParseText(rest, t)
      case Head(name) => ParseText(rest, t + [Section(name, [])])
      case Item(e) => ParseText(rest, Append(t, e))
      case Bad => Refused
      case Abort => Fault
  }

  // ----- the parser's loops

  method SkipBlank(v: Text, p: nat) returns (q: nat)
    requires p <= |v|
    ensures q == BlankEnd(v, p)
  {
    q := p;
    while q < |v| && IsBlank(v[q])
      invariant p <= q <= |v| && BlankEnd(v, q) == BlankEnd(v, p)
      decreases |v| - q
    {
      q := q + 1;
    }
  }

  method SkipName(v: Text, p: nat, path: bool) returns (q: nat)
    requires p <= |v|
    ensures q == NameEnd(v, p, path)
  {
    q := p;
    while q < |v| && (if path then IsPathChar(v[q]) else IsKeyChar(v[q]))
      invariant p <= q <= |v| && NameEnd(v, q, path) == NameEnd(v, p, path)
      decreases |v| - q
    {
      q := q + 1;
    }
  }

  /** `rtrim`: the new end. */
  method Rtrim(v: Text) returns (pe: nat)
    ensures pe <= |v| && v[..pe] == Trimmed(v)
  {
    pe := |v|;
    if pe > 0 {
      assert v[..pe] == v;
      pe := pe - 1;
      while pe != 0 && IsBlank(v[pe])
        invariant 0 <= pe < |v| && Trimmed(v[..pe + 1]) == Trimmed(v)
      {
        assert v[..pe + 1][..pe] == v[..pe];
        pe := pe - 1;
      }
      pe := pe + 1;
    }
  }

  /** Find the end of the line in the buffer and cut it back. */
  method Prepare(chunk: Text) returns (b: Text)
    ensures b == Body(chunk)
  {
    hide Trimmed, CString, BlankEnd;
    var line := Terminated(chunk);
    var s := SkipBlank(line, 0);
    b := line[s..];
    ghost var whole := b;
    var pe := |b|;
    if pe > 0 && b[pe - 1] == '\n' {
      if pe > 1 && b[pe - 2] == '\r' { pe := pe - 2; } else { pe := pe - 1; }
    }
    b := b[..pe];
    assert b == NoNewline(whole);
    pe := Rtrim(b);
    b := b[..pe];
    if pe > 0 && b[pe - 1] == ';' { b := b[..pe - 1]; }
  }

  method Terminated(chunk: Text) returns (line: Text)
    ensures line == CString(chunk)
  {
    var n := 0;
    assert chunk[..0] == [];
    assert chunk[0..] == chunk;
    while n < |chunk| && chunk[n] != '\0'
      invariant n <= |chunk| && chunk[..n] + CString(chunk[n..]) == CString(chunk)
    {
      CStringNext(chunk, n);
      n := n + 1;
    }
    line := chunk[..n];
  }

  lemma CStringNext(chunk: Text, n: nat)
    requires n < |chunk| && chunk[n] != '\0'
    ensures chunk[..n] + CString(chunk[n..]) == chunk[..n + 1] + CString(chunk[n + 1..])
  {
    assert chunk[n..][1..] == chunk[n + 1..];
    assert chunk[..n + 1] == chunk[..n] + [chunk[n]];
  }

  /** The loop over the four settings. */
  method ReadSettings(v: Text, p0: nat) returns (r: Settings)
    requires p0 <= |v|
    ensures r == ScanSettings(v, p0, 0, [-1, -1, -1, -1])
  {
    hide Strtol, Starts;
    var p: nat, i: nat := p0, 0;
    var data: Four := [-1, -1, -1, -1];
    while p < |v| && i < 4
      invariant p <= |v| && 0 <= i <= 4
      invariant ScanSettings(v, p, i, data) == ScanSettings(v, p0, 0, [-1, -1, -1, -1])
      decreases 4 - i
    {
      if Starts(v, p, DEFAULT) {
        StartsFits(v, p, DEFAULT);
        p := p + 9;
      } else if v[p] == '<' {
        var (x, end) := Strtol(v, p + 1, 10);
        if end == p + 1 { return Stopped(end, data); }
        if x < 0 || x > 0x7FFF_FFFF { return OutOfRange; }
        if At(v, end) != '>' { return Stopped(end, data); }
        p := end + 1;
        data := data[i := x];
      } else {
        return Stopped(p, data);
      }
      i := i + 1;
    }
    r := Stopped(p, data);
  }

  lemma StartsFits(v: Text, p: nat, w: Text)
    requires Starts(v, p, w)
    ensures p + |w| <= |v|
  {}

  /** A value that begins with `port:`. */
  method ReadPort(key: Text, v: Text) returns (r: Line)
    requires Starts(v, 0, PORT)
    ensures r == ParsePort(key, v)
  {
    hide Strtol, ScanSettings;
    var port: u32, p: nat := POWER, 10;
    if At(v, 5) == 'P' {
      if At(v, 6) < 'A' || At(v, 6) as int > 'A' as int + GPIO_BANK_MAX { return Bad; }
      port, p := At(v, 6) as int - 'A' as int + 1, 7;
    } else if !Starts(v, 5, POWER_PIN) {
      return Bad;
    }
    var (num, end) := Strtol(v, p, 10);
    if end == p || num < 0 || num > 255 { return Bad; }
    var s := ReadSettings(v, end);
    match s {
      case OutOfRange => return Bad;
      case Stopped(q, data) =>
        if q < |v| { return Bad; }
        if key == [] { return Abort; }
        r := Item(Entry(Cut(key), Gpio(port, num, data)));
    }
  }

  /** One line of the buffer. */
  method ReadLine(chunk: Text, open: bool) returns (r: Line)
    ensures r == ParseBody(Body(chunk), open)
  {
    hide Body, ParsePort, ParseNumber;
    var b := Prepare(chunk);
    if b == [] || b[0] == ';' || b[0] == '#' || b[0] == ':' { return Skip; }
    if b[0] == '[' {
      var p := SkipName(b, 1, true);
      if p >= |b| || b[p] != ']' || p + 1 != |b| { return Bad; }
      if p == 1 { return Abort; }
      return Head(Cut(b[1..p]));
    }
    if !open { return Bad; }
    var mark := SkipName(b, 0, false);
    var p := SkipBlank(b, mark);
    if p >= |b| || b[p] != '=' { return Bad; }
    p := SkipBlank(b, p + 1);
    r := ReadValue(b[..mark], b[p..]);
  }

  method ReadValue(key: Text, v: Text) returns (r: Line)
    ensures r == ParseValue(key, v)
  {
    hide ParsePort, ParseNumber, Starts;
    if v == [] { return if key == [] then Abort else Item(Entry(Cut(key), Null)); }
    if |v| > 1 && v[0] == '"' && v[|v| - 1] == '"' { return Item(Entry(Cut(key), Str(v[1..|v| - 1]))); }
    if Starts(v, 0, PORT) {
      r := ReadPort(key, v);
    } else if IsDigit(v[0]) || (v[0] == '-' && IsDigit(At(v, 1))) {
      r := ParseNumber(key, v);
    } else {
      r := Item(Entry(Cut(key), Str(v)));
    }
  }

  /** `script_parse_fex`, into an empty tree. */
  method ParseFex(text: Text) returns (r: Res<Tree>)
    ensures r == ParseText(text, [])
  {
    hide Body, ParseBody, ChunkLength;
    var t: Tree := [];
    var pos := 0;
    assert text[0..] == text;
    while pos < |text|
      invariant 0 <= pos <= |text| && ParseText(text[pos..], t) == ParseText(text, [])
      decreases |text| - pos
    {
      var rest := text[pos..];
      var n := ChunkLength(rest, 0);
      var line := ReadLine(rest[..n], t != []);
      assert text[pos + n..] == rest[n..];
      match line {
        case Bad => return Refused;
        case Abort => return Fault;
        case Skip =>
        case Head(name) => t := t + [Section(name, [])];
        case Item(e) => t := Append(t, e);
      }
      pos := pos + n;
    }
    r := Ok(t);
  }
}
