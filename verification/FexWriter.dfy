/**
 Printing a script as fex text.
 */
module FexWriter {
  import opened BitVectors
  import opened Script
  import opened FexLexer

  /** Names of values printed in hexadecimal, possibly followed by digits. */
  const HEXA: seq<Text> := [
    "dram_baseaddr", "dram_zq", "dram_tpr", "dram_emr", "g2d_size", "rtp_press_threshold", "rtp_sensitive_level",
    "ctp_twi_addr", "csi_twi_addr", "csi_twi_addr_b", "tkey_twi_addr", "lcd_gamma_tbl_", "gsensor_twi_addr"]

  /** Length of a name without its trailing digits. */
  function StemLength(name: Text): (l: nat)
    ensures l <= |name|
  {
    if name != [] && IsDigit(name[|name| - 1]) then StemLength(name[..|name| - 1]) else |name|
  }

  /** The comparison only looks at the stem's length, so any prefix of a listed name matches. */
  predicate InHexa(name: Text) {
    exists i :: 0 <= i < |HEXA| && StemLength(name) <= |HEXA[i]| && name[..StemLength(name)] == HEXA[i][..StemLength(name)]
  }

  function SingleText(hexa: bool, w: u32): (v: Text) {
    if hexa then ['0', 'x'] + Digits(w, 16) else Signed(S32(w))
  }

  /** `%02u`. */
  function Padded(n: nat): (v: Text)
    ensures |v| > 0
  {
    if n < 10 then ['0'] + Digits(n, 10) else Digits(n, 10)
  }

  const PORT: Text := ['p', 'o', 'r', 't', ':']
  const POWER_PIN: Text := ['p', 'o', 'w', 'e', 'r']
  const DEFAULT: Text := ['<', 'd', 'e', 'f', 'a', 'u', 'l', 't', '>']

  /** The bank letter, as the eight bits that get printed. */
  function BankLetter(port: u32): c8 {
    ((64 + port) % 0x100) as char
  }

  function PinText(port: u32, num: u32): (v: Text) {
    if port == POWER then POWER_PIN + Digits(num, 10) else ['P', BankLetter(port)] + Padded(num)
  }

  function SettingText(d: i32): (v: Text)
    ensures |v| > 0 && v[0] == '<' && v[|v| - 1] == '>'
  {
    if d == -1 then DEFAULT else ['<'] + Signed(d) + ['>']
  }

  /** Settings from the `i`-th on. */
  function SettingsText(d: Four, i: nat): (v: Text)
    requires i <= 4
    decreases 4 - i
  {
    if i == 4 then [] else SettingText(d[i]) + SettingsText(d, i + 1)
  }

  /** What follows the equals sign and a blank. */
  function ValueText(hexa: bool, v: Value): (s: Text)
    requires !v.Null?
  {
    match v
    case Single(w) => SingleText(hexa, w)
    case Str(s) => ['"'] + s + ['"']
    case Gpio(port, num, d) => PORT + PinText(port, num) + SettingsText(d, 0)
  }

  function EntryLine(e: Entry): (l: Text) {
    if e.value.Null? then e.name + [' ', '='] else e.name + [' ', '=', ' '] + ValueText(InHexa(e.name), e.value)
  }

  function SectionLine(s: Section): (l: Text) {
    ['['] + s.name + [']']
  }

  /** Lines of the entries from the `i`-th on. */
  function EntryLines(es: seq<Entry>, i: nat): (out: Text)
    requires i <= |es|
    decreases |es| - i
  {
    if i == |es| then [] else EntryLine(es[i]) + ['\n'] + EntryLines(es, i + 1)
  }

  /** The text of the sections from the `j`-th on. */
  function FexText(t: Tree, j: nat): (out: Text)
    requires j <= |t|
    decreases |t| - j
  {
    if j == |t| then []
    else SectionLine(t[j]) + ['\n'] + EntryLines(t[j].entries, 0) + ['\n'] + FexText(t, j + 1)
  }

  method StemLengthOf(name: Text) returns (l: nat)
    ensures l == StemLength(name)
  {
    l := |name|;
    assert name[..l] == name;
    while l > 0 && IsDigit(name[l - 1])
      invariant l <= |name| && StemLength(name[..l]) == StemLength(name)
    {
      assert name[..l][..l - 1] == name[..l - 1];
      l := l - 1;
    }
  }

  /** `decompile_single_mode`: whether the value is to be printed in hexadecimal. */
  method SingleMode(name: Text) returns (hexa: bool)
    ensures hexa == InHexa(name)
  {
    hide StemLength;
    var l := StemLengthOf(name);
    var i := 0;
    while i < |HEXA|
      invariant i <= |HEXA|
      invariant forall k :: 0 <= k < i ==> !(l <= |HEXA[k]| && name[..l] == HEXA[k][..l])
    {
      if l <= |HEXA[i]| && name[..l] == HEXA[i][..l] { return true; }
      i := i + 1;
    }
    hexa := false;
  }

  /** One entry's line. */
  method WriteEntry(e: Entry) returns (out: Text)
    ensures out == EntryLine(e) + ['\n']
  {
    hide Digits, Signed, InHexa;
    match e.value {
      case Single(w) =>
        var hexa := SingleMode(e.name);
        out := e.name + [' ', '=', ' '] + SingleText(hexa, w);
      case Str(s) =>
        out := e.name + [' ', '=', ' '] + ['"'] + s + ['"'];
        assert out == EntryLine(e);
      case Gpio(port, num, d) =>
        out := e.name + [' ', '=', ' '] + PORT + PinText(port, num);
        ghost var head := out;
        var i := 0;
        while i < 4
          invariant 0 <= i <= 4 && out + SettingsText(d, i) == head + SettingsText(d, 0)
        {
          SettingsNext(d, i);
          out := out + SettingText(d[i]);
          i := i + 1;
        }
        NoSettings(d);
        assert out == EntryLine(e) by { JoinGpio(e); }
      case Null =>
        out := e.name + [' ', '='];
    }
    out := out + ['\n'];
  }

  lemma SettingsNext(d: Four, i: nat)
    requires i < 4
    ensures SettingsText(d, i) == SettingText(d[i]) + SettingsText(d, i + 1)
  {}

  lemma NoSettings(d: Four)
    ensures SettingsText(d, 4) == []
  {}

  lemma JoinGpio(e: Entry)
    requires e.value.Gpio?
    ensures EntryLine(e) == e.name + [' ', '=', ' '] + PORT + PinText(e.value.port, e.value.num) + SettingsText(e.value.data, 0)
  {
    hide PinText, SettingsText, InHexa;
  }

  /** The lines of a section's entries. */
  method WriteEntries(es: seq<Entry>) returns (out: Text)
    ensures out == EntryLines(es, 0)
  {
    hide EntryLine, EntryLines;
    out := [];
    var c := 0;
    while c < |es|
      invariant c <= |es| && EntryLines(es, 0) == out + EntryLines(es, c)
    {
      var line := WriteEntry(es[c]);
      LinesNext(es, c);
      Shift(out, line, EntryLines(es, c + 1));
      out := out + line;
      c := c + 1;
    }
    LinesEnd(es);
  }

  lemma Shift(a: Text, b: Text, c: Text)
    ensures a + (b + c) == a + b + c
  {}

  lemma LinesNext(es: seq<Entry>, c: nat)
    requires c < |es|
    ensures EntryLines(es, c) == EntryLine(es[c]) + ['\n'] + EntryLines(es, c + 1)
  {}

  lemma LinesEnd(es: seq<Entry>)
    ensures EntryLines(es, |es|) == []
  {}

  /** `script_generate_fex`. */
  method GenerateFex(t: Tree) returns (out: Text)
    ensures out == FexText(t, 0)
  {
    hide FexText;
    out := [];
    var j := 0;
    while j < |t|
      invariant j <= |t| && FexText(t, 0) == out + FexText(t, j)
    {
      var lines := WriteEntries(t[j].entries);
      var section := SectionLine(t[j]) + ['\n'] + lines + ['\n'];
      SectionNext(t, j);
      Shift(out, section, FexText(t, j + 1));
      out := out + section;
      j := j + 1;
    }
    TextEnd(t);
  }

  lemma SectionNext(t: Tree, j: nat)
    requires j < |t|
    ensures FexText(t, j) == SectionLine(t[j]) + ['\n'] + EntryLines(t[j].entries, 0) + ['\n'] + FexText(t, j + 1)
  {}

  lemma TextEnd(t: Tree)
    ensures FexText(t, |t|) == []
  {}
}
