/**
 How values look in fex text: which numbers are hexadecimal, where signs and
 leading zeros stand, and what a printed line consists of.
 */
module FexNotation {
  import opened BitVectors
  import opened Script
  import opened FexLexer
  import opened FexWriter

  // ----- numbers

  /** The number a string of digits stands for. */
  function NumberOf(t: Text, b: nat): nat {
    if t == [] then 0 else NumberOf(t[..|t| - 1], b) * b + DigitVal(t[|t| - 1])
  }

  predicate DecimalDigits(t: Text) {
    forall i :: 0 <= i < |t| ==> '0' <= t[i] <= '9'
  }

  predicate LowerHexDigits(t: Text) {
    forall i :: 0 <= i < |t| ==> '0' <= t[i] <= '9' || 'a' <= t[i] <= 'f'
  }

  /** Some digits, and no leading zero but for zero itself. */
  predicate Canonical(t: Text) {
    t != [] && (t[0] == '0' ==> |t| == 1)
  }

  /** The digits by name, upper-case hexadecimal included. */
  lemma DigitNames(d: nat)
    requires d < 16
    ensures DigitVal("0123456789abcdef"[d]) == d && DigitVal("0123456789ABCDEF"[d]) == d
    ensures DigitChar(d) == "0123456789abcdef"[d]
  {}

  /** The characters of keys and paths, of numbers and between words, by their codes. */
  lemma Characters(c: c8)
    ensures IsKeyChar(c) <==>
              48 <= c as int <= 57 || 65 <= c as int <= 90 || 97 <= c as int <= 122 || c as int == 95 || c as int == 45
    ensures IsPathChar(c) <==> IsKeyChar(c) || c as int == 47
    ensures IsDigit(c) <==> 48 <= c as int <= 57
    ensures DigitVal(c) < 16 <==> 48 <= c as int <= 57 || 65 <= c as int <= 70 || 97 <= c as int <= 102
    ensures IsBlank(c) <==> c as int == 32 || c as int == 9
  {}

  /** Printed digits: canonical, lower-case, and of the right value. */
  lemma {:induction false} DigitsAre(n: nat, b: nat)
    requires b == 10 || b == 16
    ensures NumberOf(Digits(n, b), b) == n && Canonical(Digits(n, b))
    ensures if b == 10 then DecimalDigits(Digits(n, b)) else LowerHexDigits(Digits(n, b))
    decreases n
  {
    hide DigitVal;
    var t := Digits(n, b);
    if n < b {
      assert t[..0] == [];
      assert NumberOf([], b) == 0;
    } else {
      var q := n / b;
      DigitsAre(q, b);
      Smaller(n, b);
      assert t[..|t| - 1] == Digits(q, b) && t[|t| - 1] == DigitChar(n % b);
    }
  }

  lemma Smaller(n: nat, b: nat)
    requires (b == 10 || b == 16) && n >= b
    ensures 0 < n / b < n && n / b * b + n % b == n
  {
    if b == 10 {} else {}
  }

  /** A single word: hexadecimal exactly if the name says so, else decimal with a sign from 2^31 on. */
  lemma SingleNotation(name: Text, w: u32)
    ensures var v := ValueText(InHexa(name), Single(w));
      && v != [] && (['0', 'x'] <= v <==> InHexa(name))
      && (InHexa(name) ==> LowerHexDigits(v[2..]) && Canonical(v[2..]) && NumberOf(v[2..], 16) == w)
      && (!InHexa(name) ==> if w < 0x8000_0000 then DecimalDigits(v) && Canonical(v) && NumberOf(v, 10) == w
                            else v[0] == '-' && DecimalDigits(v[1..]) && Canonical(v[1..])
                                 && NumberOf(v[1..], 10) == 0x1_0000_0000 - w)
  {
    hide InHexa, Digits, NumberOf;
    var v := ValueText(InHexa(name), Single(w));
    if InHexa(name) {
      DigitsAre(w, 16);
      assert v[2..] == Digits(w, 16);
    } else if w < 0x8000_0000 {
      DigitsAre(w, 10);
      NotPrefixed(v);
    } else {
      DigitsAre(0x1_0000_0000 - w, 10);
      assert v == ['-'] + Digits(0x1_0000_0000 - w, 10);
      assert v[1..] == Digits(0x1_0000_0000 - w, 10);
    }
  }

  lemma NotPrefixed(v: Text)
    requires DecimalDigits(v)
    ensures !(['0', 'x'] <= v)
  {
    assert |v| >= 2 ==> v[..2][1] == v[1] != 'x';
  }

  // ----- names

  /** The names whose values are addresses and register contents. */
  predicate BeginsListed(stem: Text) {
    || stem <= "dram_baseaddr" || stem <= "dram_zq" || stem <= "dram_tpr" || stem <= "dram_emr" || stem <= "g2d_size"
    || stem <= "rtp_press_threshold" || stem <= "rtp_sensitive_level" || stem <= "ctp_twi_addr" || stem <= "csi_twi_addr"
    || stem <= "csi_twi_addr_b" || stem <= "tkey_twi_addr" || stem <= "lcd_gamma_tbl_" || stem <= "gsensor_twi_addr"
  }

  lemma {:induction false} StemOf(stem: Text, digits: Text)
    requires DecimalDigits(digits) && (stem != [] ==> !IsDigit(stem[|stem| - 1]))
    ensures StemLength(stem + digits) == |stem|
    decreases |digits|
  {
    var name := stem + digits;
    if digits == [] {
      assert name == stem;
    } else {
      assert name[..|name| - 1] == stem + digits[..|digits| - 1];
      StemOf(stem, digits[..|digits| - 1]);
    }
  }

  /** A name is printed in hexadecimal exactly if what is in front of its final digits begins a listed name. */
  lemma HexaIff(stem: Text, digits: Text)
    requires DecimalDigits(digits) && (stem != [] ==> !IsDigit(stem[|stem| - 1]))
    ensures InHexa(stem + digits) <==> BeginsListed(stem)
  {
    hide StemLength;
    StemOf(stem, digits);
    var name := stem + digits;
    assert name[..|stem|] == stem;
    assert forall i :: 0 <= i < |HEXA| ==> (stem <= HEXA[i] <==> |stem| <= |HEXA[i]| && stem == HEXA[i][..|stem|]);
    Thirteen(stem);
  }

  lemma Thirteen(stem: Text)
    ensures BeginsListed(stem) <==> exists i :: 0 <= i < |HEXA| && stem <= HEXA[i]
  {
    assert |HEXA| == 13;
    assert HEXA[0] == "dram_baseaddr" && HEXA[1] == "dram_zq" && HEXA[2] == "dram_tpr" && HEXA[3] == "dram_emr";
    assert HEXA[4] == "g2d_size" && HEXA[5] == "rtp_press_threshold" && HEXA[6] == "rtp_sensitive_level";
    assert HEXA[7] == "ctp_twi_addr" && HEXA[8] == "csi_twi_addr" && HEXA[9] == "csi_twi_addr_b";
    assert HEXA[10] == "tkey_twi_addr" && HEXA[11] == "lcd_gamma_tbl_" && HEXA[12] == "gsensor_twi_addr";
  }

  /** Names printed in hexadecimal; one of digits only is among them, its stem being empty. */
  lemma HexaExamples()
    ensures InHexa("dram_tpr0") && InHexa("lcd_gamma_tbl_255") && InHexa("dram") && InHexa("123")
  {
    hide InHexa;
    Joined("dram_tpr", "0", "dram_tpr0");
    Joined("lcd_gamma_tbl_", "255", "lcd_gamma_tbl_255");
    Joined("dram", "", "dram");
    Joined("", "123", "123");
  }

  /** Names printed in decimal. */
  lemma DecimalExamples()
    ensures !InHexa("dram_clk") && !InHexa("vol")
  {
    hide InHexa, BeginsListed;
    Initials("dram_clk");
    Initials("vol");
    Joined("dram_clk", "", "dram_clk");
    Joined("vol", "", "vol");
  }

  /** What the listed names have for their first and sixth characters. */
  lemma Initials(stem: Text)
    ensures BeginsListed(stem) && stem != [] ==> stem[0] in {'d', 'g', 'r', 'c', 't', 'l'}
    ensures BeginsListed(stem) && |stem| > 5 && stem[0] == 'd' ==> stem[5] in {'b', 'z', 't', 'e'}
  {}

  lemma Joined(stem: Text, digits: Text, name: Text)
    requires name == stem + digits && DecimalDigits(digits) && (stem != [] ==> !IsDigit(stem[|stem| - 1]))
    ensures InHexa(name) <==> BeginsListed(stem)
  {
    HexaIff(stem, digits);
  }

  // ----- GPIO values

  const LETTERS: string := "ABCDEFGHIJKLMNOPQRSTUVWXYZ"

  /** A pin: the word power, or P and the bank's letter and a number of at least two digits. */
  lemma PinNotation(port: u32, num: u32)
    ensures port == 0xFFFF ==> PinText(port, num) == "power" + Digits(num, 10)
    ensures 1 <= port <= 26 ==>
              var v := PinText(port, num);
              && |v| >= 4 && v[0] == 'P' && v[1] == LETTERS[port - 1] && DecimalDigits(v[2..]) && NumberOf(v[2..], 10) == num
              && (v[2] == '0' ==> |v| == 4)
  {
    hide Digits, NumberOf;
    DigitsAre(num, 10);
    if 1 <= port <= 26 {
      var v := PinText(port, num);
      assert v[2..] == Padded(num);
      BankLetters(port);
      PaddedIs(num);
    }
  }

  lemma BankLetters(port: u32)
    requires 1 <= port <= 26
    ensures BankLetter(port) == LETTERS[port - 1]
  {}

  lemma PaddedIs(num: nat)
    ensures |Padded(num)| >= 2 && DecimalDigits(Padded(num)) && NumberOf(Padded(num), 10) == num
    ensures Padded(num)[0] == '0' ==> |Padded(num)| == 2
  {
    DigitsAre(num, 10);
    if num < 10 {
      assert Padded(num) == ['0', DigitChar(num)];
      assert Padded(num)[..1] == ['0'] && ['0'][..0] == [];
      assert NumberOf(['0'], 10) == NumberOf([], 10) * 10 + DigitVal('0');
    } else {
      assert Digits(num, 10) == Digits(num / 10, 10) + [DigitChar(num % 10)];
    }
  }

  /** A setting: the word default for -1, else the number. */
  lemma SettingNotation(d: i32)
    ensures d == -1 ==> SettingText(d) == "<default>"
    ensures d >= 0 ==> SettingText(d) == "<" + Digits(d, 10) + ">"
    ensures var x: int := d; x < -1 ==> SettingText(d) == "<-" + Digits(-x, 10) + ">"
  {
    hide Digits;
  }

  // ----- lines

  /** One line per entry. */
  lemma LineNotation(e: Entry)
    ensures e.value.Null? ==> EntryLine(e) == e.name + " ="
    ensures e.value.Single? ==> EntryLine(e) == e.name + " = " + SingleText(InHexa(e.name), e.value.value)
    ensures e.value.Str? ==> EntryLine(e) == e.name + " = \"" + e.value.s + "\""
    ensures e.value.Gpio? ==>
              var d := e.value.data;
              EntryLine(e) == e.name + " = port:" + PinText(e.value.port, e.value.num)
                              + SettingText(d[0]) + SettingText(d[1]) + SettingText(d[2]) + SettingText(d[3])
  {
    hide InHexa, SingleText, PinText, SettingText, SettingsText;
    if e.value.Gpio? {
      JoinGpio(e);
      FourSettings(e.value.data);
    }
  }

  lemma FourSettings(d: Four)
    ensures SettingsText(d, 0) == SettingText(d[0]) + SettingText(d[1]) + SettingText(d[2]) + SettingText(d[3])
  {
    hide SettingText, SettingsText;
    SettingsNext(d, 0);
    SettingsNext(d, 1);
    SettingsNext(d, 2);
    SettingsNext(d, 3);
    NoSettings(d);
  }

  /** The bracketed name, a line for each entry, an empty line. */
  lemma SectionNotation(t: Tree, j: nat)
    requires j < |t|
    ensures FexText(t, j) == "[" + t[j].name + "]\n" + EntryLines(t[j].entries, 0) + "\n" + FexText(t, j + 1)
    ensures FexText(t, |t|) == []
  {
    SectionNext(t, j);
    TextEnd(t);
    hide EntryLines, FexText;
  }

  lemma EntryNotation(es: seq<Entry>, c: nat)
    requires c <= |es|
    ensures EntryLines(es, c) == if c == |es| then [] else EntryLine(es[c]) + "\n" + EntryLines(es, c + 1)
  {}
}
