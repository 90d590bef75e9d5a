/**
 The characters and numbers of the fex text format, and the C library's number
 scanner as far as the parser relies on it.
 */
module FexLexer {
  import opened Script

  /** The character at `p`; a line ends with a zero character. */
  function At(v: Text, p: nat): c8 {
    if p < |v| then v[p] else '\0'
  }

  predicate IsBlank(c: c8) {
    c == ' ' || c == '\t'
  }

  predicate IsSpace(c: c8) {
    c == ' ' || 9 <= c as int <= 13
  }

  predicate IsDigit(c: c8) {
    '0' <= c <= '9'
  }

  predicate IsKeyChar(c: c8) {
    IsDigit(c) || 'A' <= c <= 'Z' || 'a' <= c <= 'z' || c == '_' || c == '-'
  }

  /** Characters of a section name. */
  predicate IsPathChar(c: c8) {
    IsKeyChar(c) || c == '/'
  }

  /** The value of a digit, 16 for every other character. */
  function DigitVal(c: c8): (d: nat)
    ensures d <= 16
  {
    if '0' <= c <= '9' then c as int - '0' as int
    else if 'a' <= c <= 'f' then c as int - 'a' as int + 10
    else if 'A' <= c <= 'F' then c as int - 'A' as int + 10
    else 16
  }

  function DigitChar(d: nat): (c: c8)
    requires d < 16
    ensures DigitVal(c) == d
    ensures d < 10 ==> IsDigit(c)
    ensures IsKeyChar(c) && (c == '0' <==> d == 0)
  {
    if d < 10 then ('0' as int + d) as char else ('a' as int + d - 10) as char
  }

  /** A number in base ten or sixteen, without leading zeros. */
  function Digits(n: nat, b: nat): (t: Text)
    requires b == 10 || b == 16
    ensures |t| > 0
    ensures forall i :: 0 <= i < |t| ==> DigitVal(t[i]) < b && IsKeyChar(t[i])
    ensures t[0] == '0' <==> n == 0
    ensures b == 10 ==> forall i :: 0 <= i < |t| ==> IsDigit(t[i])
    decreases n
  {
    if n < b then [DigitChar(n)] else Digits(n / b, b) + [DigitChar(n % b)]
  }

  /** At most ten decimal or eight hexadecimal digits for a 32-bit number. */
  lemma {:induction false} DigitsLength(n: nat, b: nat, k: nat, top: nat)
    requires (b == 10 || b == 16) && k > 0 && n < top && top == Power(b, k)
    ensures |Digits(n, b)| <= k
    decreases k
  {
    if n >= b { DigitsLength(n / b, b, k - 1, Power(b, k - 1)); }
  }

  function Power(b: nat, k: nat): nat
    requires b == 10 || b == 16
  {
    if k == 0 then 1 else if b == 10 then 10 * Power(b, k - 1) else 16 * Power(b, k - 1)
  }

  /** Scan digits of base `b` from `p`: the number and where it ends. */
  function ScanDigits(v: Text, p: nat, b: nat, acc: nat): (r: (nat, nat))
    requires p <= |v|
    ensures p <= r.1 <= |v|
    decreases |v| - p
  {
    if p < |v| && DigitVal(v[p]) < b then ScanDigits(v, p + 1, b, acc * b + DigitVal(v[p])) else (acc, p)
  }

  lemma ScanOne(v: Text, p: nat, b: nat, acc: nat)
    requires p < |v| && DigitVal(v[p]) < b
    ensures ScanDigits(v, p, b, acc) == ScanDigits(v, p + 1, b, acc * b + DigitVal(v[p]))
  {}

  /** Printed digits scan back to the number. */
  lemma {:induction false} ScanBack(v: Text, p: nat, n: nat, b: nat)
    requires (b == 10 || b == 16) && p + |Digits(n, b)| <= |v|
    requires v[p..p + |Digits(n, b)|] == Digits(n, b)
    ensures ScanDigits(v, p, b, 0) == ScanDigits(v, p + |Digits(n, b)|, b, n)
    decreases n
  {
    hide ScanDigits, DigitVal, DigitChar;
    var t := Digits(n, b);
    var q := p + |t| - 1;
    assert v[q] == t[|t| - 1];
    if n < b {
      ScanOne(v, p, b, 0);
    } else {
      var s := Digits(n / b, b);
      assert v[p..p + |s|] == t[..|s|];
      ScanBack(v, p, n / b, b);
      ScanOne(v, q, b, n / b);
      assert n / b * b + n % b == n by { if b == 10 {} else {} }
    }
  }

  lemma ScanStops(v: Text, p: nat, b: nat, acc: nat)
    requires p <= |v| && DigitVal(At(v, p)) >= b && b <= 16
    ensures ScanDigits(v, p, b, acc) == (acc, p)
  {}

  function SpaceEnd(v: Text, p: nat): (q: nat)
    requires p <= |v|
    ensures p <= q <= |v|
    decreases |v| - p
  {
    if p < |v| && IsSpace(v[p]) then SpaceEnd(v, p + 1) else p
  }

  const LONG_MAX: int := 0x7FFF_FFFF_FFFF_FFFF

  function Clamped(x: int): int {
    if x > LONG_MAX then LONG_MAX else if x < -LONG_MAX - 1 then -LONG_MAX - 1 else x
  }

  /** `strtol` and `strtoll` in base 10, or with the base taken from the prefix when `base` is 0. */
  function Strtol(v: Text, p: nat, base: nat): (r: (int, nat))
    requires p <= |v| && (base == 0 || base == 10)
    ensures p <= r.1 <= |v|
  {
    var q := SpaceEnd(v, p);
    var neg := At(v, q) == '-';
    var s := if neg || At(v, q) == '+' then q + 1 else q;
    var hex := base == 0 && At(v, s) == '0' && (At(v, s + 1) == 'x' || At(v, s + 1) == 'X') && DigitVal(At(v, s + 2)) < 16;
    var b := if hex then 16 else if base == 0 && At(v, s) == '0' then 8 else 10;
    var from := if hex then s + 2 else s;
    var (n, end) := ScanDigits(v, from, b, 0);
    var x: int := n;
    if end == from then (0, p) else (Clamped(if neg then -x else x), end)
  }

  /** Decimal digits without sign in front. */
  lemma StrtolDecimal(v: Text, p: nat, n: nat)
    requires p + |Digits(n, 10)| <= |v| && v[p..p + |Digits(n, 10)|] == Digits(n, 10) && n <= LONG_MAX
    requires !IsDigit(At(v, p + |Digits(n, 10)|))
    ensures Strtol(v, p, 10) == (n, p + |Digits(n, 10)|)
  {
    hide Digits, ScanDigits;
    var d := Digits(n, 10);
    assert v[p] == d[0];
    assert SpaceEnd(v, p) == p;
    ScanBack(v, p, n, 10);
    assert DigitVal(At(v, p + |d|)) >= 10;
    ScanStops(v, p + |d|, 10, n);
  }

  /** A leading zero changes nothing in base ten. */
  lemma StrtolPadded(v: Text, p: nat, n: nat)
    requires p + 1 + |Digits(n, 10)| <= |v| && v[p] == '0' && n <= LONG_MAX
    requires v[p + 1..p + 1 + |Digits(n, 10)|] == Digits(n, 10)
    requires !IsDigit(At(v, p + 1 + |Digits(n, 10)|))
    ensures Strtol(v, p, 10) == (n, p + 1 + |Digits(n, 10)|)
  {
    hide Digits, ScanDigits;
    var d := Digits(n, 10);
    assert SpaceEnd(v, p) == p;
    ScanOne(v, p, 10, 0);
    ScanBack(v, p + 1, n, 10);
    assert DigitVal(At(v, p + 1 + |d|)) >= 10;
    ScanStops(v, p + 1 + |d|, 10, n);
  }

  /** A signed decimal number up to the end of the text, base from the prefix. */
  lemma StrtolSigned(v: Text, x: int)
    requires v == Signed(x) && -LONG_MAX <= x <= LONG_MAX
    ensures Strtol(v, 0, 0) == (x, |v|)
  {
    hide Digits, ScanDigits;
    var n: nat := if x < 0 then -x else x;
    var d, s := Digits(n, 10), if x < 0 then 1 else 0;
    assert SpaceEnd(v, 0) == 0;
    assert v[s..s + |d|] == d && v[s] == d[0] && s + |d| == |v|;
    if n == 0 {
      ZeroDigit();
      ScanOne(v, 0, 8, 0);
      ScanStops(v, 1, 8, 0);
    } else {
      ScanBack(v, s, n, 10);
      ScanStops(v, |v|, 10, n);
    }
  }

  lemma ZeroDigit()
    ensures Digits(0, 10) == ['0']
  {}

  function Signed(x: int): (t: Text)
    ensures |t| > 0 && (IsDigit(t[0]) || (t[0] == '-' && |t| > 1 && IsDigit(t[1])))
    ensures forall i :: 0 <= i < |t| ==> IsKeyChar(t[i])
  {
    if x < 0 then ['-'] + Digits(-x, 10) else Digits(x, 10)
  }

  lemma StrtolHex(v: Text, n: nat)
    requires v == ['0', 'x'] + Digits(n, 16) && n <= LONG_MAX
    ensures Strtol(v, 0, 0) == (n, |v|)
  {
    hide Digits, ScanDigits;
    var d := Digits(n, 16);
    assert SpaceEnd(v, 0) == 0;
    assert v[2..2 + |d|] == d && v[2] == d[0];
    ScanBack(v, 2, n, 16);
    ScanStops(v, |v|, 16, n);
  }
}
