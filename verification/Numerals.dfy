/** Python's `int` on text, in base 10 and 16, and the numerals that senders write. */
module Numerals {
  import opened Options
  import opened Text

  function DigitValue(c: char): (d: int)
    ensures -1 <= d < 16
  {
    if '0' <= c <= '9' then c as int - '0' as int
    else if 'a' <= c <= 'f' then c as int - 'a' as int + 10
    else if 'A' <= c <= 'F' then c as int - 'A' as int + 10
    else -1
  }

  predicate IsDigit(c: char, radix: nat) {
    0 <= DigitValue(c) < radix
  }

  /** Drops the last digit, and the underscore before it if there is one. */
  function DropDigit(s: string): (t: string)
    requires s != ""
    ensures |t| < |s|
  {
    if |s| >= 2 && s[|s| - 2] == '_' then s[..|s| - 2] else s[..|s| - 1]
  }

  /** Digits with single underscores between them. */
  predicate IsNumeral(s: string, radix: nat) {
    s != "" && IsDigit(s[|s| - 1], radix) && (|s| == 1 || IsNumeral(DropDigit(s), radix))
  }

  function Times(a: nat, b: nat): nat {
    a * b
  }

  function NumeralValue(s: string, radix: nat): (n: int)
    requires IsNumeral(s, radix)
    ensures n >= 0
  {
    (if |s| == 1 then 0 else Times(NumeralValue(DropDigit(s), radix), radix)) + DigitValue(s[|s| - 1])
  }

  function DigitCount(s: string): (n: nat)
    ensures n <= |s|
  {
    if s == "" then 0 else DigitCount(s[..|s| - 1]) + (if s[|s| - 1] == '_' then 0 else 1)
  }

  /** Past this many digits `int` refuses a decimal numeral (sys.int_info.default_max_str_digits). */
  const MAX_DECIMAL_DIGITS := 4300

  predicate Signed(s: string) {
    s != "" && (s[0] == '-' || s[0] == '+')
  }

  predicate HexPrefixed(s: string) {
    |s| >= 2 && s[0] == '0' && (s[1] == 'x' || s[1] == 'X')
  }

  /** `int(s, 16)` of stripped text: a sign, the prefix 0x with one underscore after it,
      and underscores between digits are all accepted; None stands for ValueError. */
  function ParseHex(s: string): Option<int> {
    var unsigned := if Signed(s) then s[1..] else s;
    var digits :=
      if !HexPrefixed(unsigned) then unsigned
      else if |unsigned| > 2 && unsigned[2] == '_' then unsigned[3..]
      else unsigned[2..];
    if !IsNumeral(digits, 16) then None
    else if s[0] == '-' then Some(-NumeralValue(digits, 16))
    else Some(NumeralValue(digits, 16))
  }

  /** `int(s)` of stripped text. */
  function ParseDecimal(s: string): Option<int> {
    var digits := if Signed(s) then s[1..] else s;
    if !IsNumeral(digits, 10) || DigitCount(digits) > MAX_DECIMAL_DIGITS then None
    else if s[0] == '-' then Some(-NumeralValue(digits, 10))
    else Some(NumeralValue(digits, 10))
  }

  // ---- hexadecimal numerals, as a sender writes them ----

  function HexDigit(d: nat): (c: char)
    requires d < 16
    ensures IsDigit(c, 16) && DigitValue(c) == d && c != '_'
    ensures !IsByteSpace(c) && c != ';' && c != '\r'
  {
    "0123456789abcdef"[d]
  }

  function HexOf(n: nat): (s: string)
    ensures s != ""
    ensures forall i | 0 <= i < |s| :: IsDigit(s[i], 16)
  {
    if n < 16 then [HexDigit(n)] else HexOf(n / 16) + [HexDigit(n % 16)]
  }

  lemma {:induction false} HexOfValue(n: nat)
    ensures IsNumeral(HexOf(n), 16) && NumeralValue(HexOf(n), 16) == n
  {
    if n >= 16 {
      HexOfValue(n / 16);
      assert DropDigit(HexOf(n)) == HexOf(n / 16);
    }
  }

  /** Reading back what HexOf prints. */
  lemma ParseHexOf(n: nat)
    ensures ParseHex(HexOf(n)) == Some(n)
  {
    HexOfValue(n);
    assert forall i | 0 <= i < |HexOf(n)| :: HexOf(n)[i] != '_' && HexOf(n)[i] != 'x' && HexOf(n)[i] != 'X';
  }

  // ---- decimal numerals ----

  function DecimalOf(n: nat): (s: string)
    ensures s != ""
  {
    if n < 10 then [HexDigit(n)] else DecimalOf(n / 10) + [HexDigit(n % 10)]
  }

  lemma {:induction false} DecimalDigits(n: nat)
    ensures forall i | 0 <= i < |DecimalOf(n)| :: '0' <= DecimalOf(n)[i] <= '9'
  {
    if n >= 10 {
      DecimalDigits(n / 10);
    }
  }

  lemma {:induction false} DecimalValue(n: nat)
    ensures IsNumeral(DecimalOf(n), 10) && NumeralValue(DecimalOf(n), 10) == n
  {
    hide HexDigit, DigitValue;
    if n >= 10 {
      DecimalDigits(n / 10);
      DecimalValue(n / 10);
      var front := DecimalOf(n / 10);
      assert !('0' <= '_' <= '9') && front[|front| - 1] != '_';
      assert DropDigit(DecimalOf(n)) == front;
    }
  }

  function Power10(k: nat): nat {
    if k == 0 then 1 else 10 * Power10(k - 1)
  }

  lemma {:induction false} DecimalLength(n: nat, k: nat)
    requires n < Power10(k) && k > 0
    ensures |DecimalOf(n)| <= k
  {
    if n >= 10 {
      DecimalLength(n / 10, k - 1);
    }
  }

  lemma {:induction false} PlainDigitCount(s: string)
    requires '_' !in s
    ensures DigitCount(s) == |s|
  {
    if s != "" {
      PlainDigitCount(s[..|s| - 1]);
    }
  }

  /** Reading back what DecimalOf prints, with and without a sign; past 4300 digits it is refused. */
  lemma ParseDecimalOf(n: nat)
    ensures ParseDecimal(DecimalOf(n)) == if |DecimalOf(n)| <= 4300 then Some(n) else None
    ensures ParseDecimal("+" + DecimalOf(n)) == if |DecimalOf(n)| <= 4300 then Some(n) else None
    ensures var m: int := n;
            ParseDecimal("-" + DecimalOf(n)) == if |DecimalOf(n)| <= 4300 then Some(-m) else None
  {
    hide DecimalOf, IsNumeral, NumeralValue, DigitCount;
    var s := DecimalOf(n);
    DecimalDigits(n);
    DecimalValue(n);
    PlainDigitCount(s);
    assert '0' <= s[0] <= '9';
    assert ("+" + s)[1..] == s && ("-" + s)[1..] == s;
  }

  // ---- what is read, and what is refused ----

  predicate AllDigits(s: string, radix: nat) {
    s != "" && forall i | 0 <= i < |s| :: IsDigit(s[i], radix)
  }

  /** The number that digits stand for, place by place. */
  function PlaceValue(s: string, radix: nat): (n: int)
    requires forall i | 0 <= i < |s| :: IsDigit(s[i], radix)
    ensures n >= 0
  {
    if s == "" then 0
    else
      assert IsDigit(s[|s| - 1], radix);
      Times(PlaceValue(s[..|s| - 1], radix), radix) + DigitValue(s[|s| - 1])
  }

  lemma {:induction false} DigitsAreNumeral(s: string, radix: nat)
    requires AllDigits(s, radix)
    ensures IsNumeral(s, radix) && NumeralValue(s, radix) == PlaceValue(s, radix)
    decreases |s|
  {
    if |s| > 1 {
      assert IsDigit(s[|s| - 2], radix);
      assert DropDigit(s) == s[..|s| - 1];
      DigitsAreNumeral(s[..|s| - 1], radix);
    } else {
      assert PlaceValue(s[..0], radix) == 0;
    }
  }

  /** Both cases of a hexadecimal digit have one value. */
  lemma DigitValueOfCase(c: char)
    ensures DigitValue(LowerChar(c)) == DigitValue(UpperChar(c)) == DigitValue(c)
  {
  }

  lemma Unprefixed(digits: string)
    requires AllDigits(digits, 16)
    ensures !Signed(digits) && !HexPrefixed(digits) && digits[0] != '_'
  {
    assert IsDigit(digits[0], 16) && (|digits| > 1 ==> IsDigit(digits[1], 16));
  }

  /** Digits are read as the number they stand for, and with a sign. */
  lemma ParseHexForms(digits: string)
    requires AllDigits(digits, 16)
    ensures var n := PlaceValue(digits, 16);
            ParseHex(digits) == ParseHex("+" + digits) == Some(n) && ParseHex("-" + digits) == Some(-n)
  {
    hide IsNumeral, NumeralValue, PlaceValue, HexPrefixed, IsDigit;
    DigitsAreNumeral(digits, 16);
    Unprefixed(digits);
    assert ("+" + digits)[1..] == digits && ("-" + digits)[1..] == digits;
  }

  /** Likewise behind the prefix 0x. */
  lemma ParseHexPrefixed(digits: string)
    requires AllDigits(digits, 16)
    ensures var n := PlaceValue(digits, 16);
            && ParseHex("0x" + digits) == ParseHex("0X" + digits) == ParseHex("0x_" + digits) == Some(n)
            && ParseHex("-0x" + digits) == Some(-n)
  {
    hide IsNumeral, NumeralValue, PlaceValue, IsDigit;
    DigitsAreNumeral(digits, 16);
    Unprefixed(digits);
    assert ("0x" + digits)[2..] == digits && ("0X" + digits)[2..] == digits && ("0x_" + digits)[3..] == digits;
    assert ("-0x" + digits)[1..] == "0x" + digits;
  }

  /** Single underscores between digits change nothing. */
  lemma {:induction false} UnderscoreIgnored(a: string, b: string, radix: nat)
    requires AllDigits(a, radix) && AllDigits(b, radix)
    ensures IsNumeral(a + "_" + b, radix) && NumeralValue(a + "_" + b, radix) == PlaceValue(a + b, radix)
    decreases |b|
  {
    var s, n := a + "_" + b, |b| - 1;
    assert (a + b)[..|a + b| - 1] == a + b[..n];
    if n == 0 {
      assert DropDigit(s) == a && a + b[..0] == a;
      DigitsAreNumeral(a, radix);
    } else {
      assert IsDigit(b[n - 1], radix) && s[|s| - 2] == b[n - 1];
      assert DropDigit(s) == a + "_" + b[..n];
      UnderscoreIgnored(a, b[..n], radix);
    }
  }

  /** Two underscores in a row make no numeral. */
  lemma {:induction false} DoubleUnderscoreRefused(a: string, b: string, radix: nat)
    requires AllDigits(b, radix)
    ensures !IsNumeral(a + "__" + b, radix)
    decreases |b|
  {
    var s, n := a + "__" + b, |b| - 1;
    if n == 0 {
      assert DropDigit(s) == a + "_";
      assert !IsNumeral(a + "_", radix);
    } else {
      assert IsDigit(b[n - 1], radix) && s[|s| - 2] == b[n - 1];
      assert DropDigit(s) == a + "__" + b[..n];
      DoubleUnderscoreRefused(a, b[..n], radix);
    }
  }

  /** A numeral holds digits and underscores only, and neither starts nor ends with an underscore. */
  lemma {:induction false} NumeralHolds(s: string, radix: nat)
    requires IsNumeral(s, radix)
    ensures IsDigit(s[0], radix) && IsDigit(s[|s| - 1], radix)
    ensures forall i | 0 <= i < |s| :: IsDigit(s[i], radix) || s[i] == '_'
    decreases |s|
  {
    if |s| > 1 {
      NumeralHolds(DropDigit(s), radix);
    }
  }

  /** Text with a character that belongs to no number is refused; so is text with no digit behind sign and prefix. */
  lemma OthersAreRefused(s: string, i: nat)
    requires i < |s| && !IsDigit(s[i], 16) && s[i] !in {'_', '+', '-', 'x', 'X'}
    ensures ParseHex(s) == None && ParseDecimal(s) == None
  {
    hide IsNumeral, NumeralValue;
    var unsigned := if Signed(s) then s[1..] else s;
    var k := if Signed(s) then i - 1 else i;
    assert unsigned[k] == s[i];
    if IsNumeral(unsigned, 10) {
      NumeralHolds(unsigned, 10);
    }
    if IsNumeral(unsigned, 16) {
      NumeralHolds(unsigned, 16);
    }
    if HexPrefixed(unsigned) {
      var from := if |unsigned| > 2 && unsigned[2] == '_' then 3 else 2;
      assert k >= from;
      assert unsigned[from..][k - from] == unsigned[k];
      if IsNumeral(unsigned[from..], 16) {
        NumeralHolds(unsigned[from..], 16);
      }
    }
  }

  lemma EmptyIsRefused()
    ensures ParseHex("") == ParseHex("-") == ParseHex("0x") == None && ParseDecimal("") == ParseDecimal("+") == None
  {
  }
}
