/**
  Python's `str(n)` and `int(text)` on integers. The store writes numbers as
  the decimal string `str(n)` under the `N` tag and reads them back with
  `int(...)`; the callback-data codec does the same for its int fields.
 */
module Decimal {
  import opened Wrappers

  predicate IsDigit(c: char) {
    '0' <= c <= '9'
  }

  function DigitChar(d: nat): (c: char)
    requires d < 10
    ensures IsDigit(c) && c as int - '0' as int == d
  {
    "0123456789"[d]
  }

  function DigitValue(c: char): nat
    requires IsDigit(c)
  {
    c as int - '0' as int
  }

  /** `str(n)` for n >= 0: base 10 without leading zeros. */
  function NatToString(n: nat): (s: string)
    ensures |s| > 0
    ensures forall i | 0 <= i < |s| :: IsDigit(s[i])
    ensures s[0] == '0' ==> n == 0
    decreases n
  {
    if n < 10 then [DigitChar(n)] else NatToString(n / 10) + [DigitChar(n % 10)]
  }

  /** `str(n)`: negative numbers keep a leading `-`. */
  function IntToString(n: int): (s: string)
    ensures |s| > 0 && IsDigit(s[|s| - 1])
    ensures forall i | 0 <= i < |s| :: IsDigit(s[i]) || (i == 0 && s[i] == '-')
    ensures s[0] == '-' <==> n < 0
  {
    if n < 0 then "-" + NatToString(-n) else NatToString(n)
  }

  /**
    The ASCII characters `int()` strips around a literal: tab, newline,
    vertical tab, form feed, carriage return and space. The separators
    `\x1c`-`\x1f` count for `str.isspace` but are not stripped.
   */
  predicate IsSpace(c: char) {
    c == ' ' || 9 <= c as int <= 13
  }

  function TrimLeft(s: string): string
    decreases |s|
  {
    if |s| > 0 && IsSpace(s[0]) then TrimLeft(s[1..]) else s
  }

  function TrimRight(s: string): string
    decreases |s|
  {
    if |s| > 0 && IsSpace(s[|s| - 1]) then TrimRight(s[..|s| - 1]) else s
  }

  function Trim(s: string): string {
    TrimRight(TrimLeft(s))
  }

  /**
    Digits in groups separated by single underscores, as `int()` accepts them:
    a digit, then the rest of the run, optionally after one underscore.
   */
  predicate IsDigitRun(s: string)
    decreases |s|
  {
    && |s| > 0
    && IsDigit(s[0])
    && (|s| == 1 || if s[1] == '_' then IsDigitRun(s[2..]) else IsDigitRun(s[1..]))
  }

  /** The value of the digits of `s`, underscores ignored. */
  function DigitsValue(s: string): nat
    decreases |s|
  {
    if |s| == 0 then 0
    else if IsDigit(s[|s| - 1]) then 10 * DigitsValue(s[..|s| - 1]) + DigitValue(s[|s| - 1])
    else DigitsValue(s[..|s| - 1])
  }

  /** Whether a trimmed literal carries a sign character. */
  predicate HasSign(t: string) {
    |t| > 0 && (t[0] == '-' || t[0] == '+')
  }

  /** The trimmed literal without its sign. */
  function Unsigned(t: string): string {
    if HasSign(t) then t[1..] else t
  }

  /** `int(text)` for base 10: surrounding spaces, an optional sign, a digit run. */
  function ParseInt(text: string): (r: Result<int>)
    ensures r.Err? ==> r.error == ValueError(text)
  {
    var t := Trim(text);
    var body := Unsigned(t);
    if IsDigitRun(body) then
      var magnitude: int := DigitsValue(body);
      Ok(if t[0] == '-' then -magnitude else magnitude)
    else
      Err(ValueError(text))
  }

  lemma {:induction false} NatToStringValue(n: nat)
    ensures DigitsValue(NatToString(n)) == n
    decreases n
  {
    var s := NatToString(n);
    if n >= 10 {
      NatToStringValue(n / 10);
      assert s[..|s| - 1] == NatToString(n / 10);
    }
  }

  /** A text that neither starts nor ends with a space is not trimmed. */
  lemma TrimUnspaced(s: string)
    requires |s| > 0 && !IsSpace(s[0]) && !IsSpace(s[|s| - 1])
    ensures Trim(s) == s
  {
  }

  /** A non-empty string of digits is a digit run. */
  lemma {:induction false} DigitsAreRun(s: string)
    requires |s| > 0 && forall i | 0 <= i < |s| :: IsDigit(s[i])
    ensures IsDigitRun(s)
    decreases |s|
  {
    if |s| > 1 {
      assert forall i | 0 <= i < |s| - 1 :: s[1..][i] == s[i + 1];
      DigitsAreRun(s[1..]);
    }
  }

  lemma NatToStringIsDigitRun(n: nat)
    ensures IsDigitRun(NatToString(n))
  {
    DigitsAreRun(NatToString(n));
  }

  /** `int(str(n)) == n` for every integer, negatives included. */
  lemma ParseIntToString(n: int)
    ensures ParseInt(IntToString(n)) == Ok(n)
  {
    var s := IntToString(n);
    TrimUnspaced(s);
    var m: nat := if n < 0 then -n else n;
    NatToStringValue(m);
    NatToStringIsDigitRun(m);
    if n < 0 {
      assert s[1..] == NatToString(m);
    } else {
      assert s == NatToString(m);
    }
  }

  /** Distinct integers render to distinct strings. */
  lemma IntToStringInjective(a: int, b: int)
    requires IntToString(a) == IntToString(b)
    ensures a == b
  {
    ParseIntToString(a);
    ParseIntToString(b);
  }

  /** `int(" 5\t")` is 5, but `int("\x1c5")` raises ValueError: only the ASCII blanks are stripped. */
  lemma StrippedSpaces()
    ensures ParseInt(" 5\t") == Ok(5)
    ensures ParseInt([28 as char, '5']) == Err(ValueError([28 as char, '5']))
  {
    var padded := " 5\t";
    assert padded[1..] == "5\t" && IsSpace(padded[0]);
    assert "5\t"[..1] == "5" && IsSpace("5\t"[1]);
    assert TrimLeft(padded) == "5\t";
    assert TrimRight("5\t") == "5";
    assert DigitsValue("5") == 5;
    var sep := [28 as char, '5'];
    assert !IsSpace(sep[0]) && !IsSpace(sep[1]) && !IsDigit(sep[0]);
    TrimUnspaced(sep);
    assert Unsigned(sep) == sep && !IsDigitRun(sep);
  }
}
