/** Python's conversions between `int` and decimal text: `str(n)` (what an
    f-string such as f"ratings_month_{month}" inserts) and `int(s)` (how the
    month argument is read from the command line). */
module Decimal {
  import opened Wrappers

  predicate IsDigit(c: char) {
    '0' <= c <= '9'
  }

  predicate AllDigits(s: string) {
    forall i :: 0 <= i < |s| ==> IsDigit(s[i])
  }

  function DigitValue(c: char): nat
    requires IsDigit(c)
  {
    c as int - '0' as int
  }

  function DigitChar(d: nat): (c: char)
    requires d < 10
    ensures IsDigit(c) && DigitValue(c) == d
  {
    ('0' as int + d) as char
  }

  /** The decimal numeral of n, most significant digit first, no leading zeros. */
  function NatToString(n: nat): (s: string)
    ensures |s| > 0 && AllDigits(s)
    ensures s[0] == '0' ==> n == 0
  {
    if n < 10 then [DigitChar(n)] else NatToString(n / 10) + [DigitChar(n % 10)]
  }

  /** `str(n)` for a Python int: a minus sign before negative numbers. */
  function IntToString(n: int): (s: string)
    ensures |s| > 0
    ensures s[0] == '-' <==> n < 0
  {
    if n < 0 then "-" + NatToString(-n) else NatToString(n)
  }

  /** The value of a string of decimal digits, read most significant first. */
  function DigitsValue(s: string): nat
    requires AllDigits(s)
  {
    if s == [] then 0 else DigitsValue(s[..|s| - 1]) * 10 + DigitValue(s[|s| - 1])
  }

  lemma {:induction false} DigitsValueOfNatToString(n: nat)
    ensures DigitsValue(NatToString(n)) == n
  {
    if n >= 10 {
      var s := NatToString(n);
      assert s[..|s| - 1] == NatToString(n / 10);
      DigitsValueOfNatToString(n / 10);
    }
  }

  /** The characters below 128 that Python's `str.isspace` accepts: tab, line
      feed, vertical tab, form feed, carriage return, the four separators
      0x1C-0x1F, and space. */
  predicate IsSpace(c: char) {
    9 <= c as int <= 13 || 28 <= c as int <= 32
  }

  function TrimStart(s: string): (r: string)
    ensures r == [] || !IsSpace(r[0])
    ensures |r| <= |s| && r == s[|s| - |r|..]
  {
    if s != [] && IsSpace(s[0]) then TrimStart(s[1..]) else s
  }

  function TrimEnd(s: string): (r: string)
    ensures r == [] || !IsSpace(r[|r| - 1])
    ensures |r| <= |s| && r == s[..|r|]
  {
    if s != [] && IsSpace(s[|s| - 1]) then TrimEnd(s[..|s| - 1]) else s
  }

  /** Python's `str.strip()` restricted to the whitespace above. */
  function Strip(s: string): string {
    TrimEnd(TrimStart(s))
  }

  /** Two underscores in a row start at position i. */
  predicate DoubleUnderscoreAt(s: string, i: nat)
    requires i + 1 < |s|
  {
    s[i] == '_' && s[i + 1] == '_'
  }

  /** The digit part of an integer literal: digits, with single underscores
      allowed only between two digits ("1_000" but not "_1", "1_" or "1__0"). */
  predicate DigitGroups(s: string) {
    && |s| > 0
    && IsDigit(s[0])
    && IsDigit(s[|s| - 1])
    && (forall i :: 0 <= i < |s| ==> IsDigit(s[i]) || s[i] == '_')
    && (forall i :: 0 <= i < |s| - 1 ==> !DoubleUnderscoreAt(s, i))
  }

  function WithoutUnderscores(s: string): (r: string)
    requires forall i :: 0 <= i < |s| ==> IsDigit(s[i]) || s[i] == '_'
    ensures AllDigits(r)
    ensures AllDigits(s) ==> r == s
  {
    if s == [] then []
    else (if s[0] == '_' then [] else [s[0]]) + WithoutUnderscores(s[1..])
  }

  /** CPython's default limit on integer string conversion
      (`sys.get_int_max_str_digits()`): `int` rejects a decimal numeral of more
      digits, and `str` refuses to write a number that needs more. */
  const MaxStrDigits: nat := 4300

  /** The number of decimal digits in s; underscores and signs do not count. */
  function DigitCount(s: string): (n: nat)
    ensures n <= |s|
  {
    if s == [] then 0 else (if IsDigit(s[0]) then 1 else 0) + DigitCount(s[1..])
  }

  function Magnitude(n: int): nat {
    if n < 0 then -n else n
  }

  /** `str(n)` stays within CPython's digit limit. */
  predicate WithinStrLimit(n: int) {
    |NatToString(Magnitude(n))| <= MaxStrDigits
  }

  /** The value of s read as an integer literal (surrounding whitespace, an
      optional sign, digit groups), with no limit on its length. */
  function IntegerLiteral(s: string): Option<int> {
    ParseSigned(Strip(s))
  }

  /** Python's `int(s)`: an integer literal of at most MaxStrDigits digits.
      None stands for the ValueError that `int` raises on anything else. */
  function ParseInt(s: string): (r: Option<int>)
    ensures DigitCount(Strip(s)) > MaxStrDigits ==> r == None
    ensures DigitCount(Strip(s)) <= MaxStrDigits ==> r == IntegerLiteral(s)
  {
    if DigitCount(Strip(s)) <= MaxStrDigits then IntegerLiteral(s) else None
  }

  /** An optional sign followed by digit groups, with nothing around them. */
  function ParseSigned(t: string): Option<int> {
    if t == [] then None
    else
      var negative := t[0] == '-';
      var body := if t[0] == '-' || t[0] == '+' then t[1..] else t;
      if DigitGroups(body) then
        var v: int := DigitsValue(WithoutUnderscores(body));
        Some(if negative then -v else v)
      else None
  }

  lemma StripNoSpace(s: string)
    requires |s| > 0 && !IsSpace(s[0]) && !IsSpace(s[|s| - 1])
    ensures Strip(s) == s
  {
  }

  /** A numeral is a single digit group with no underscore to remove. */
  lemma NumeralIsDigitGroup(s: string)
    requires |s| > 0 && AllDigits(s)
    ensures DigitGroups(s) && WithoutUnderscores(s) == s
  {
  }

  /** An unsigned numeral reads as its value. */
  lemma ParseSignedNumeral(digits: string)
    requires |digits| > 0 && AllDigits(digits)
    ensures ParseSigned(digits) == Some(DigitsValue(digits) as int)
  {
    NumeralIsDigitGroup(digits);
  }

  /** A '-'-signed numeral reads as the negated value. */
  lemma ParseSignedNegativeNumeral(t: string)
    requires |t| > 1 && t[0] == '-' && AllDigits(t[1..])
    ensures ParseSigned(t) == Some(-(DigitsValue(t[1..]) as int))
  {
    NumeralIsDigitGroup(t[1..]);
  }

  /** A string that starts with neither a sign, a digit nor whitespace, and
      does not end in whitespace, is no integer literal. */
  lemma ParseIntRejectsNonNumeral(s: string)
    requires |s| > 0 && !IsSpace(s[0]) && !IsSpace(s[|s| - 1])
    requires !IsDigit(s[0]) && s[0] != '-' && s[0] != '+'
    ensures ParseInt(s) == None
  {
    StripNoSpace(s);
  }

  /** Reading back what `str` wrote, with no length limit, gives the number. */
  lemma IntegerLiteralOfIntToString(n: int)
    ensures IntegerLiteral(IntToString(n)) == Some(n)
  {
    var s := IntToString(n);
    var digits := NatToString(Magnitude(n));
    DigitsValueOfNatToString(Magnitude(n));
    assert !IsSpace(s[0]) && !IsSpace(s[|s| - 1]) by {
      assert s[|s| - 1] == digits[|digits| - 1];
    }
    StripNoSpace(s);
    if n < 0 {
      assert s[1..] == digits;
      ParseSignedNegativeNumeral(s);
    } else {
      ParseSignedNumeral(digits);
    }
  }

  lemma {:induction false} DigitCountOfDigits(s: string)
    requires AllDigits(s)
    ensures DigitCount(s) == |s|
  {
    if s != [] {
      DigitCountOfDigits(s[1..]);
    }
  }

  /** `str(n)` writes as many digits as the numeral of its magnitude. */
  lemma DigitCountOfIntToString(n: int)
    ensures DigitCount(Strip(IntToString(n))) == |NatToString(Magnitude(n))|
  {
    var s := IntToString(n);
    var digits := NatToString(Magnitude(n));
    assert !IsSpace(s[0]) && !IsSpace(s[|s| - 1]) by {
      assert s[|s| - 1] == digits[|digits| - 1];
    }
    StripNoSpace(s);
    DigitCountOfDigits(digits);
    if n < 0 {
      assert s[1..] == digits;
    }
  }

  /** Reading back what `str` wrote gives the number, int(str(n)) == n,
      exactly when its numeral is within the digit limit; beyond it, `int`
      rejects the numeral (and CPython's `str` would not have written it). */
  lemma ParseIntOfIntToString(n: int)
    ensures WithinStrLimit(n) ==> ParseInt(IntToString(n)) == Some(n)
    ensures !WithinStrLimit(n) ==> ParseInt(IntToString(n)) == None
  {
    IntegerLiteralOfIntToString(n);
    DigitCountOfIntToString(n);
  }

  function Pow10(k: nat): (p: nat)
    ensures p >= 1
  {
    if k == 0 then 1 else 10 * Pow10(k - 1)
  }

  lemma {:induction false} DigitsValueBound(s: string)
    requires AllDigits(s)
    ensures DigitsValue(s) < Pow10(|s|)
  {
    if s != [] {
      var init := s[..|s| - 1];
      DigitsValueBound(init);
      var v, d := DigitsValue(init), DigitValue(s[|s| - 1]);
      assert v + 1 <= Pow10(|init|);
      assert v * 10 + 10 <= Pow10(|init|) * 10;
      assert d < 10;
    }
  }

  lemma {:induction false} NatToStringLength(n: nat, k: nat)
    requires k >= 1 && n < Pow10(k)
    ensures |NatToString(n)| <= k
  {
    if n >= 10 {
      assert Pow10(1) == 10;
      assert n / 10 < Pow10(k - 1);
      NatToStringLength(n / 10, k - 1);
    }
  }

  lemma {:induction false} DigitCountOfGroups(s: string)
    requires forall i :: 0 <= i < |s| ==> IsDigit(s[i]) || s[i] == '_'
    ensures DigitCount(s) == |WithoutUnderscores(s)|
  {
    if s != [] {
      DigitCountOfGroups(s[1..]);
    }
  }

  /** A literal's value has a numeral no longer than the literal's digits. */
  lemma ParseSignedLength(t: string)
    requires ParseSigned(t).Some?
    ensures |NatToString(Magnitude(ParseSigned(t).value))| <= DigitCount(t)
  {
    var body := if t[0] == '-' || t[0] == '+' then t[1..] else t;
    assert DigitGroups(body);
    var d := WithoutUnderscores(body);
    assert Magnitude(ParseSigned(t).value) == DigitsValue(d);
    assert DigitCount(t) == DigitCount(body) by {
      if t[0] == '-' || t[0] == '+' {
        assert t == [t[0]] + body;
      }
    }
    DigitCountOfGroups(body);
    assert DigitCount(body) >= 1 by {
      assert IsDigit(body[0]);
    }
    DigitsValueBound(d);
    NatToStringLength(DigitsValue(d), |d|);
  }

  /** Every number `int` returns can be written back by `str`: its numeral
      has no more digits than the literal it was read from. */
  lemma ParseIntWithinStrLimit(s: string)
    requires ParseInt(s).Some?
    ensures WithinStrLimit(ParseInt(s).value)
  {
    ParseSignedLength(Strip(s));
  }

  /** Distinct numbers have distinct numerals. */
  lemma IntToStringInjective(a: int, b: int)
    ensures IntToString(a) == IntToString(b) <==> a == b
  {
    if IntToString(a) == IntToString(b) {
      IntegerLiteralOfIntToString(a);
      IntegerLiteralOfIntToString(b);
    }
  }
}
