/** PHP's conversions between integers and decimal strings. */
module PhpInt {

  predicate IsDigit(c: char) {
    '0' <= c <= '9'
  }

  predicate AllDigits(s: string) {
    forall k :: 0 <= k < |s| ==> IsDigit(s[k])
  }

  function DigitChar(d: nat): (c: char)
    requires d < 10
    ensures IsDigit(c) && DigitValue(c) == d
  {
    (('0' as int) + d) as char
  }

  /** The value of a digit character; 0 for anything else. */
  function DigitValue(c: char): nat {
    if IsDigit(c) then (c as int) - ('0' as int) else 0
  }

  /** The decimal digits of a natural number, without leading zeros. */
  function NatToDecimal(n: nat): (s: string)
    ensures |s| > 0 && AllDigits(s)
    decreases n
  {
    if n < 10 then [DigitChar(n)] else NatToDecimal(n / 10) + [DigitChar(n % 10)]
  }

  /** The string PHP's `.` makes of an integer. */
  function IntToDecimal(n: int): string {
    if n < 0 then "-" + NatToDecimal(-n) else NatToDecimal(n)
  }

  /** The whitespace PHP skips before a number: space, tab, newline, return, vertical tab, form feed. */
  predicate IsWhitespace(c: char) {
    c == ' ' || c == '\t' || c == '\n' || c == '\r' || c as int == 11 || c as int == 12
  }

  function SkipWhitespace(s: string): string {
    if |s| > 0 && IsWhitespace(s[0]) then SkipWhitespace(s[1..]) else s
  }

  /** The longest prefix of `s` made of digits. */
  function LeadingDigits(s: string): string {
    if |s| > 0 && IsDigit(s[0]) then [s[0]] + LeadingDigits(s[1..]) else []
  }

  /** The number a string of digits spells in decimal. */
  function DigitsValue(ds: string): nat {
    if |ds| == 0 then 0 else DigitsValue(ds[..|ds| - 1]) * 10 + DigitValue(ds[|ds| - 1])
  }

  /** PHP's `(int)` cast of a string: skip leading whitespace, take an optional
      sign and then the longest run of digits; no digits give 0. */
  function IntCast(s: string): int {
    var t := SkipWhitespace(s);
    if |t| > 0 && (t[0] == '-' || t[0] == '+') then
      var magnitude: int := DigitsValue(LeadingDigits(t[1..]));
      if t[0] == '-' then -magnitude else magnitude
    else
      DigitsValue(LeadingDigits(t))
  }

  lemma {:induction false} DigitsValueOfDecimal(n: nat)
    ensures DigitsValue(NatToDecimal(n)) == n
    decreases n
  {
    if n >= 10 {
      var s := NatToDecimal(n);
      assert s[..|s| - 1] == NatToDecimal(n / 10);
      DigitsValueOfDecimal(n / 10);
    }
  }

  lemma {:induction false} LeadingDigitsOfDigits(ds: string)
    requires AllDigits(ds)
    ensures LeadingDigits(ds) == ds
  {
    if |ds| > 0 {
      LeadingDigitsOfDigits(ds[1..]);
      assert ds == [ds[0]] + ds[1..];
    }
  }

  lemma SkipWhitespaceAtDigitOrSign(s: string)
    requires |s| > 0 && (IsDigit(s[0]) || s[0] == '-')
    ensures SkipWhitespace(s) == s
  {
    assert !IsWhitespace(s[0]);
  }

  /** A run of digits casts to the number it spells. */
  lemma IntCastOfDigits(ds: string)
    requires |ds| > 0 && AllDigits(ds)
    ensures IntCast(ds) == DigitsValue(ds)
  {
    LeadingDigitsOfDigits(ds);
    SkipWhitespaceAtDigitOrSign(ds);
  }

  /** A minus sign and a run of digits cast to the negated number. */
  lemma IntCastOfNegatedDigits(ds: string)
    requires AllDigits(ds)
    ensures IntCast("-" + ds) == -(DigitsValue(ds) as int)
  {
    var neg := "-" + ds;
    LeadingDigitsOfDigits(ds);
    SkipWhitespaceAtDigitOrSign(neg);
    assert neg[1..] == ds;
  }

  /** Casting the decimal string of any integer gives the integer back. */
  lemma IntCastOfDecimal(n: int)
    ensures IntCast(IntToDecimal(n)) == n
  {
    var m: nat := if n < 0 then -n else n;
    DigitsValueOfDecimal(m);
    if n < 0 {
      IntCastOfNegatedDigits(NatToDecimal(m));
    } else {
      IntCastOfDigits(NatToDecimal(m));
    }
  }
}
