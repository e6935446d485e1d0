/**
 * The header conversion `stoi(line)`: base-10 `strtol` on the line, which
 * skips leading white space, takes an optional sign and the longest run of
 * digits after it and ignores the rest; no digit at all, or a value outside
 * the 32-bit `int` range, raises an exception.
 */
module StringToInt {
  import opened Results

  /** The two exceptions `stoi` raises: `invalid_argument` and `out_of_range`. */
  datatype StoIError = InvalidArgument | OutOfRange

  const IntMin: int := -0x8000_0000
  const IntMax: int := 0x7FFF_FFFF

  /** `isspace` in the C locale: blank, tab, newline, vertical tab, form feed, return. */
  predicate IsSpace(ch: char)
  {
    ch == ' ' || '\t' <= ch <= '\r'
  }

  predicate IsDigit(ch: char)
  {
    '0' <= ch <= '9'
  }

  predicate AllDigits(s: string)
  {
    forall i :: 0 <= i < |s| ==> IsDigit(s[i])
  }

  /** What is left once the leading white space is skipped. */
  function SkipSpaces(s: string): (t: string)
    ensures |t| <= |s|
    ensures |t| == 0 || !IsSpace(t[0])
  {
    if |s| > 0 && IsSpace(s[0]) then SkipSpaces(s[1..]) else s
  }

  /** The longest prefix made of digits. */
  function DigitRun(s: string): (d: string)
    ensures d <= s && AllDigits(d)
    ensures |d| == |s| || !IsDigit(s[|d|])
  {
    if |s| > 0 && IsDigit(s[0]) then [s[0]] + DigitRun(s[1..]) else []
  }

  function DigitValue(ch: char): (v: nat)
    requires IsDigit(ch)
    ensures v <= 9
  {
    (ch as int - '0' as int) as nat
  }

  /** The number a string of decimal digits denotes. */
  function Value(d: string): nat
    requires AllDigits(d)
  {
    if |d| == 0 then 0 else Value(d[..|d| - 1]) * 10 + DigitValue(d[|d| - 1])
  }

  /** `stoi(s)`: the value, or the exception it raises. */
  function StoI(s: string): (r: Result<int, StoIError>)
    ensures r.Ok? ==> IntMin <= r.value <= IntMax
  {
    var t := SkipSpaces(s);
    if |t| > 0 && (t[0] == '+' || t[0] == '-') then Convert(t[0] == '-', DigitRun(t[1..]))
    else Convert(false, DigitRun(t))
  }

  /** The value of the digits taken after the optional sign, if there are any and it fits an int. */
  function Convert(negative: bool, d: string): (r: Result<int, StoIError>)
    requires AllDigits(d)
    ensures r.Ok? ==> IntMin <= r.value <= IntMax
  {
    if |d| == 0 then Err(InvalidArgument)
    else
      var v: int := if negative then -(Value(d) as int) else Value(d);
      if v < IntMin || IntMax < v then Err(OutOfRange) else Ok(v)
  }

  function Digit(n: nat): (ch: char)
    requires n <= 9
    ensures IsDigit(ch) && DigitValue(ch) == n
  {
    ('0' as int + n) as char
  }

  /** The shortest decimal numeral of n. */
  function Decimal(n: nat): (s: string)
    ensures |s| > 0 && AllDigits(s)
  {
    if n < 10 then [Digit(n)] else Decimal(n / 10) + [Digit(n % 10)]
  }

  lemma {:induction false} ValueOfDecimal(n: nat)
    ensures Value(Decimal(n)) == n
  {
    if n >= 10 {
      var s := Decimal(n);
      assert s[..|s| - 1] == Decimal(n / 10);
      ValueOfDecimal(n / 10);
    }
  }

  lemma {:induction false} DigitRunOfDigits(d: string, rest: string)
    requires AllDigits(d) && (|rest| == 0 || !IsDigit(rest[0]))
    ensures DigitRun(d + rest) == d
  {
    if |d| > 0 {
      assert (d + rest)[1..] == d[1..] + rest;
      DigitRunOfDigits(d[1..], rest);
    } else {
      assert d + rest == rest;
    }
  }

  /** A run of digits followed by a non-digit converts by its decimal value. */
  lemma StoIOfDigits(d: string, rest: string)
    requires |d| > 0 && AllDigits(d) && (|rest| == 0 || !IsDigit(rest[0]))
    ensures StoI(d + rest) == if Value(d) <= IntMax then Ok(Value(d)) else Err(OutOfRange)
  {
    var s := d + rest;
    assert s[0] == d[0] && !IsSpace(s[0]);
    assert SkipSpaces(s) == s;
    DigitRunOfDigits(d, rest);
    assert !(s[0] == '+' || s[0] == '-');
  }

  /** After a leading minus sign, stoi converts the digits that follow it, negated. */
  lemma StoIAfterMinus(s: string)
    requires |s| > 0 && s[0] == '-'
    ensures StoI(s) == Convert(true, DigitRun(s[1..]))
  {
    assert !IsSpace(s[0]);
    assert SkipSpaces(s) == s;
  }

  /** The same run after a minus sign converts to the negated value. */
  lemma StoIOfNegativeDigits(d: string, rest: string)
    requires |d| > 0 && AllDigits(d) && (|rest| == 0 || !IsDigit(rest[0]))
    ensures StoI(['-'] + (d + rest)) == if Value(d) <= -IntMin then Ok(-(Value(d) as int)) else Err(OutOfRange)
  {
    var s := ['-'] + (d + rest);
    StoIAfterMinus(s);
    assert s[1..] == d + rest;
    DigitRunOfDigits(d, rest);
    assert StoI(s) == Convert(true, d);
    NegativeConversion(d);
  }

  lemma NegativeConversion(d: string)
    requires |d| > 0 && AllDigits(d)
    ensures Convert(true, d) == if Value(d) <= -IntMin then Ok(-(Value(d) as int)) else Err(OutOfRange)
  {
  }

  /**
   * A numeral converts to its value if that is in range, whatever non-digit
   * text follows it, and to the negated value after a minus sign; beyond
   * the range stoi reports out_of_range.
   */
  lemma StoIOfNumeral(n: nat, rest: string)
    requires |rest| == 0 || !IsDigit(rest[0])
    ensures n <= IntMax ==> StoI(Decimal(n) + rest) == Ok(n)
    ensures IntMax < n ==> StoI(Decimal(n) + rest) == Err(OutOfRange)
    ensures n <= -IntMin ==> StoI(['-'] + (Decimal(n) + rest)) == Ok(-(n as int))
  {
    ValueOfDecimal(n);
    StoIOfDigits(Decimal(n), rest);
    StoIOfNegativeDigits(Decimal(n), rest);
  }

  /** Leading white space makes no difference: stoi reads what follows it. */
  lemma StoISkipsSpaces(s: string)
    ensures StoI(s) == StoI(SkipSpaces(s))
  {
    var t := SkipSpaces(s);
    assert |t| == 0 || !IsSpace(t[0]);
    assert SkipSpaces(t) == t;
  }

  /** One blank, tab or line break before a line leaves its value alone. */
  lemma StoIAfterSpace(ch: char, s: string)
    requires IsSpace(ch)
    ensures StoI([ch] + s) == StoI(s)
  {
    assert ([ch] + s)[1..] == s;
    assert SkipSpaces([ch] + s) == SkipSpaces(s);
  }

  /**
   * A plus sign in front of a number is accepted and changes nothing, as long
   * as no second sign or blank follows it.
   */
  lemma StoIAfterPlus(t: string)
    requires |t| == 0 || !(IsSpace(t[0]) || t[0] == '+' || t[0] == '-')
    ensures StoI(['+'] + t) == StoI(t)
  {
    var s := ['+'] + t;
    assert s[0] == '+' && !IsSpace(s[0]);
    assert SkipSpaces(s) == s;
    assert s[1..] == t;
    assert SkipSpaces(t) == t;
  }

  /**
   * A line that starts with neither white space, a sign nor a digit (the
   * empty line included) is rejected.
   */
  lemma StoIRejectsNonNumeric(s: string)
    requires |s| == 0 || !(IsSpace(s[0]) || IsDigit(s[0]) || s[0] == '+' || s[0] == '-')
    ensures StoI(s) == Err(InvalidArgument)
  {
  }
}
