/** The string conversions the notes lean on: `String(number)` for integers,
    and `array.join(separator)`. Characters stand for UTF-16 code units, which
    for the decimal digits and separators used here are plain ASCII. */
module Strings {
  import opened Wrappers

  predicate IsDigit(c: char) { '0' <= c <= '9' }

  predicate AllDigits(s: string) { forall i :: 0 <= i < |s| ==> IsDigit(s[i]) }

  function DigitChar(d: nat): (c: char)
    requires d < 10
    ensures IsDigit(c)
  {
    ('0' as int + d) as char
  }

  function DigitValue(c: char): nat
    requires IsDigit(c)
  {
    c as int - '0' as int
  }

  /** Decimal text of a natural number, most significant digit first and no
      leading zero. */
  function NatToString(n: nat): (s: string)
    ensures |s| >= 1 && AllDigits(s)
    ensures s[0] == '0' ==> n == 0
  {
    if n < 10 then [DigitChar(n)]
    else NatToString(n / 10) + [DigitChar(n % 10)]
  }

  /** Reading decimal digits back, most significant first. */
  function ParseDigits(s: string): nat
    requires AllDigits(s)
  {
    if s == [] then 0
    else 10 * ParseDigits(s[..|s| - 1]) + DigitValue(s[|s| - 1])
  }

  /** The decimal text of `n` reads back as `n`. */
  lemma {:induction false} ParseNatToString(n: nat)
    ensures ParseDigits(NatToString(n)) == n
  {
    if n >= 10 {
      var s := NatToString(n);
      assert s[..|s| - 1] == NatToString(n / 10);
      ParseNatToString(n / 10);
    }
  }

  /** `String(number)` for an integer: a minus sign before the digits of its
      magnitude when it is negative. */
  function IntToString(i: int): (s: string)
    ensures |s| >= 1
  {
    if i < 0 then "-" + NatToString(-i) else NatToString(i)
  }

  /** Reading an integer back: an optional minus sign, then decimal digits. */
  function ParseInt(s: string): Option<int>
  {
    if |s| >= 2 && s[0] == '-' && AllDigits(s[1..]) then Some(-(ParseDigits(s[1..]) as int))
    else if |s| >= 1 && AllDigits(s) then Some(ParseDigits(s))
    else None
  }

  /** `String(i)` reads back as `i`, for negative integers too. */
  lemma ParseIntToString(i: int)
    ensures ParseInt(IntToString(i)) == Some(i)
  {
    if i < 0 {
      ParseNatToString(-i);
      assert !IsDigit(IntToString(i)[0]);
    } else {
      ParseNatToString(i);
    }
  }

  /** `parts.join(separator)`. */
  function Join(parts: seq<string>, separator: string): string
  {
    if |parts| == 0 then ""
    else if |parts| == 1 then parts[0]
    else Join(parts[..|parts| - 1], separator) + separator + parts[|parts| - 1]
  }

  /** A join of non-empty parts starts with the first character of the first part. */
  lemma {:induction false} JoinStartsWithFirstPart(parts: seq<string>, separator: string)
    requires |parts| >= 1 && |parts[0]| >= 1
    ensures |Join(parts, separator)| >= 1 && Join(parts, separator)[0] == parts[0][0]
  {
    if |parts| > 1 {
      var front := parts[..|parts| - 1];
      assert front[0] == parts[0];
      JoinStartsWithFirstPart(front, separator);
    }
  }
}
