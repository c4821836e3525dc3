/**
 * Python's `str(n)` for a non-negative integer: its decimal digits, without sign,
 * padding or leading zeros.
 */
module Decimal {

  predicate IsDigit(c: char)
  {
    '0' <= c <= '9'
  }

  function DigitChar(d: nat): (c: char)
    requires d < 10
    ensures IsDigit(c)
  {
    (48 + d) as char
  }

  function DigitValue(c: char): (d: nat)
    requires IsDigit(c)
    ensures d < 10
  {
    c as int - 48
  }

  /** `str(n)`: at least one digit, only digits, and a leading `0` only for zero itself. */
  function Str(n: nat): (r: string)
    ensures |r| > 0
    ensures forall k :: 0 <= k < |r| ==> IsDigit(r[k])
    ensures r[0] == '0' <==> n == 0
    ensures r[0] == '0' ==> |r| == 1
    decreases n
  {
    if n < 10 then [DigitChar(n)] else Str(n / 10) + [DigitChar(n % 10)]
  }

  /** `int(s)` for a string of decimal digits. */
  function Parse(s: string): nat
    requires forall k :: 0 <= k < |s| ==> IsDigit(s[k])
  {
    if s == [] then 0 else 10 * Parse(s[..|s| - 1]) + DigitValue(s[|s| - 1])
  }

  /** `int(str(n)) == n`: the counter written into a header can be read back. */
  lemma {:induction false} ParseStr(n: nat)
    ensures Parse(Str(n)) == n
    decreases n
  {
    if n >= 10 {
      ParseStr(n / 10);
      var s := Str(n);
      assert s[..|s| - 1] == Str(n / 10);
    }
  }

  /** A digit string that starts with no `0`, or is `0` itself. */
  predicate Canonical(s: string)
  {
    && |s| > 0
    && (forall k :: 0 <= k < |s| ==> IsDigit(s[k]))
    && (s[0] == '0' ==> |s| == 1)
  }

  /** Digits that start with no `0` stand for a positive number. */
  lemma {:induction false} ParsePositive(s: string)
    requires |s| > 0 && (forall k :: 0 <= k < |s| ==> IsDigit(s[k]))
    requires s[0] != '0'
    ensures Parse(s) > 0
    decreases |s|
  {
    if |s| > 1 {
      ParsePositive(s[..|s| - 1]);
    }
  }

  /** `str(n)` is the only canonical digit string that reads back as `n`. */
  lemma {:induction false} StrUnique(s: string, n: nat)
    requires Canonical(s)
    requires Parse(s) == n
    ensures s == Str(n)
    decreases |s|
  {
    var last := s[|s| - 1];
    assert DigitChar(DigitValue(last)) == last;
    if |s| > 1 {
      var t := s[..|s| - 1];
      assert t[0] == s[0];
      ParsePositive(t);
      assert n / 10 == Parse(t) && n % 10 == DigitValue(last);
      StrUnique(t, n / 10);
      assert s == t + [last];
    }
  }
}
