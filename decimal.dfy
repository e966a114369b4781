/**
 * Decimal text, as the resolver uses it: Python's int() applied to a run of
 * ASCII digits (what a `[0-9]+` group captures) and Python's str() of a
 * non-negative int (what an f-string splices into a pattern).
 */
module Decimal {

  predicate IsDigit(c: char) {
    '0' <= c <= '9'
  }

  predicate AllDigits(s: string) {
    forall i :: 0 <= i < |s| ==> IsDigit(s[i])
  }

  /** The shortest decimal text of a number: no leading zero unless it is "0". */
  predicate Canonical(s: string) {
    |s| > 0 && AllDigits(s) && (s[0] == '0' ==> |s| == 1)
  }

  function DigitValue(c: char): (d: nat)
    requires IsDigit(c)
    ensures d < 10
  {
    c as int - '0' as int
  }

  function DigitChar(d: nat): (c: char)
    requires d < 10
    ensures IsDigit(c) && DigitValue(c) == d
  {
    ('0' as int + d) as char
  }

  /** Every character of s is '0'. */
  predicate Zeros(s: string) {
    forall k :: 0 <= k < |s| ==> s[k] == '0'
  }

  /**
   * int(s) for a string of digits; leading zeros are allowed, as in Python.
   * The value is zero exactly when every digit is '0' (including int("") as 0,
   * a case the callers never reach).
   */
  function ParseDecimal(s: string): (r: nat)
    requires AllDigits(s)
    ensures r == 0 <==> Zeros(s)
  {
    if s == [] then 0 else 10 * ParseDecimal(s[..|s| - 1]) + DigitValue(s[|s| - 1])
  }

  /** str(n) for a non-negative int. */
  function Show(n: nat): (s: string)
    ensures Canonical(s)
    ensures n < 10 <==> |s| == 1
  {
    if n < 10 then [DigitChar(n)] else Show(n / 10) + [DigitChar(n % 10)]
  }

  /** int(str(n)) == n. */
  lemma {:induction false} ParseShow(n: nat)
    ensures ParseDecimal(Show(n)) == n
  {
    if n >= 10 {
      var s := Show(n);
      assert s[..|s| - 1] == Show(n / 10);
      ParseShow(n / 10);
    }
  }

  /** str(int(s)) == s for canonical decimal text: the representation is unique. */
  lemma {:induction false} ShowParse(s: string)
    requires Canonical(s)
    ensures Show(ParseDecimal(s)) == s
  {
    if |s| > 1 {
      var init := s[..|s| - 1];
      assert Canonical(init);
      assert init[0] != '0';
      ShowParse(init);
      var n := ParseDecimal(s);
      assert n / 10 == ParseDecimal(init) && n % 10 == DigitValue(s[|s| - 1]);
      assert [DigitChar(n % 10)] == [s[|s| - 1]];
      assert s == init + [s[|s| - 1]];
    }
  }
}
