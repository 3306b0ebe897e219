/**
 * Text helpers for the token's compact form: canonical decimal numerals and
 * segments separated by '.'.
 */
module Encoding {
  import opened Wrappers

  predicate IsDigit(c: char) {
    '0' <= c <= '9'
  }

  predicate AllDigits(s: string) {
    forall i :: 0 <= i < |s| ==> IsDigit(s[i])
  }

  /** A canonical decimal numeral: non-empty, digits only, no leading zero except "0" itself. */
  predicate IsNumeral(s: string) {
    |s| > 0 && AllDigits(s) && (s[0] == '0' ==> |s| == 1)
  }

  function DigitChar(d: nat): (c: char)
    requires d < 10
    ensures IsDigit(c) && c as int - '0' as int == d
  {
    (d + '0' as int) as char
  }

  /** The decimal numeral of `n`. */
  function Dec(n: nat): (s: string)
    ensures IsNumeral(s)
    ensures s[0] == '0' <==> n == 0
    decreases n
  {
    if n < 10 then [DigitChar(n)] else Dec(n / 10) + [DigitChar(n % 10)]
  }

  /** The value of a string of decimal digits (the empty string reads as 0). */
  function ParseDec(s: string): nat
    requires AllDigits(s)
    decreases |s|
  {
    if s == [] then 0
    else
      assert AllDigits(s[..|s| - 1]);
      10 * ParseDec(s[..|s| - 1]) + (s[|s| - 1] as int - '0' as int)
  }

  lemma {:induction false} ParseDecOfDec(n: nat)
    ensures ParseDec(Dec(n)) == n
    decreases n
  {
    if n >= 10 {
      var s := Dec(n);
      assert s[..|s| - 1] == Dec(n / 10);
      ParseDecOfDec(n / 10);
    }
  }

  /** Reading a canonical numeral and printing it back gives the same text. */
  lemma {:induction false} DecOfParseDec(s: string)
    requires IsNumeral(s)
    ensures Dec(ParseDec(s)) == s
    decreases |s|
  {
    var last := s[|s| - 1];
    var d := last as int - '0' as int;
    if |s| == 1 {
      assert s == [last];
      assert DigitChar(d) == last;
    } else {
      var p := s[..|s| - 1];
      assert p[0] == s[0];
      assert IsNumeral(p);
      DecOfParseDec(p);
      var n := ParseDec(s);
      // p starts with a non-zero digit, so it does not denote 0
      assert ParseDec(p) != 0;
      assert n / 10 == ParseDec(p) && n % 10 == d;
      assert DigitChar(d) == last;
      assert s == p + [last];
    }
  }

  lemma NumeralHasNoDot(s: string)
    requires AllDigits(s)
    ensures '.' !in s
  {
  }

  /** Two segments separated by a dot. */
  function Join(a: string, b: string): string {
    a + ['.'] + b
  }

  /** Splits at the first dot, if there is one. */
  function Split(s: string): (r: Option<(string, string)>)
    ensures r.Some? ==> '.' !in r.value.0 && s == Join(r.value.0, r.value.1)
    ensures r.None? ==> '.' !in s
    decreases |s|
  {
    if s == [] then None
    else if s[0] == '.' then Some(([], s[1..]))
    else
      match Split(s[1..])
      case None => None
      case Some((a, b)) => Some(([s[0]] + a, b))
  }

  /** Splitting a joined pair whose first segment has no dot recovers the pair. */
  lemma {:induction false} SplitJoin(a: string, b: string)
    requires '.' !in a
    ensures Split(Join(a, b)) == Some((a, b))
    decreases |a|
  {
    var s := Join(a, b);
    if a == [] {
      assert s[1..] == b;
    } else {
      assert s[0] == a[0];
      assert s[1..] == Join(a[1..], b);
      SplitJoin(a[1..], b);
      assert [a[0]] + a[1..] == a;
    }
  }
}
