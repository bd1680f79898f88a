/**
 * Kotlin string templates over `Int`, `Long` and their nullable forms:
 * a number renders as its decimal digits with a leading '-' when negative,
 * and a null renders as "null".
 */
module Rendering {
  import opened Wrappers

  predicate IsDigit(c: char) {
    '0' <= c <= '9'
  }

  function DigitChar(d: nat): (c: char)
    requires d < 10
    ensures IsDigit(c) && c as int - '0' as int == d
  {
    (d + '0' as int) as char
  }

  /** The value a string of decimal digits denotes (the reference for `NatText`). */
  function DecimalValue(s: seq<char>): nat
    requires forall i :: 0 <= i < |s| ==> IsDigit(s[i])
  {
    if s == [] then 0
    else
      assert IsDigit(s[|s| - 1]);
      DecimalValue(s[..|s| - 1]) * 10 + (s[|s| - 1] as int - '0' as int)
  }

  /** The decimal digits of `n`, most significant first, with no leading zero. */
  function NatText(n: nat): (s: string)
    ensures |s| > 0 && (forall i :: 0 <= i < |s| ==> IsDigit(s[i]))
    ensures DecimalValue(s) == n
    ensures |s| > 1 ==> s[0] != '0'
  {
    if n < 10 then [DigitChar(n)]
    else
      var prefix := NatText(n / 10);
      assert (prefix + [DigitChar(n % 10)])[..|prefix|] == prefix;
      prefix + [DigitChar(n % 10)]
  }

  /**
   * `n.toString()` for an `Int` or a `Long`: a '-' exactly for a negative
   * number, then the decimal digits of its magnitude with no leading zero.
   */
  function IntText(n: int): (s: string)
    ensures |s| > 0 && (s[0] == '-' <==> n < 0)
    ensures var t := if n < 0 then s[1..] else s;
      |t| > 0 && (forall i | 0 <= i < |t| :: IsDigit(t[i]))
      && DecimalValue(t) == (if n < 0 then -n else n) && (|t| > 1 ==> t[0] != '0')
  {
    if n < 0 then
      var t := NatText(-n);
      assert ("-" + t)[1..] == t;
      "-" + t
    else NatText(n)
  }

  /** A nullable number in a string template: `"${x}"` with `x: Int?`. */
  function NullableText(n: Option<int>): (s: string)
    ensures n.None? <==> s == "null"
    ensures n.Some? ==> s == IntText(n.value)
  {
    match n
    case None => "null"
    case Some(v) =>
      var s := IntText(v);
      assert s[0] != "null"[0];
      s
  }

  /** An integer's text has only digits and a leading sign, so no space. */
  lemma IntTextNoSpace(n: int)
    ensures ' ' !in IntText(n)
  {
  }

  /** Distinct integers render distinctly. */
  lemma IntTextInjective(x: int, y: int)
    ensures IntText(x) == IntText(y) ==> x == y
  {
  }

  /** Distinct nullable numbers render distinctly, and never with a space. */
  lemma NullableTextInjective(a: Option<int>, b: Option<int>)
    ensures NullableText(a) == NullableText(b) ==> a == b
    ensures ' ' !in NullableText(a)
  {
  }

  lemma NumberTextExamples()
    ensures IntText(500) == "500" && IntText(1000) == "1000" && IntText(1001) == "1001"
    ensures IntText(-1) == "-1"
  {
    assert NatText(1) == "1";
    assert NatText(5) == "5";
    assert NatText(10) == "10";
    assert NatText(50) == "50";
    assert NatText(100) == "100";
  }
}
