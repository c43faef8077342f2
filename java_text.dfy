/**
 * The two text utilities `getCurrentHostInfo` relies on: Spring's
 * `StringUtils.split` (cut at the first delimiter) and Java's
 * `Integer.valueOf` (signed decimal 32-bit parse), with `Integer.toString`
 * as the inverse the parse is proved against.
 */
module JavaText {
  import opened Wrappers

  /** Bounds of a Java `int`. */
  const IntMin: int := -0x8000_0000
  const IntMax: int := 0x7fff_ffff

  predicate IsJavaInt(v: int) {
    IntMin <= v <= IntMax
  }

  /**
   * `StringUtils.split(s, delimiter)` for a one-character delimiter: the text
   * before the first occurrence and the text after it, or `None` (Java `null`)
   * when the delimiter does not occur, which covers the empty string too.
   */
  function SplitAtFirst(s: string, delimiter: char): (r: Option<(string, string)>)
    ensures r.None? <==> delimiter !in s
    ensures r.Some? ==> s == r.value.0 + [delimiter] + r.value.1 && delimiter !in r.value.0
  {
    if s == [] then None
    else if s[0] == delimiter then Some(([], s[1..]))
    else
      assert s == [s[0]] + s[1..];
      match SplitAtFirst(s[1..], delimiter)
      case None => None
      case Some(parts) => Some(([s[0]] + parts.0, parts.1))
  }

  /** The split is unique: any cut of `s` at a delimiter not preceded by another one is the one found. */
  lemma SplitAtFirstUnique(s: string, delimiter: char, before: string, after: string)
    requires s == before + [delimiter] + after && delimiter !in before
    ensures SplitAtFirst(s, delimiter) == Some((before, after))
  {
    assert s[|before|] == delimiter;
    var r := SplitAtFirst(s, delimiter);
    var b := r.value.0;
    assert forall i :: 0 <= i < |b| ==> s[i] == b[i] != delimiter;
    assert forall i :: 0 <= i < |before| ==> s[i] == before[i] != delimiter;
    assert s[|b|] == delimiter;
    assert |b| == |before|;
    assert b == s[..|b|] == before;
    assert r.value.1 == s[|b| + 1..] == after;
  }

  predicate IsDigit(c: char) {
    '0' <= c <= '9'
  }

  predicate AllDigits(s: string) {
    forall i :: 0 <= i < |s| ==> IsDigit(s[i])
  }

  function DigitValue(c: char): nat
    requires IsDigit(c)
  {
    (c as int) - ('0' as int)
  }

  function DigitChar(d: nat): (c: char)
    requires d < 10
    ensures IsDigit(c) && DigitValue(c) == d
  {
    ('0' as int + d) as char
  }

  /** The value of a decimal digit string, most significant digit first. */
  function DigitsValue(s: string): nat
    requires AllDigits(s)
  {
    if s == [] then 0 else DigitsValue(s[..|s| - 1]) * 10 + DigitValue(s[|s| - 1])
  }

  /**
   * `Integer.valueOf(s)` / `Integer.parseInt(s, 10)`: an optional `-` or `+`,
   * then at least one decimal digit, with a value inside the `int` range;
   * anything else is a `NumberFormatException`, here `None`.
   */
  function ParseInt(s: string): (r: Option<int>)
    ensures r.Some? ==> IsJavaInt(r.value)
    ensures r.Some? ==> |s| >= 1 && (IsDigit(s[0]) || s[0] == '-' || s[0] == '+')
  {
    if |s| == 0 then None
    else
      var negative := s[0] == '-';
      var digits := if negative || s[0] == '+' then s[1..] else s;
      if |digits| == 0 || !AllDigits(digits) then None
      else
        var magnitude := DigitsValue(digits);
        var v := if negative then -(magnitude as int) else magnitude as int;
        if IsJavaInt(v) then Some(v) else None
  }

  /** Decimal digits of a natural number, without leading zeros. */
  function DecimalString(n: nat): (s: string)
    ensures |s| >= 1 && AllDigits(s)
  {
    if n < 10 then [DigitChar(n)] else DecimalString(n / 10) + [DigitChar(n % 10)]
  }

  /** `Integer.toString(v)`: a `-` for negative values, then the decimal digits of the magnitude. */
  function IntToString(v: int): string {
    if v < 0 then "-" + DecimalString(-v) else DecimalString(v)
  }

  lemma {:induction false} DigitsValueOfDecimal(n: nat)
    ensures DigitsValue(DecimalString(n)) == n
  {
    var s := DecimalString(n);
    if n >= 10 {
      DigitsValueOfDecimal(n / 10);
      assert s[..|s| - 1] == DecimalString(n / 10);
    }
  }

  /** Parsing undoes printing for every Java `int`. */
  lemma ParseIntToString(v: int)
    requires IsJavaInt(v)
    ensures ParseInt(IntToString(v)) == Some(v)
  {
    var s := IntToString(v);
    if v < 0 {
      DigitsValueOfDecimal(-v);
      assert s[1..] == DecimalString(-v);
    } else {
      DigitsValueOfDecimal(v);
      assert IsDigit(s[0]);
    }
  }

  /** A character other than a digit after the optional sign is always a `NumberFormatException`. */
  lemma ParseIntRejectsNonDigit(s: string, i: nat)
    requires 1 <= i < |s| && !IsDigit(s[i])
    ensures ParseInt(s) == None
  {
  }
}
