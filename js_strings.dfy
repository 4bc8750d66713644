/**
 * The JavaScript string operations the attendance module relies on:
 * `String.prototype.trim`, `String(n)` for an integral number, and
 * `String.prototype.padStart`.
 */
module JsStrings {

  /** ECMAScript WhiteSpace and LineTerminator code points: what `trim` removes. */
  predicate IsWhiteSpace(c: char)
  {
    || c == '\t' || c == '\U{000B}' || c == '\U{000C}' || c == ' '
    || c == '\U{00A0}' || c == '\U{FEFF}'
    || c == '\U{1680}' || ('\U{2000}' <= c <= '\U{200A}')
    || c == '\U{202F}' || c == '\U{205F}' || c == '\U{3000}'
    || c == '\n' || c == '\r' || c == '\U{2028}' || c == '\U{2029}'
  }

  predicate AllWhiteSpace(s: string)
  {
    forall k :: 0 <= k < |s| ==> IsWhiteSpace(s[k])
  }

  /** The first index at or after `i` that does not hold white space, or `|s|`. */
  function SkipWhiteForward(s: string, i: nat): (j: nat)
    requires i <= |s|
    ensures i <= j <= |s|
    ensures forall k :: i <= k < j ==> IsWhiteSpace(s[k])
    ensures j == |s| || !IsWhiteSpace(s[j])
    decreases |s| - i
  {
    if i < |s| && IsWhiteSpace(s[i]) then SkipWhiteForward(s, i + 1) else i
  }

  /** The least `e` in `lo..j` such that `s[e..j]` is all white space. */
  function SkipWhiteBackward(s: string, lo: nat, j: nat): (e: nat)
    requires lo <= j <= |s|
    ensures lo <= e <= j
    ensures forall k :: e <= k < j ==> IsWhiteSpace(s[k])
    ensures e == lo || !IsWhiteSpace(s[e - 1])
    decreases j
  {
    if lo < j && IsWhiteSpace(s[j - 1]) then SkipWhiteBackward(s, lo, j - 1) else j
  }

  /** `r` is what is left of `s` once white space is cut off before index `i` and after `r`. */
  ghost predicate TrimmedAt(s: string, i: nat, r: string)
  {
    && i + |r| <= |s| && r == s[i..i + |r|]
    && (forall k :: 0 <= k < i ==> IsWhiteSpace(s[k]))
    && (forall k :: i + |r| <= k < |s| ==> IsWhiteSpace(s[k]))
  }

  /**
   * `s.trim()`: the slice of `s` left after removing white space at both ends.
   * Everything cut off is white space, and the result is empty or starts and
   * ends with a character that is not.
   */
  function Trim(s: string): (r: string)
    ensures exists i: nat :: TrimmedAt(s, i, r)
    ensures r == [] || (!IsWhiteSpace(r[0]) && !IsWhiteSpace(r[|r| - 1]))
  {
    var i := SkipWhiteForward(s, 0);
    var e := SkipWhiteBackward(s, i, |s|);
    assert TrimmedAt(s, i, s[i..e]);
    s[i..e]
  }

  /** A string trims to the empty string exactly when all of it is white space. */
  lemma TrimEmptyIffAllWhiteSpace(s: string)
    ensures Trim(s) == [] <==> AllWhiteSpace(s)
  {
    var r := Trim(s);
    var i: nat :| TrimmedAt(s, i, r);
    if r != [] {
      assert s[i] == r[0];
    }
  }

  predicate IsDigit(c: char)
  {
    '0' <= c <= '9'
  }

  predicate AllDigits(s: string)
  {
    forall k :: 0 <= k < |s| ==> IsDigit(s[k])
  }

  function DigitChar(d: nat): (c: char)
    requires d < 10
    ensures IsDigit(c) && c as int - '0' as int == d
  {
    ['0', '1', '2', '3', '4', '5', '6', '7', '8', '9'][d]
  }

  function DigitValue(c: char): (d: nat)
    requires IsDigit(c)
    ensures d < 10 && DigitChar(d) == c
  {
    c as int - '0' as int
  }

  /** The decimal digits of `n`, without leading zeros. */
  function Decimal(n: nat): (s: string)
    ensures 0 < |s| && AllDigits(s)
    ensures |s| == 1 <==> n < 10
    ensures s[0] != '0' || n == 0
  {
    if n < 10 then [DigitChar(n)]
    else Decimal(n / 10) + [DigitChar(n % 10)]
  }

  /** The number a string of decimal digits denotes; the partner of `Decimal`. */
  function DigitsValue(s: string): nat
    requires AllDigits(s)
  {
    if s == [] then 0
    else 10 * DigitsValue(s[..|s| - 1]) + DigitValue(s[|s| - 1])
  }

  lemma {:induction false} DecimalRoundTrip(n: nat)
    ensures DigitsValue(Decimal(n)) == n
  {
    if n >= 10 {
      var s := Decimal(n);
      assert s[..|s| - 1] == Decimal(n / 10);
      assert DigitValue(s[|s| - 1]) == n % 10;
      DecimalRoundTrip(n / 10);
      assert n == 10 * (n / 10) + n % 10;
    }
  }

  /** Leading zeros do not change the value of a digit string. */
  lemma {:induction false} LeadingZerosValue(z: string, s: string)
    requires forall k :: 0 <= k < |z| ==> z[k] == '0'
    requires AllDigits(s)
    ensures AllDigits(z + s) && DigitsValue(z + s) == DigitsValue(s)
  {
    if s == [] {
      assert z + s == z;
      ZerosValue(z);
    } else {
      var t := s[..|s| - 1];
      assert (z + s)[..|z + s| - 1] == z + t;
      LeadingZerosValue(z, t);
    }
  }

  lemma {:induction false} ZerosValue(z: string)
    requires forall k :: 0 <= k < |z| ==> z[k] == '0'
    ensures AllDigits(z) && DigitsValue(z) == 0
  {
    if z != [] {
      ZerosValue(z[..|z| - 1]);
    }
  }

  /**
   * `String(n)` for an integral JavaScript number: its decimal digits,
   * preceded by `-` when it is negative.
   */
  function NumberToString(n: int): (s: string)
    ensures n >= 0 ==> AllDigits(s) && DigitsValue(s) == n && s == Decimal(n)
    ensures n < 0 ==> |s| > 1 && s[0] == '-' && AllDigits(s[1..]) && DigitsValue(s[1..]) == -n
    ensures n < 0 ==> s[1..] == Decimal(-n)
  {
    if n < 0 then
      DecimalRoundTrip(-n);
      assert (['-'] + Decimal(-n))[1..] == Decimal(-n);
      ['-'] + Decimal(-n)
    else
      DecimalRoundTrip(n);
      Decimal(n)
  }

  /**
   * `s.padStart(width, [fill])`: `s` itself when it is at least `width` long,
   * otherwise `s` preceded by as many copies of `fill` as make it `width` long.
   */
  function PadStart(s: string, width: nat, fill: char): (r: string)
    ensures |r| == if |s| < width then width else |s|
    ensures r[|r| - |s|..] == s
    ensures forall k :: 0 <= k < |r| - |s| ==> r[k] == fill
  {
    if |s| < width then
      var pad := seq(width - |s|, _ => fill);
      assert (pad + s)[|pad|..] == s;
      pad + s
    else s
  }

  /** Padding with `'0'` keeps the value of a nonnegative number's digits. */
  lemma PadStartValue(n: nat, width: nat)
    ensures AllDigits(PadStart(Decimal(n), width, '0'))
    ensures DigitsValue(PadStart(Decimal(n), width, '0')) == n
  {
    var s := Decimal(n);
    var r := PadStart(s, width, '0');
    var z := r[..|r| - |s|];
    assert r == z + s;
    LeadingZerosValue(z, s);
    DecimalRoundTrip(n);
  }
}
