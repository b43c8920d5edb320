/** Character classes and small string functions shared by the title
    normaliser, the duration extractor and the renderer. Only ASCII is
    modelled: RE2's `\w` and `\d` are ASCII classes, and case mapping is
    restricted to ASCII letters. */
module Text {

  /** RE2's `\d`. */
  predicate IsDigit(c: char) {
    '0' <= c <= '9'
  }

  /** RE2's `\w`, that is `[0-9A-Za-z_]`. */
  predicate IsWordChar(c: char) {
    IsDigit(c) || 'A' <= c <= 'Z' || 'a' <= c <= 'z' || c == '_'
  }

  function ToLower(c: char): char {
    if 'A' <= c <= 'Z' then (c as int + 32) as char else c
  }

  function ToUpper(c: char): char {
    if 'a' <= c <= 'z' then (c as int - 32) as char else c
  }

  /** End of the maximal run of characters satisfying `inRun` that starts at `k`. */
  function RunEnd(s: string, k: nat, inRun: char -> bool): (j: nat)
    requires k <= |s|
    ensures k <= j <= |s|
    ensures forall m :: k <= m < j ==> inRun(s[m])
    ensures j == |s| || !inRun(s[j])
    decreases |s| - k
  {
    if k < |s| && inRun(s[k]) then RunEnd(s, k + 1, inRun) else k
  }

  /** A run of `inRun` characters from `k` to `e` ends no earlier than `e`. */
  lemma {:induction false} RunEndCovers(s: string, k: nat, e: nat, inRun: char -> bool)
    requires k <= e <= |s|
    requires forall m :: k <= m < e ==> inRun(s[m])
    ensures e <= RunEnd(s, k, inRun)
    decreases e - k
  {
    if k < e {
      RunEndCovers(s, k + 1, e, inRun);
    }
  }

  /** A run that stops at a character outside the class ends exactly there. */
  lemma RunEndExact(s: string, k: nat, e: nat, inRun: char -> bool)
    requires k <= e < |s|
    requires forall m :: k <= m < e ==> inRun(s[m])
    requires !inRun(s[e])
    ensures RunEnd(s, k, inRun) == e
  {
    RunEndCovers(s, k, e, inRun);
  }

  predicate AllDigits(s: string) {
    forall i :: 0 <= i < |s| ==> IsDigit(s[i])
  }

  function DigitValue(c: char): nat
    requires IsDigit(c)
  {
    c as int - '0' as int
  }

  /** The value of a string of decimal digits, most significant first. */
  function DigitsValue(s: string): nat
    requires AllDigits(s)
  {
    if |s| == 0 then 0 else DigitsValue(s[..|s| - 1]) * 10 + DigitValue(s[|s| - 1])
  }

  function DigitChar(d: nat): (c: char)
    requires d < 10
    ensures IsDigit(c) && DigitValue(c) == d
  {
    ('0' as int + d) as char
  }

  /** Decimal representation of `n` without leading zeros, as `%d` prints it. */
  function Decimal(n: nat): (s: string)
    ensures 1 <= |s| && AllDigits(s)
    ensures DigitsValue(s) == n
    ensures s[0] == '0' ==> n == 0
  {
    if n < 10 then [DigitChar(n)]
    else
      var prefix := Decimal(n / 10);
      var s := prefix + [DigitChar(n % 10)];
      assert s[..|s| - 1] == prefix;
      s
  }

  /** Go's `int` division, which truncates toward zero. */
  function TruncDiv(a: int, b: int): (q: int)
    requires b > 0
    ensures a >= 0 ==> q == a / b
    ensures a < 0 ==> q == -((-a) / b)
  {
    if a >= 0 then a / b else -((-a) / b)
  }

  /** Go's `%`, whose result takes the sign of the dividend. */
  function TruncRem(a: int, b: int): (r: int)
    requires b > 0
    ensures a == TruncDiv(a, b) * b + r
    ensures -b < r < b
    ensures a >= 0 ==> 0 <= r
    ensures a <= 0 ==> r <= 0
  {
    a - TruncDiv(a, b) * b
  }

  /** `%02d`: at least two characters, zero-padded after the sign. */
  function Pad2(n: int): (s: string)
    ensures |s| >= 2
    ensures 0 <= n < 100 ==> |s| == 2 && AllDigits(s) && DigitsValue(s) == n
  {
    if n < 0 then "-" + Decimal(-n)
    else if n < 10 then "0" + Decimal(n)
    else
      assert n < 100 ==> Decimal(n) == Decimal(n / 10) + [DigitChar(n % 10)];
      Decimal(n)
  }

  /** `n` copies of `c`. */
  function Repeat(c: char, n: nat): (s: string)
    ensures |s| == n && forall i :: 0 <= i < n ==> s[i] == c
  {
    seq(n, _ => c)
  }

  /** `%-Ns`: left-justify `s` in a field of `width` characters. */
  function PadRight(s: string, width: nat): (r: string)
    ensures |r| == if |s| < width then width else |s|
    ensures r[..|s|] == s
    ensures forall i :: |s| <= i < |r| ==> r[i] == ' '
  {
    if |s| < width then s + Repeat(' ', width - |s|) else s
  }
}
