/** Character classes and maximal runs, as Python's `re` module sees them on `str`. */
module Text {

  /** `\s` on a `str` pattern: the characters `str.isspace()` accepts. */
  predicate IsSpace(c: char) {
    || ('\t' <= c <= '\r')
    || ('\U{1C}' <= c <= '\U{1F}')
    || c == ' ' || c == '\U{85}' || c == '\U{A0}' || c == '\U{1680}'
    || ('\U{2000}' <= c <= '\U{200A}')
    || c == '\U{2028}' || c == '\U{2029}' || c == '\U{202F}' || c == '\U{205F}' || c == '\U{3000}'
  }

  /** `[0-9]` (and `\d` restricted to ASCII). */
  predicate IsDigit(c: char) {
    '0' <= c <= '9'
  }

  function DigitValue(c: char): (d: nat)
    requires IsDigit(c)
    ensures d <= 9
  {
    (c as int) - ('0' as int)
  }

  /** Every character of `s[a..b]` is whitespace. */
  predicate SpaceIn(s: string, a: int, b: int) {
    0 <= a <= b <= |s| && forall k :: a <= k < b ==> IsSpace(s[k])
  }

  /** Every character of `s[a..b]` is a digit. */
  predicate DigitsIn(s: string, a: int, b: int) {
    0 <= a <= b <= |s| && forall k :: a <= k < b ==> IsDigit(s[k])
  }

  lemma DigitsInSlice(s: string, a: int, b: int, lo: int, hi: int)
    requires DigitsIn(s, a, b) && 0 <= lo <= a && b <= hi <= |s|
    ensures DigitsIn(s[lo..hi], a - lo, b - lo)
  {
    var t := s[lo..hi];
    forall k | a - lo <= k < b - lo ensures IsDigit(t[k]) {
      assert t[k] == s[k + lo];
    }
  }

  lemma DigitsOfSlice(s: string, lo: int, hi: int, a: int, b: int)
    requires 0 <= lo <= hi <= |s| && DigitsIn(s[lo..hi], a, b)
    ensures DigitsIn(s, a + lo, b + lo)
  {
    var t := s[lo..hi];
    forall k | a + lo <= k < b + lo ensures IsDigit(s[k]) {
      assert s[k] == t[k - lo];
    }
  }

  predicate AllDigits(s: string) {
    forall k :: 0 <= k < |s| ==> IsDigit(s[k])
  }

  /** Length of the longest whitespace run starting at `i` (what a greedy `\s*` takes). */
  function SpaceRun(s: string, i: nat): (n: nat)
    requires i <= |s|
    ensures SpaceIn(s, i, i + n)
    ensures i + n == |s| || !IsSpace(s[i + n])
    decreases |s| - i
  {
    if i < |s| && IsSpace(s[i]) then 1 + SpaceRun(s, i + 1) else 0
  }

  /** Length of the longest digit run starting at `i` (what a greedy `[0-9]*` takes). */
  function DigitRun(s: string, i: nat): (n: nat)
    requires i <= |s|
    ensures DigitsIn(s, i, i + n)
    ensures i + n == |s| || !IsDigit(s[i + n])
    decreases |s| - i
  {
    if i < |s| && IsDigit(s[i]) then 1 + DigitRun(s, i + 1) else 0
  }

  /** Every digit run starting at `i` lies within the longest one. */
  lemma DigitRunBound(s: string, i: nat, b: int)
    requires DigitsIn(s, i, b)
    ensures b <= i + DigitRun(s, i)
  {
  }

  /** A digit run followed by a character that is not a digit is the longest one. */
  lemma DigitRunUnique(s: string, i: nat, b: int)
    requires DigitsIn(s, i, b) && b < |s| && !IsDigit(s[b])
    ensures b == i + DigitRun(s, i)
  {
    DigitRunBound(s, i, b);
  }

  /** Position of the first newline at or after `i`, or `|s|`: where a greedy `.*` stops. */
  function LineEnd(s: string, i: nat): (e: nat)
    requires i <= |s|
    ensures i <= e <= |s|
    ensures forall k :: i <= k < e ==> s[k] != '\n'
    ensures e == |s| || s[e] == '\n'
    decreases |s| - i
  {
    if i < |s| && s[i] != '\n' then LineEnd(s, i + 1) else i
  }

  function Pow10(k: nat): (p: nat)
    ensures p >= 1
  {
    if k == 0 then 1 else 10 * Pow10(k - 1)
  }

  /** `int(ds)` for a run of ASCII digits. */
  function DecimalValue(ds: string): (n: nat)
    requires AllDigits(ds)
    ensures n < Pow10(|ds|)
    decreases |ds|
  {
    if ds == [] then 0 else 10 * DecimalValue(ds[..|ds| - 1]) + DigitValue(ds[|ds| - 1])
  }

  /** `str(n)`: the shortest decimal spelling of `n`. */
  function Decimal(n: nat): (ds: string)
    ensures |ds| >= 1 && AllDigits(ds)
  {
    if n < 10 then [('0' as int + n) as char] else Decimal(n / 10) + [('0' as int + n % 10) as char]
  }

  /** `int(str(n)) == n`. */
  lemma {:induction false} DecimalRoundTrip(n: nat)
    ensures DecimalValue(Decimal(n)) == n
  {
    if n >= 10 {
      var ds := Decimal(n);
      assert ds[..|ds| - 1] == Decimal(n / 10);
      DecimalRoundTrip(n / 10);
    }
  }
}
