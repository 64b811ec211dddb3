/**
 * The few pieces of Python's `str` behaviour the modelled code relies on:
 * `isspace`, `strip`, `find` (two-character needles) and `rfind`
 * (one-character needles) with start and end bounds, `lower`
 * (ASCII letters only), `str(int)` and `int(str)` on decimal strings.
 */
module PyStr {

  /** `c.isspace()`: the characters Python treats as whitespace. */
  predicate IsSpace(c: char) {
    || c == ' '
    || ('\t' <= c <= '\r')
    || ('\U{1c}' <= c <= '\U{1f}')
    || c == '\U{85}' || c == '\U{a0}' || c == '\U{1680}'
    || ('\U{2000}' <= c <= '\U{200a}')
    || c == '\U{2028}' || c == '\U{2029}' || c == '\U{202f}' || c == '\U{205f}' || c == '\U{3000}'
  }

  /** True when every character of `s` is whitespace (so `s.strip()` is empty). */
  predicate IsBlank(s: string) {
    forall i :: 0 <= i < |s| ==> IsSpace(s[i])
  }

  /** Number of whitespace characters at the front of `s`. */
  function LeadingSpace(s: string): (n: nat)
    ensures n <= |s|
    ensures IsBlank(s[..n])
    ensures n < |s| ==> !IsSpace(s[n])
  {
    if s != [] && IsSpace(s[0]) then
      var n := 1 + LeadingSpace(s[1..]);
      assert s[..n] == [s[0]] + s[1..][..n - 1];
      n
    else 0
  }

  /** Number of whitespace characters at the end of `s`. */
  function TrailingSpace(s: string): (n: nat)
    ensures n <= |s|
    ensures IsBlank(s[|s| - n..])
    ensures n < |s| ==> !IsSpace(s[|s| - 1 - n])
  {
    if s != [] && IsSpace(s[|s| - 1]) then
      var n := 1 + TrailingSpace(s[..|s| - 1]);
      assert s[|s| - n..] == s[..|s| - 1][|s| - n..] + [s[|s| - 1]];
      n
    else 0
  }

  /** `s.strip()`: `s` with leading and trailing whitespace removed. */
  function Strip(s: string): (r: string)
    ensures |r| <= |s|
    ensures r == [] <==> IsBlank(s)
    ensures r != [] ==> !IsSpace(r[0]) && !IsSpace(r[|r| - 1])
  {
    var lo := LeadingSpace(s);
    if lo == |s| then
      assert s[..lo] == s;
      []
    else
      var hi := |s| - TrailingSpace(s);
      s[lo..hi]
  }

  /** `s.strip()` is a slice of `s` with only whitespace before and after it. */
  lemma StripParts(s: string)
    ensures var lo, r := LeadingSpace(s), Strip(s);
      && lo + |r| <= |s| && r == s[lo..lo + |r|]
      && IsBlank(s[..lo]) && IsBlank(s[lo + |r|..])
  {
    var lo := LeadingSpace(s);
    if lo < |s| {
      var hi := |s| - TrailingSpace(s);
      assert Strip(s) == s[lo..hi];
      assert s[lo + |Strip(s)|..] == s[hi..];
    }
  }

  /** True when the characters `a` and `b` occur, in that order, at offset `i` of `s`. */
  predicate PairAt(s: string, a: char, b: char, i: int) {
    0 <= i && i + 1 < |s| && s[i] == a && s[i + 1] == b
  }

  /**
   * `s.find(a + b, lo, hi)` for a two-character needle: the first offset
   * `i >= lo` at which the needle occurs wholly inside `s[lo:hi]`, or -1.
   */
  function FindPair(s: string, a: char, b: char, lo: int, hi: int): (r: int)
    requires 0 <= lo && hi <= |s|
    decreases hi - lo
    ensures r == -1 || (lo <= r && r + 2 <= hi && PairAt(s, a, b, r))
    ensures forall i :: lo <= i && i + 2 <= hi && (r == -1 || i < r) ==> !PairAt(s, a, b, i)
  {
    if lo + 2 > hi then -1
    else if PairAt(s, a, b, lo) then lo
    else FindPair(s, a, b, lo + 1, hi)
  }

  /** `s.rfind(c, lo, hi)` for a one-character needle: the last offset in `[lo, hi)` holding `c`, or -1. */
  function RFind(s: string, c: char, lo: int, hi: int): (r: int)
    requires 0 <= lo && hi <= |s|
    decreases hi - lo
    ensures r == -1 || (lo <= r < hi && s[r] == c)
    ensures forall i :: lo <= i < hi && r < i ==> s[i] != c
  {
    if hi <= lo then -1
    else if s[hi - 1] == c then hi - 1
    else RFind(s, c, lo, hi - 1)
  }

  /** `c.lower()` for ASCII letters; every other character is kept. */
  function LowerChar(c: char): (r: char)
    ensures 'A' <= c <= 'Z' ==> 'a' <= r <= 'z'
    ensures !('A' <= c <= 'Z') ==> r == c
  {
    if 'A' <= c <= 'Z' then (c as int - 'A' as int + 'a' as int) as char else c
  }

  function Lower(s: string): (r: string)
    ensures |r| == |s|
    ensures forall i :: 0 <= i < |s| ==> r[i] == LowerChar(s[i])
  {
    seq(|s|, i requires 0 <= i < |s| => LowerChar(s[i]))
  }

  function DigitChar(d: nat): (c: char)
    requires d < 10
    ensures '0' <= c <= '9'
  {
    (d + '0' as int) as char
  }

  function DigitValue(c: char): (d: nat)
    ensures d < 10
  {
    if '0' <= c <= '9' then c as int - '0' as int else 0
  }

  /** `str(n)` for a natural number: its decimal digits, most significant first. */
  function DecimalString(n: nat): (s: string)
    decreases n
    ensures 1 <= |s|
    ensures forall i :: 0 <= i < |s| ==> '0' <= s[i] <= '9'
  {
    if n < 10 then [DigitChar(n)] else DecimalString(n / 10) + [DigitChar(n % 10)]
  }

  /** `int(s)` for a string of decimal digits (the empty prefix reads as 0). */
  function ParseDecimal(s: string): nat {
    if s == [] then 0 else ParseDecimal(s[..|s| - 1]) * 10 + DigitValue(s[|s| - 1])
  }

  /** `int(str(n)) == n`. */
  lemma {:induction false} ParseDecimalString(n: nat)
    decreases n
    ensures ParseDecimal(DecimalString(n)) == n
  {
    if n < 10 {
      assert DecimalString(n)[..0] == [];
    } else {
      var s := DecimalString(n);
      assert s[..|s| - 1] == DecimalString(n / 10);
      ParseDecimalString(n / 10);
    }
  }

  /** Distinct numbers have distinct decimal strings. */
  lemma DecimalStringInjective(a: nat, b: nat)
    ensures DecimalString(a) == DecimalString(b) ==> a == b
  {
    ParseDecimalString(a);
    ParseDecimalString(b);
  }

  /** `str(n)` for any integer: a minus sign before the digits of a negative number. */
  function IntToString(n: int): (s: string)
    ensures n >= 0 ==> s == DecimalString(n)
    ensures n < 0 ==> 1 < |s| && s[0] == '-'
  {
    if n < 0 then "-" + DecimalString(-n) else DecimalString(n)
  }
}
