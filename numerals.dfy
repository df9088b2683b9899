/**
  Characters, digit strings and the C `long` range shared by the date parser
  and the line codec: what `isdigit`, `isspace`, `atoi`, `strtol` and
  `printf("%ld")` do on the inputs the planner gives them.
 */
module Numerals {

  /** The range of a C `long`, which is also `time_t`, on an LP64 platform. */
  const LongMin: int := -0x8000_0000_0000_0000
  const LongMax: int := 0x7FFF_FFFF_FFFF_FFFF

  type Long = x: int | LongMin <= x <= LongMax

  /** `isdigit` in the C locale. */
  predicate IsDigit(c: char) {
    '0' <= c <= '9'
  }

  /** `isspace` in the C locale: space, tab, newline, vertical tab, form feed, carriage return. */
  predicate IsSpace(c: char) {
    c == ' ' || '\t' <= c <= '\r'
  }

  predicate AllDigits(s: string) {
    forall i :: 0 <= i < |s| ==> IsDigit(s[i])
  }

  function DigitValue(c: char): (d: nat)
    requires IsDigit(c)
    ensures d < 10
  {
    c as int - '0' as int
  }

  function DigitChar(d: nat): (c: char)
    requires d < 10
    ensures IsDigit(c) && DigitValue(c) == d
  {
    ('0' as int + d) as char
  }

  function Pow10(n: nat): (p: nat)
    ensures p >= 1
  {
    if n == 0 then 1 else 10 * Pow10(n - 1)
  }

  /** The value of a digit string read most significant digit first, as `atoi` and `strtol` read it. */
  function DecimalValue(s: string): (v: nat)
    requires AllDigits(s)
    ensures v < Pow10(|s|)
    decreases |s|
  {
    if s == [] then 0 else DecimalValue(s[..|s| - 1]) * 10 + DigitValue(s[|s| - 1])
  }

  /** The distance between two integers. */
  function Dist(a: int, b: int): nat {
    if a <= b then b - a else a - b
  }

  /** `strtol`'s saturation: a value in the `long` range is kept. */
  function ClampLong(x: int): (r: Long)
    ensures LongMin <= x <= LongMax ==> r == x
  {
    if x < LongMin then LongMin else if x > LongMax then LongMax else x
  }

  /** Any value becomes the `long` nearest to it, so one outside the range saturates at the bound on its side. */
  lemma ClampLongNearest(x: int)
    ensures forall y: Long :: Dist(ClampLong(x), x) <= Dist(y, x)
  {
  }

  /** The digits `printf("%ld")` writes for a non-negative value: no leading zeros. */
  function NatDigits(n: nat): (s: string)
    ensures |s| > 0 && AllDigits(s)
    ensures DecimalValue(s) == n
    decreases n
  {
    if n < 10 then [DigitChar(n)]
    else
      var prefix := NatDigits(n / 10);
      var s := prefix + [DigitChar(n % 10)];
      assert s[..|s| - 1] == prefix;
      s
  }

  /** The text `printf("%ld")` writes for a `long`. */
  function LongToText(n: Long): (s: string)
    ensures |s| > 0 && (s[0] == '-' || IsDigit(s[0]))
    ensures forall i :: 0 <= i < |s| ==> s[i] == '-' || IsDigit(s[i])
  {
    if n < 0 then "-" + NatDigits(-(n as int)) else NatDigits(n)
  }

  /** n written in exactly w digits, zero-padded on the left, as a user types `05` for five. */
  function Padded(n: nat, w: nat): (s: string)
    requires n < Pow10(w)
    ensures |s| == w && AllDigits(s)
    ensures DecimalValue(s) == n
    decreases w
  {
    if w == 0 then ""
    else
      var prefix := Padded(n / 10, w - 1);
      var s := prefix + [DigitChar(n % 10)];
      assert s[..|s| - 1] == prefix;
      s
  }

  /** The end of the longest run of characters satisfying p that starts at index i. */
  function SpanEnd(s: string, i: nat, p: char -> bool): (e: nat)
    requires i <= |s|
    ensures i <= e <= |s|
    ensures forall k :: i <= k < e ==> p(s[k])
    ensures e == |s| || !p(s[e])
    decreases |s| - i
  {
    if i == |s| || !p(s[i]) then i else SpanEnd(s, i + 1, p)
  }

  /** A run end is determined by its two defining properties. */
  lemma SpanEndUnique(s: string, i: nat, p: char -> bool, e: nat)
    requires i <= e <= |s|
    requires forall k :: i <= k < e ==> p(s[k])
    requires e == |s| || !p(s[e])
    ensures SpanEnd(s, i, p) == e
  {
  }
}
