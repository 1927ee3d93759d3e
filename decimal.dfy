/**
 * Base-10 integers as text: Go's `%d` formatting of a non-negative integer
 * and `strconv.ParseInt(s, 10, 64)`.
 */
module Decimal {
  import opened Wrappers

  const MinInt64: int := -0x8000_0000_0000_0000
  const MaxInt64: int := 0x7fff_ffff_ffff_ffff

  predicate IsDigit(c: char) { '0' <= c <= '9' }

  predicate AllDigits(s: string) {
    forall i :: 0 <= i < |s| ==> IsDigit(s[i])
  }

  function DigitValue(c: char): (v: nat)
    requires IsDigit(c)
    ensures v < 10
  {
    c as int - '0' as int
  }

  function DigitChar(v: nat): (c: char)
    requires v < 10
    ensures IsDigit(c) && DigitValue(c) == v
  {
    ('0' as int + v) as char
  }

  /** The value of a run of decimal digits, most significant first. */
  function ParseDigits(s: string): nat
    requires AllDigits(s)
    decreases |s|
  {
    if s == [] then 0 else 10 * ParseDigits(s[..|s| - 1]) + DigitValue(s[|s| - 1])
  }

  /** `%d` of a non-negative integer: its shortest digit string, which reads back as `n`. */
  function Itoa(n: nat): (s: string)
    ensures |s| >= 1 && AllDigits(s)
    ensures |s| > 1 ==> s[0] != '0'
    ensures ParseDigits(s) == n
    decreases n
  {
    if n < 10 then [DigitChar(n)]
    else
      var s := Itoa(n / 10) + [DigitChar(n % 10)];
      assert s[..|s| - 1] == Itoa(n / 10);
      s
  }

  /**
   * `strconv.ParseInt(s, 10, 64)`: an optional sign, then one or more decimal
   * digits, whose value must fit in 64 bits; anything else is an error (None).
   */
  function ParseInt64(s: string): (r: Option<int>)
    ensures r.Some? ==> MinInt64 <= r.value <= MaxInt64
    ensures r.Some? ==> s != [] && AllDigits(if s[0] == '+' || s[0] == '-' then s[1..] else s)
  {
    if s == [] then None
    else
      var neg := s[0] == '-';
      var digits := if s[0] == '+' || s[0] == '-' then s[1..] else s;
      if digits == [] || !AllDigits(digits) then None
      else
        var v: int := if neg then 0 - ParseDigits(digits) else ParseDigits(digits);
        if MinInt64 <= v <= MaxInt64 then Some(v) else None
  }

  /** What `%d` prints, `ParseInt` reads back, for every non-negative int64. */
  lemma ParseFormatted(n: nat)
    requires n <= MaxInt64
    ensures ParseInt64(Itoa(n)) == Some(n)
  {
  }

  /** A negative int64 written with a minus sign parses to itself. */
  lemma ParseNegative(n: nat)
    requires 0 < n && n <= -MinInt64
    ensures ParseInt64(['-'] + Itoa(n)) == Some(0 - n)
  {
    assert (['-'] + Itoa(n))[1..] == Itoa(n);
  }

  /** Text with a rune that is neither a digit nor a leading sign is rejected. */
  lemma RejectsNonDigit(s: string, i: nat)
    requires 0 < i < |s| && !IsDigit(s[i])
    ensures ParseInt64(s) == None
  {
    if s[0] == '+' || s[0] == '-' {
      assert s[1..][i - 1] == s[i];
    }
  }
}
