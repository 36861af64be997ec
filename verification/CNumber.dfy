/** The C library's `strtoull` and `strtoul` in base 10 (C17, section 7.22.1.4),
    with 64-bit `unsigned long` and `unsigned long long`. */
module CNumber {
  import opened Chars

  const TWO_64: nat := 0x1_0000_0000_0000_0000

  /** A string whose length fits `size_t`. */
  type CString = s: string | |s| < TWO_64 witness ""

  const UINT_MAX: nat := 0xFFFF_FFFF

  /** A difference of pointers stored in a `size_t`, which wraps around when it is negative. */
  function SizeT(n: int): (r: nat)
    ensures 0 <= n < TWO_64 ==> r == n
  {
    n % TWO_64
  }

  predicate AllDigits(s: string) { forall i :: 0 <= i < |s| ==> IsDigit(s[i]) }

  function Decimal(s: string): nat
    requires AllDigits(s)
  {
    if s == "" then 0 else 10 * Decimal(s[..|s| - 1]) + (s[|s| - 1] - '0') as nat
  }

  /** Numbers too large for 64 bits read as the largest value. */
  function Capped(n: nat): nat { if n < TWO_64 then n else TWO_64 - 1 }

  /** `end` is the offset of the first unread character; `range` says that errno became ERANGE. */
  datatype Reading = Reading(value: nat, end: nat, range: bool)

  /** The offset behind white space and an optional sign. */
  function NumberStart(s: string): (from: nat)
    ensures from <= |s|
  {
    var ws := Span(s, IsSpace);
    if ws < |s| && (s[ws] == '-' || s[ws] == '+') then ws + 1 else ws
  }

  predicate IsNegative(s: string)
  {
    var ws := Span(s, IsSpace);
    ws < |s| && s[ws] == '-'
  }

  /** The value of the digits: capped, and negated modulo 2^64 unless it was capped. */
  function Convert(digits: string, negative: bool): (r: nat)
    requires AllDigits(digits)
    ensures r < TWO_64
  {
    var u := Decimal(digits);
    if negative && 0 < u < TWO_64 then TWO_64 - u else Capped(u)
  }

  function Strtoull(s: string): Reading
  {
    var from := NumberStart(s);
    var n := Span(s[from..], IsDigit);
    if n == 0 then Reading(0, 0, false)
    else
      var digits := s[from..][..n];
      Reading(Convert(digits, IsNegative(s)), from + n, Decimal(digits) >= TWO_64)
  }

  /** On a run of digits, reading yields the capped number and ignores what follows the run. */
  lemma {:induction false} StrtoullDigits(s: string, n: nat)
    requires 0 < n <= |s| && AllDigits(s[..n])
    requires n < |s| ==> !IsDigit(s[n])
    ensures Strtoull(s).value == Capped(Decimal(s[..n]))
  {
    assert IsDigit(s[..n][0]);
    SpanUnique(s, IsSpace, 0);
    assert s[0..] == s;
    forall i | 0 <= i < n ensures IsDigit(s[i]) { assert IsDigit(s[..n][i]); }
    SpanUnique(s, IsDigit, n);
  }

  predicate EndsNumber(c: char) { !IsSpace(c) && c != '-' && c != '+' && !IsDigit(c) }

  lemma {:induction false} NumberStartStop(s: string, rest: string)
    requires rest != "" ==> EndsNumber(rest[0])
    ensures NumberStart(s + rest) == NumberStart(s)
    ensures IsNegative(s + rest) <==> IsNegative(s)
  {
    SpanStop(s, rest, IsSpace);
  }

  /** A character that is neither space, sign nor digit ends the reading, whatever follows it. */
  lemma {:induction false} StrtoullStop(s: string, rest: string)
    requires rest != "" ==> EndsNumber(rest[0])
    ensures Strtoull(s + rest) == Strtoull(s)
  {
    hide Span, Decimal;
    NumberStartStop(s, rest);
    var from := NumberStart(s);
    assert (s + rest)[from..] == s[from..] + rest;
    SpanStop(s[from..], rest, IsDigit);
    var n := Span(s[from..], IsDigit);
    assert (s[from..] + rest)[..n] == s[from..][..n];
  }
}
