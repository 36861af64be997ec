/** The parts of the C library's character and string functions that the tools rely on,
    in the C locale and over strings without embedded NULs. */
module Chars {
  datatype Option<+T> = None | Some(value: T) {
    function GetOr(default: T): T { if Some? then value else default }
  }

  predicate IsDigit(c: char) { '0' <= c <= '9' }

  predicate IsNonDigit(c: char) { !IsDigit(c) }

  predicate IsAlpha(c: char) { 'a' <= c <= 'z' || 'A' <= c <= 'Z' }

  predicate IsAlnum(c: char) { IsDigit(c) || IsAlpha(c) }

  predicate IsSpace(c: char) { c == ' ' || '\t' <= c <= '\r' }

  /** The length of the longest prefix of `s` whose characters all satisfy `p`. */
  function Span(s: string, p: char -> bool): (n: nat)
    ensures n <= |s|
    ensures forall i :: 0 <= i < n ==> p(s[i])
    ensures n < |s| ==> !p(s[n])
  {
    if s == "" || !p(s[0]) then 0 else 1 + Span(s[1..], p)
  }

  lemma {:induction false} SpanUnique(s: string, p: char -> bool, n: nat)
    requires n <= |s|
    requires forall i :: 0 <= i < n ==> p(s[i])
    requires n < |s| ==> !p(s[n])
    ensures Span(s, p) == n
  {
    if n == 0 {
    } else {
      assert p(s[0]);
      SpanUnique(s[1..], p, n - 1);
    }
  }

  /** A character outside `p` stops the span, whatever follows it. */
  lemma {:induction false} SpanStop(s: string, rest: string, p: char -> bool)
    requires rest != "" ==> !p(rest[0])
    ensures Span(s + rest, p) == Span(s, p)
  {
    var n := Span(s, p);
    assert n < |s| ==> (s + rest)[n] == s[n];
    SpanUnique(s + rest, p, n);
  }

  /** strchr: the index of the first `c` in `s`, or `|s|` when there is none. */
  function Find(s: string, c: char): (n: nat)
    ensures n <= |s|
    ensures c !in s[..n]
    ensures n < |s| ==> s[n] == c
  {
    if s == "" || s[0] == c then 0 else
    var n := 1 + Find(s[1..], c);
    assert s[..n] == [s[0]] + s[1..][..n - 1];
    n
  }

  lemma {:induction false} FindUnique(s: string, c: char, n: nat)
    requires n <= |s| && c !in s[..n]
    requires n < |s| ==> s[n] == c
    ensures Find(s, c) == n
  {
    if n == 0 {
    } else {
      assert s[..n] == [s[0]] + s[1..][..n - 1];
      FindUnique(s[1..], c, n - 1);
    }
  }
}
