/** The loops of `version_cmp` (tools/version.c), proved to compute the order of module VersionOrder.
    A C pointer into a string is the suffix that starts there. */
module VersionLoops {
  import opened Chars
  import opened CNumber
  import opened VersionParse
  import opened VersionGrammar
  import opened VersionOrder
  import opened VersionFacts

  /** What is left of `s` at offset `i`, which may lie behind its end. */
  function From(s: string, i: nat): string { if i < |s| then s[i..] else "" }

  method CmpNondig(s1: string, len1: nat, s2: string, len2: nat) returns (ret: int)
    requires len1 <= |s1| && len2 <= |s2|
    ensures ret == CmpRuns(s1[..len1], s2[..len2])
  {
    var a, b := s1[..len1], s2[..len2];
    var i := 0;
    while i < len1 || i < len2
      invariant i <= len1 || i <= len2
      invariant CmpRuns(a, b) == CmpRuns(From(a, i), From(b, i))
      decreases len1 + len2 - i
    {
      var c1 := if i < len1 then s1[i] else '\0';
      var c2 := if i < len2 then s2[i] else '\0';
      var r := CmpVerchar(c1, c2);
      assert HeadChar(From(a, i)) == c1 && HeadChar(From(b, i)) == c2;
      if r < 0 {
        return -1;
      } else if r > 0 {
        return 1;
      }
      assert RestChars(From(a, i)) == From(a, i + 1) && RestChars(From(b, i)) == From(b, i + 1);
      i := i + 1;
    }
    return 0;
  }

  /** The lengths are ignored: reading stops at the first character that is no digit. */
  method CmpDig(s1: string, s2: string) returns (ret: int)
    ensures ret == Sign(Strtoull(s1).value - Strtoull(s2).value)
  {
    var u1, u2 := Strtoull(s1).value, Strtoull(s2).value;
    if u1 < u2 {
      return -1;
    } else if u1 > u2 {
      return 1;
    }
    return 0;
  }

  /** The inner loops that step over a run of digits or of non-digits within the part. */
  method SkipRun(s: string, len: nat, from: nat, p: char -> bool) returns (i: nat, l: nat)
    requires from <= len <= |s|
    ensures i == from + l && l == Span(s[from..len], p) && i <= len
  {
    i, l := from, 0;
    while i < len && p(s[i])
      invariant from <= i <= len && l == i - from
      invariant forall j :: from <= j < i ==> p(s[j])
    {
      i, l := i + 1, l + 1;
    }
    SpanUnique(s[from..len], p, l);
  }

  /** No digit follows the part, so that a number at its end is read in full and no further. */
  predicate EndsPart(s: string, len: nat)
  {
    len <= |s| && (len < |s| ==> !IsDigit(s[len]))
  }

  function TailOf(s: string, len: nat): nat
    requires len <= |s|
  {
    Strtoull(s[len..]).value
  }

  /** The pairs of what is left of a part. */
  function Left(s: string, len: nat, i: nat): seq<Item>
    requires i <= len <= |s|
  {
    Items(s[i..len], TailOf(s, len))
  }

  /** The number read at offset `j` is that of the run of digits there, or else what lies behind the part. */
  lemma {:induction false} NumberAt(s: string, len: nat, j: nat, k: nat)
    requires EndsPart(s, len) && j <= k <= len
    requires forall x :: j <= x < k ==> IsDigit(s[x])
    requires k < len ==> !IsDigit(s[k])
    requires j == k ==> k == len
    ensures AllDigits(s[j..k])
    ensures Strtoull(s[j..]).value == if j == k then TailOf(s, len) else Capped(Decimal(s[j..k]))
  {
    if j < k {
      assert s[j..][..k - j] == s[j..k];
      StrtoullDigits(s[j..], k - j);
    }
  }

  lemma {:induction false} SpanWithin(s: string, len: nat, from: nat, to: nat, p: char -> bool)
    requires from <= to <= len <= |s| && to - from == Span(s[from..len], p)
    ensures forall x :: from <= x < to ==> p(s[x])
    ensures to < len ==> !p(s[to])
  {
    var t := s[from..len];
    assert forall x :: from <= x < to ==> s[x] == t[x - from];
    assert to < len ==> t[to - from] == s[to];
  }

  lemma {:induction false} Pieces(s: string, i: nat, j: nat, k: nat, len: nat)
    requires i <= j <= k <= len <= |s|
    ensures s[i..len] == s[i..j] + (s[j..k] + s[k..len])
    ensures k < len ==> s[k..len][0] == s[k]
  {
  }

  /** One round of cmp_verstr on one string: the first pair is the run and the number read behind it. */
  lemma {:induction false} Round(s: string, len: nat, i: nat, j: nat, k: nat)
    requires EndsPart(s, len) && i <= j <= k <= len
    requires j - i == Span(s[i..len], IsNonDigit) && k - j == Span(s[j..len], IsDigit)
    ensures HeadItem(Left(s, len, i), TailOf(s, len)) == Item(s[i..j], Strtoull(s[j..]).value)
    ensures RestItems(Left(s, len, i)) == Left(s, len, k)
  {
    hide Span, Strtoull, Decimal;
    SpanWithin(s, len, i, j, IsNonDigit);
    SpanWithin(s, len, j, k, IsDigit);
    NumberAt(s, len, j, k);
    if i < len {
      Pieces(s, i, j, k, len);
      ItemsStep(s[i..len], s[i..j], s[j..k], s[k..len], TailOf(s, len));
    }
  }

  /** The comparison of what is left of two parts. */
  function Remaining(s1: string, len1: nat, i1: nat, s2: string, len2: nat, i2: nat): int
    requires i1 <= len1 <= |s1| && i2 <= len2 <= |s2|
  {
    CmpItems(Left(s1, len1, i1), TailOf(s1, len1), Left(s2, len2, i2), TailOf(s2, len2))
  }

  lemma {:induction false} CmpItemsStep(k1: seq<Item>, t1: nat, k2: seq<Item>, t2: nat)
    ensures CmpItems(k1, t1, k2, t2)
         == Then(CmpItem(HeadItem(k1, t1), HeadItem(k2, t2)), CmpItems(RestItems(k1), t1, RestItems(k2), t2))
       || (k1 == [] && k2 == [])
  {
  }

  lemma {:induction false} NotDone(s: string, len: nat, i: nat)
    requires i <= len <= |s|
    ensures Left(s, len, i) == [] <==> i == len
  {
  }

  /** One round on both strings: the runs decide, then the numbers, then what is left. */
  lemma {:induction false} Rounds(s1: string, len1: nat, i1: nat, j1: nat, k1: nat,
                                  s2: string, len2: nat, i2: nat, j2: nat, k2: nat)
    requires EndsPart(s1, len1) && i1 <= j1 <= k1 <= len1
    requires j1 - i1 == Span(s1[i1..len1], IsNonDigit) && k1 - j1 == Span(s1[j1..len1], IsDigit)
    requires EndsPart(s2, len2) && i2 <= j2 <= k2 <= len2
    requires j2 - i2 == Span(s2[i2..len2], IsNonDigit) && k2 - j2 == Span(s2[j2..len2], IsDigit)
    requires i1 < len1 || i2 < len2
    ensures Remaining(s1, len1, i1, s2, len2, i2)
         == Then(CmpRuns(s1[i1..j1], s2[i2..j2]),
                 Then(Sign(Strtoull(s1[j1..]).value - Strtoull(s2[j2..]).value), Remaining(s1, len1, k1, s2, len2, k2)))
  {
    hide Items, Strtoull, CmpRuns, CmpItems, Span;
    Round(s1, len1, i1, j1, k1);
    Round(s2, len2, i2, j2, k2);
    NotDone(s1, len1, i1);
    NotDone(s2, len2, i2);
    CmpItemsStep(Left(s1, len1, i1), TailOf(s1, len1), Left(s2, len2, i2), TailOf(s2, len2));
  }

  lemma {:induction false} AllDone(s1: string, len1: nat, s2: string, len2: nat)
    requires len1 <= |s1| && len2 <= |s2|
    ensures Remaining(s1, len1, len1, s2, len2, len2) == 0
  {
  }

  method CmpVerstr(s1: string, len1: nat, s2: string, len2: nat) returns (ret: int)
    requires EndsPart(s1, len1) && EndsPart(s2, len2)
    ensures ret == Remaining(s1, len1, 0, s2, len2, 0)
  {
    hide CmpItems, Items, CmpRuns, Strtoull, Span, TailOf;
    var i1: nat, i2: nat := 0, 0;
    while i1 < len1 || i2 < len2
      invariant i1 <= len1 && i2 <= len2
      invariant Remaining(s1, len1, i1, s2, len2, i2) == Remaining(s1, len1, 0, s2, len2, 0)
      decreases len1 - i1 + (len2 - i2)
    {
      var j1, l1 := SkipRun(s1, len1, i1, IsNonDigit);
      var j2, l2 := SkipRun(s2, len2, i2, IsNonDigit);
      ret := CmpNondig(s1[i1..], l1, s2[i2..], l2);
      var k1, _ := SkipRun(s1, len1, j1, IsDigit);
      var k2, _ := SkipRun(s2, len2, j2, IsDigit);
      assert s1[i1..][..l1] == s1[i1..j1] && s2[i2..][..l2] == s2[i2..j2];
      Rounds(s1, len1, i1, j1, k1, s2, len2, i2, j2, k2);
      if ret != 0 {
        return;
      }
      ret := CmpDig(s1[j1..], s2[j2..]);
      if ret != 0 {
        return;
      }
      i1, i2 := k1, k2;
    }
    AllDone(s1, len1, s2, len2);
    return 0;
  }

  /** Where the parts are: a hyphen follows the first one, if anything does, and the second one ends the string. */
  lemma {:induction false} PartPlaces(v: string)
    requires Accepted(v)
    ensures var c := Split(v).value;
            && c.usAt + c.usLen <= |v| && c.revAt + c.revLen == |v|
            && (c.usAt + c.usLen < |v| ==> v[c.usAt + c.usLen] == '-')
            && v[c.usAt..][..c.usLen] == Upstream(v) && v[c.revAt..][..c.revLen] == Revision(v).GetOr("")
  {
    hide ReadEpoch, RevisionOk, UpstreamOk;
  }

  /** Neither part is followed by a digit, and what cmp_verstr sees of the parts is the key. */
  lemma {:induction false} PartEnds(v: string)
    requires Accepted(v)
    ensures var c := Split(v).value;
            && c.usAt + c.usLen <= |v| && c.revAt <= |v|
            && EndsPart(v[c.usAt..], c.usLen) && EndsPart(v[c.revAt..], c.revLen)
            && Left(v[c.usAt..], c.usLen, 0) == KeyOf(v).upstream && TailOf(v[c.usAt..], c.usLen) == KeyOf(v).tail
            && Left(v[c.revAt..], c.revLen, 0) == KeyOf(v).revision && TailOf(v[c.revAt..], c.revLen) == 0
  {
    hide Split, Strtoull, Items;
    var c := Split(v).value;
    PartPlaces(v);
    var up, rev := v[c.usAt..], v[c.revAt..];
    assert c.usLen < |up| ==> up[c.usLen] == v[c.usAt + c.usLen];
    assert up[0..c.usLen] == Upstream(v) && rev[0..c.revLen] == Revision(v).GetOr("");
    NothingToRead(rev[c.revLen..]);
  }

  /** The whole comparison, with the result of each part turned into an answer as soon as it is not zero. */
  method VersionCmp(v1: CString, v2: CString) returns (r: VerResult)
    ensures r == Compare(v1, v2)
  {
    hide Split, CmpItems, Left, TailOf, Items, Tail;
    var ok1, e1, us1, us1l, rev1, rev1l := ParseCoarse(v1);
    if !ok1 {
      return FAILED;
    }
    var ok2, e2, us2, us2l, rev2, rev2l := ParseCoarse(v2);
    if !ok2 {
      return FAILED;
    }
    PartEnds(v1);
    PartEnds(v2);
    if e1 < e2 {
      return LT;
    } else if e1 > e2 {
      return GT;
    }
    var ret := CmpVerstr(v1[us1..], us1l, v2[us2..], us2l);
    if ret < 0 {
      return LT;
    } else if ret > 0 {
      return GT;
    }
    ret := CmpVerstr(v1[rev1..], rev1l, v2[rev2..], rev2l);
    if ret < 0 {
      return LT;
    } else if ret > 0 {
      return GT;
    }
    return EQ;
  }
}
