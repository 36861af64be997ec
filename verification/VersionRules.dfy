/** What decides the comparison of two versions, said of the strings and character by character
    (tools/version.c, version_cmp, cmp_verstr, cmp_nondig, cmp_verchar). */
module VersionRules {
  import opened Chars
  import opened CNumber
  import opened VersionParse
  import opened VersionGrammar
  import opened VersionOrder
  import opened VersionFacts

  // ---------- Epoch, upstream part, revision ----------

  /** How two upstream parts with what follows them compare. */
  function PartOrder(us: string, rev: Option<string>, us': string, rev': Option<string>): int
  {
    var t, t' := Strtoull(RevisionPart(rev)).value, Strtoull(RevisionPart(rev')).value;
    CmpItems(Items(us, t), t, Items(us', t'), t')
  }

  function RevisionOrder(rev: Option<string>, rev': Option<string>): int
  {
    CmpItems(Items(rev.GetOr(""), 0), 0, Items(rev'.GetOr(""), 0), 0)
  }

  /** The smaller epoch makes the smaller version; between equal epochs the upstream parts decide, and between
      equal ones of these the revisions. */
  lemma {:induction false} EpochDecides(a: string, p: string, us: string, rev: Option<string>,
                                        b: string, p': string, us': string, rev': Option<string>)
    requires Glued(a, p, us, rev) && Glued(b, p', us', rev') && EpochValue(p) != EpochValue(p')
    ensures Compare(a, b) == if EpochValue(p) < EpochValue(p') then LT else GT
  {
    hide Strtoull, Items, CmpItems, Split, Glued, EpochValue;
    GluedParts(a, p, us, rev);
    GluedParts(b, p', us', rev');
  }

  lemma {:induction false} UpstreamDecides(a: string, p: string, us: string, rev: Option<string>,
                                           b: string, p': string, us': string, rev': Option<string>)
    requires Glued(a, p, us, rev) && Glued(b, p', us', rev') && EpochValue(p) == EpochValue(p')
    requires PartOrder(us, rev, us', rev') != 0
    ensures Compare(a, b) == if PartOrder(us, rev, us', rev') < 0 then LT else GT
  {
    hide Strtoull, Items, CmpItems, Split, Glued, EpochValue;
    GluedParts(a, p, us, rev);
    GluedParts(b, p', us', rev');
  }

  lemma {:induction false} RevisionDecides(a: string, p: string, us: string, rev: Option<string>,
                                           b: string, p': string, us': string, rev': Option<string>)
    requires Glued(a, p, us, rev) && Glued(b, p', us', rev') && EpochValue(p) == EpochValue(p')
    requires PartOrder(us, rev, us', rev') == 0
    ensures var r := RevisionOrder(rev, rev'); Compare(a, b) == if r < 0 then LT else if r > 0 then GT else EQ
  {
    hide Strtoull, Items, CmpItems, Split, Glued, EpochValue;
    GluedParts(a, p, us, rev);
    GluedParts(b, p', us', rev');
  }

  // ---------- The first difference ----------

  function PairAt(k: seq<Item>, t: nat, i: nat): Item { if i < |k| then k[i] else Item("", t) }

  /** The first pair in which two lists differ decides, a missing one read as (empty, tail): the runs of
      non-digits if they differ in order, otherwise the numbers. */
  lemma {:induction false} FirstPairDecides(k1: seq<Item>, t1: nat, k2: seq<Item>, t2: nat, i: nat)
    requires i < |k1| || i < |k2|
    requires forall j :: 0 <= j < i ==> PairAt(k1, t1, j) == PairAt(k2, t2, j)
    ensures var x, y := PairAt(k1, t1, i), PairAt(k2, t2, i);
            && (CmpRuns(x.nondig, y.nondig) != 0 ==> CmpItems(k1, t1, k2, t2) == CmpRuns(x.nondig, y.nondig))
            && (CmpRuns(x.nondig, y.nondig) == 0 && x.num < y.num ==> CmpItems(k1, t1, k2, t2) < 0)
            && (CmpRuns(x.nondig, y.nondig) == 0 && x.num > y.num ==> CmpItems(k1, t1, k2, t2) > 0)
    decreases i
  {
    if i == 0 {
    } else {
      var r1, r2 := RestItems(k1), RestItems(k2);
      assert PairAt(k1, t1, 0) == PairAt(k2, t2, 0);
      CmpRunsSame(PairAt(k1, t1, 0).nondig);
      forall j | 0 <= j < i
        ensures PairAt(r1, t1, j) == PairAt(k1, t1, j + 1) && PairAt(r2, t2, j) == PairAt(k2, t2, j + 1)
      {
      }
      assert PairAt(r1, t1, i - 1) == PairAt(k1, t1, i) && PairAt(r2, t2, i - 1) == PairAt(k2, t2, i);
      FirstPairDecides(r1, t1, r2, t2, i - 1);
    }
  }

  function CharOf(a: string, i: nat): char { if i < |a| then a[i] else '\0' }

  /** The first character in which two runs differ decides, the end of a run read as NUL. */
  lemma {:induction false} FirstCharDecides(a: string, b: string, i: nat)
    requires i < |a| || i < |b|
    requires forall j :: 0 <= j < i ==> CharOf(a, j) == CharOf(b, j)
    requires CharOf(a, i) != CharOf(b, i)
    ensures CmpRuns(a, b) == CmpVerchar(CharOf(a, i), CharOf(b, i))
    decreases i
  {
    if i == 0 {
    } else {
      assert CharOf(a, 0) == CharOf(b, 0);
      var r, s := RestChars(a), RestChars(b);
      forall j | 0 <= j < i ensures CharOf(r, j) == CharOf(a, j + 1) && CharOf(s, j) == CharOf(b, j + 1) {
      }
      assert CharOf(r, i - 1) == CharOf(a, i) && CharOf(s, i - 1) == CharOf(b, i);
      FirstCharDecides(r, s, i - 1);
    }
  }

  /** The order of characters: the tilde, the letters from `A` to `Z` and from `a` to `z`, the end of the run, and
      behind it the plus sign, the dot and the colon. */
  lemma {:induction false} CharOrder(c: char, d: char)
    requires 'A' <= c <= 'Z' || 'a' <= c <= 'z'
    requires 'A' <= d <= 'Z' || 'a' <= d <= 'z'
    ensures CmpVerchar('~', c) == -1 && CmpVerchar(c, '\0') == -1
    ensures CmpVerchar('\0', '+') == -1 && CmpVerchar('+', '.') == -1 && CmpVerchar('.', ':') == -1
    ensures c < d ==> CmpVerchar(c, d) == -1
  {
    assert c < d ==> c as int < d as int;
  }

  // ---------- Numbers ----------

  lemma {:induction false} CappedMeans(n: nat)
    ensures Capped(n) == if n <= 18446744073709551615 then n else 18446744073709551615
  {
  }

  lemma {:induction false} LeadingZero(s: string)
    requires AllDigits(s)
    ensures AllDigits("0" + s) && Decimal("0" + s) == Decimal(s)
  {
    if s == "" {
      assert ("0" + s)[..0] == "";
    } else {
      var k := |s| - 1;
      LeadingZero(s[..k]);
      assert ("0" + s)[..k + 1] == "0" + s[..k] && ("0" + s)[k + 1] == s[k];
    }
  }

  /** `strtoull` on a string made of white space, an optional sign, digits, and something else: the number, negated
      modulo 2^64 behind a minus sign, or 2^64-1 and ERANGE if it does not fit. */
  lemma {:induction false} StrtoullMeans(w: string, sign: string, digits: string, rest: string)
    requires (forall i :: 0 <= i < |w| ==> IsSpace(w[i])) && sign in {"", "+", "-"}
    requires digits != "" && AllDigits(digits) && (rest != "" ==> !IsDigit(rest[0]))
    ensures var r, n := Strtoull(w + (sign + (digits + rest))), Decimal(digits);
            && r.end == |w| + |sign| + |digits|
            && (r.range <==> n > 18446744073709551615)
            && r.value == if n > 18446744073709551615 then 18446744073709551615
                          else if sign == "-" && n != 0 then 18446744073709551616 - n else n
  {
    hide Span, Decimal;
    var s := w + (sign + (digits + rest));
    var tail := sign + (digits + rest);
    assert tail[0] == if sign == "" then digits[0] else sign[0];
    assert IsDigit(digits[0]);
    assert s[|w|] == tail[0];
    SpanUnique(s, IsSpace, |w|);
    var from := |w| + |sign|;
    assert NumberStart(s) == from;
    assert s[from..] == digits + rest;
    SpanUnique(digits, IsDigit, |digits|);
    SpanStop(digits, rest, IsDigit);
    assert (digits + rest)[..|digits|] == digits;
  }

  lemma {:induction false} NoSign(d: string)
    requires d != "" && AllDigits(d)
    ensures NumberStart(d) == 0 && '-' !in d && '+' !in d
  {
    assert IsDigit(d[0]);
    SpanUnique(d, IsSpace, 0);
  }

  /** An epoch may have any value up to 2^32-1 and no other, and counts as that number. */
  lemma {:induction false} EpochRange(n: nat)
    ensures IsEpochPrefix(Digits(n) + ":") <==> n <= 4294967295
    ensures n <= 4294967295 ==> EpochValue(Digits(n) + ":") == n
  {
    hide Span, Decimal, Digits, AllDigits;
    var d := Digits(n);
    var p := d + ":";
    DigitsRead(n);
    assert p[..|p| - 1] == d;
    NoSign(d);
    assert d[0..] == d;
  }

  // ---------- Accepted strings ----------

  predicate AsciiWord(s: string)
  {
    forall i :: 0 <= i < |s| ==>
      '0' <= s[i] <= '9' || 'A' <= s[i] <= 'Z' || 'a' <= s[i] <= 'z' || s[i] in {'+', '.', '~'}
  }

  lemma {:induction false} SplitAccepts(v: string)
    requires Split(v).Some?
    ensures Accepted(v)
  {
  }

  lemma {:induction false} Seams(v: string, p: string, us: string, rev: Option<string>)
    requires Glued(v, p, us, rev)
    ensures p != "" ==> ':' in v
    ensures rev.Some? ==> '-' in v
  {
    hide IsEpochNumber, IsUpstream, AllRevChars;
    assert p != "" ==> v[|p| - 1] == p[|p| - 1] == ':';
    assert rev.Some? ==> v[|p| + |us|] == '-';
  }

  lemma {:induction false} NoSeams(v: string, p: string, us: string, rev: Option<string>)
    requires Glued(v, p, us, rev) && ':' !in v && '-' !in v
    ensures p == "" && us == v && rev == None
  {
    Seams(v, p, us, rev);
  }

  /** Without epoch and revision, exactly the strings of ASCII letters, digits, plus signs, dots and tildes are
      accepted. */
  lemma {:induction false} AcceptedWord(v: string)
    requires ':' !in v && '-' !in v
    ensures Accepted(v) <==> AsciiWord(v)
    ensures Accepted(v) ==> Upstream(v) == v && Revision(v) == None
  {
    hide Split;
    if Accepted(v) {
      GlueBack(v);
      NoSeams(v, Prefix(v), Upstream(v), Revision(v));
    }
    if AsciiWord(v) {
      assert Glued(v, "", v, None) by {
        assert v == "" + v + "";
      }
      SplitGlued(v, "", v, None);
      assert Accepted(v) by { SplitAccepts(v); }
    }
  }

  lemma {:induction false} OneSeam(v: string, us: string, rev: string, p: string, us': string, rev': Option<string>)
    requires v == us + "-" + rev && ':' !in v && '-' !in us && Glued(v, p, us', rev')
    ensures p == "" && us' == us && rev' == Some(rev)
  {
    hide Find, IsUpstream, AllRevChars, IsEpochNumber;
    Seams(v, p, us', rev');
    HyphenOfGlued(v, p, us', rev');
    assert v[|us|] == '-' && forall i :: 0 <= i < |us| ==> v[i] == us[i];
    FindUnique(v, '-', |us|);
    assert us == v[..|us|] && rev == v[|us| + 1..];
    assert us' == v[..|us'|];
    assert rev'.Some? ==> rev'.value == v[|us'| + 1..];
  }

  /** The same with a revision behind a hyphen. */
  lemma {:induction false} AcceptedWithRevision(v: string, us: string, rev: string)
    requires v == us + "-" + rev && ':' !in v && '-' !in us
    ensures Accepted(v) <==> AsciiWord(us) && AsciiWord(rev)
    ensures Accepted(v) ==> Upstream(v) == us && Revision(v) == Some(rev)
  {
    hide Split;
    if Accepted(v) {
      GlueBack(v);
      OneSeam(v, us, rev, Prefix(v), Upstream(v), Revision(v));
    }
    if AsciiWord(us) && AsciiWord(rev) {
      assert Glued(v, "", us, Some(rev)) by {
        assert v == "" + us + ("-" + rev);
      }
      SplitGlued(v, "", us, Some(rev));
      SplitAccepts(v);
    }
  }
}
