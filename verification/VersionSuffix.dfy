/** What a suffix does to a version: one that starts with a tilde or a letter makes it smaller, any other that does not
    start with a digit makes it greater. The bootstrap stages append tildes. */
module VersionSuffix {
  import opened Chars
  import opened CNumber
  import opened VersionParse
  import opened VersionGrammar
  import opened VersionOrder
  import opened VersionFacts
  import opened VersionRules

  predicate Lowers(c: char) { c == '~' || 'A' <= c <= 'Z' || 'a' <= c <= 'z' }

  // ---------- Runs and pairs ----------

  lemma {:induction false} EndOrder(c: char)
    requires c != '\0'
    ensures CmpVerchar(c, '\0') == if Lowers(c) then -1 else 1
  {
  }

  lemma {:induction false} AfterRun(s: string, c: char, r: string)
    requires c != '\0'
    ensures CmpRuns(s + ([c] + r), s) == CmpVerchar(c, '\0')
  {
    EndOrder(c);
    if s == "" {
      assert s + ([c] + r) == [c] + r;
    } else {
      assert (s + ([c] + r))[1..] == s[1..] + ([c] + r);
      AfterRun(s[1..], c, r);
    }
  }

  lemma {:induction false} HeadDecides(k1: seq<Item>, k2: seq<Item>)
    requires k1 != [] && CmpRuns(k1[0].nondig, HeadItem(k2, 0).nondig) != 0
    ensures CmpItems(k1, 0, k2, 0) == CmpRuns(k1[0].nondig, HeadItem(k2, 0).nondig)
  {
    hide CmpRuns;
  }

  lemma {:induction false} SameHead(x: Item, k1: seq<Item>, k2: seq<Item>)
    ensures CmpItems([x] + k1, 0, [x] + k2, 0) == CmpItems(k1, 0, k2, 0)
  {
    CmpRunsSame(x.nondig);
  }

  lemma {:induction false} NonDigitRun(s: string, c: char, a: string)
    requires (forall i :: 0 <= i < |s| ==> IsNonDigit(s[i])) && IsNonDigit(c)
    requires forall i :: 0 <= i < |a| ==> IsNonDigit(a[i])
    ensures forall i :: 0 <= i < |s + ([c] + a)| ==> IsNonDigit((s + ([c] + a))[i])
  {
  }

  /** Behind a last run of non-digits, the suffix up to its first digit extends that run. */
  lemma {:induction false} ExtendedRun(s: string, c: char, r: string) returns (a: string)
    requires (forall i :: 0 <= i < |s| ==> IsNonDigit(s[i])) && IsNonDigit(c)
    ensures Items(s + ([c] + r), 0) != [] && Items(s + ([c] + r), 0)[0].nondig == s + ([c] + a)
  {
    hide Items, Decimal, Span, Capped;
    var b, rest;
    a, b, rest := Runs(r);
    NonDigitRun(s, c, a);
    Behind(s, [c], a, b + rest);
    ItemsStep(s + ([c] + r), s + ([c] + a), b, rest, 0);
  }

  lemma {:induction false} OnlyRun(s: string)
    requires forall i :: 0 <= i < |s| ==> IsNonDigit(s[i])
    ensures HeadItem(Items(s, 0), 0) == Item(s, 0)
  {
    if s != "" {
      assert s == s + ("" + "");
      ItemsStep(s, s, "", "", 0);
    }
  }

  lemma {:induction false} AfterLastRun(s: string, c: char, r: string)
    requires (forall i :: 0 <= i < |s| ==> IsNonDigit(s[i])) && IsNonDigit(c) && c != '\0'
    ensures CmpItems(Items(s + ([c] + r), 0), 0, Items(s, 0), 0) == CmpVerchar(c, '\0')
  {
    hide Items, CmpItems, CmpRuns, CmpVerchar;
    EndOrder(c);
    var a := ExtendedRun(s, c, r);
    OnlyRun(s);
    AfterRun(s, c, a);
    HeadDecides(Items(s + ([c] + r), 0), Items(s, 0));
  }

  lemma {:induction false} StillNonDigit(rest: string, t: string)
    requires t != "" && IsNonDigit(t[0]) && (rest != "" ==> IsNonDigit(rest[0]))
    ensures rest + t != "" && IsNonDigit((rest + t)[0])
  {
  }

  /** In the list of pairs the suffix either extends the last run or begins a new one. */
  lemma {:induction false} AfterItems(s: string, c: char, r: string)
    requires IsNonDigit(c) && c != '\0'
    ensures CmpItems(Items(s + ([c] + r), 0), 0, Items(s, 0), 0) == CmpVerchar(c, '\0')
    decreases |s|
  {
    hide Span, Items, CmpItems, CmpVerchar, Decimal, Capped;
    var t := [c] + r;
    var a, b, rest := Runs(s);
    if b == "" {
      assert s == a;
      AfterLastRun(s, c, r);
    } else {
      Behind(a, b, rest, t);
      ItemsStep(s, a, b, rest, 0);
      StillNonDigit(rest, t);
      ItemsStep(s + t, a, b, rest + t, 0);
      SameHead(Item(a, Capped(Decimal(b))), Items(rest + t, 0), Items(rest, 0));
      AfterItems(rest, c, r);
    }
  }

  // ---------- What is read behind the upstream part ----------

  /** The number read from a hyphen and a revision depends on the digits at the front of the revision alone. */
  lemma {:induction false} HyphenAndDigits(rev: string)
    ensures Strtoull("-" + rev).value == Convert(rev[..Span(rev, IsDigit)], true)
  {
    var s := "-" + rev;
    SpanUnique(s, IsSpace, 0);
    assert s[1..] == rev;
    assert rev[..0] == "";
  }

  lemma {:induction false} SameReading(rev: string, t: string)
    requires t != "" && !IsDigit(t[0])
    ensures Strtoull("-" + (rev + t)).value == Strtoull("-" + rev).value
  {
    hide Strtoull, Convert;
    HyphenAndDigits(rev);
    HyphenAndDigits(rev + t);
    SpanStop(rev, t, IsDigit);
    var n := Span(rev, IsDigit);
    assert (rev + t)[..n] == rev[..n];
  }

  lemma {:induction false} NoDigitsRead(t: string)
    requires t != "" && !IsDigit(t[0])
    ensures Strtoull("-" + t).value == 0
  {
    hide Strtoull;
    HyphenAndDigits(t);
    SpanUnique(t, IsDigit, 0);
    assert t[..0] == "";
  }

  // ---------- Versions ----------

  lemma {:induction false} AddSuffix(v: string, p: string, us: string, rev: Option<string>, t: string)
    requires Glued(v, p, us, rev) && AllRevChars(t)
    ensures rev.None? ==> Glued(v + t, p, us + t, None)
    ensures rev.Some? ==> Glued(v + t, p, us, Some(rev.value + t))
  {
    hide IsEpochPrefix;
    if rev.None? {
      assert v + t == p + (us + t) + "";
    } else {
      assert v + t == p + us + ("-" + (rev.value + t));
    }
  }

  /** A suffix of the upstream part of a version without revision. */
  lemma {:induction false} UpstreamSuffix(w: string, v: string, p: string, us: string, c: char, r: string)
    requires Glued(w, p, us + ([c] + r), None) && Glued(v, p, us, None) && IsNonDigit(c) && c != '\0'
    ensures Compare(w, v) == if Lowers(c) then LT else GT
  {
    hide Strtoull, Items, CmpItems, Compare, Glued, EpochValue, CmpVerchar;
    NothingToRead(RevisionPart(None));
    EndOrder(c);
    AfterItems(us, c, r);
    UpstreamDecides(w, p, us + ([c] + r), None, v, p, us, None);
  }

  /** A suffix of the revision, which may have been missing. */
  lemma {:induction false} RevisionSuffix(w: string, v: string, p: string, us: string, rev: Option<string>,
                                          c: char, r: string)
    requires Glued(w, p, us, Some(rev.GetOr("") + ([c] + r))) && Glued(v, p, us, rev) && IsNonDigit(c) && c != '\0'
    ensures Compare(w, v) == if Lowers(c) then LT else GT
  {
    hide Strtoull, Items, CmpItems, Compare, Glued, EpochValue, CmpVerchar;
    var rev' := rev.GetOr("") + ([c] + r);
    if rev.Some? {
      SameReading(rev.value, [c] + r);
    } else {
      assert rev' == [c] + r;
      NoDigitsRead(rev');
      NothingToRead(RevisionPart(None));
    }
    var t := Strtoull(RevisionPart(rev)).value;
    CmpItemsSame(Items(us, t), t);
    EndOrder(c);
    AfterItems(rev.GetOr(""), c, r);
    RevisionDecides(w, p, us, Some(rev'), v, p, us, rev);
  }

  /** Behind any accepted version, a suffix of revision characters that starts with a tilde or a letter makes it
      strictly smaller, and one that starts with a plus sign or a dot makes it strictly greater. */
  lemma {:induction false} SuffixDecides(v: string, c: char, r: string)
    requires Accepted(v) && AllRevChars([c] + r) && !IsDigit(c)
    ensures Compare(v + ([c] + r), v) == if Lowers(c) then LT else GT
  {
    hide Split, Glued, Compare;
    var p, us, rev, t := Prefix(v), Upstream(v), Revision(v), [c] + r;
    GlueBack(v);
    assert IsRevChar(t[0]);
    AddSuffix(v, p, us, rev, t);
    if rev.None? {
      UpstreamSuffix(v + t, v, p, us, c, r);
    } else {
      RevisionSuffix(v + t, v, p, us, rev, c, r);
    }
  }

  lemma {:induction false} NewRevision(v: string, p: string, us: string, t: string)
    requires Glued(v, p, us, None) && AllRevChars(t)
    ensures Glued(v + ("-" + t), p, us, Some(t))
  {
    hide IsEpochPrefix, IsUpstream;
    assert v == p + us;
  }

  /** The same for a hyphen and such a suffix behind an accepted version without revision. */
  lemma {:induction false} HyphenSuffixDecides(v: string, c: char, r: string)
    requires Accepted(v) && Revision(v) == None && AllRevChars([c] + r) && !IsDigit(c)
    ensures Compare(v + ("-" + ([c] + r)), v) == if Lowers(c) then LT else GT
  {
    hide Split, Compare;
    var p, us, t := Prefix(v), Upstream(v), [c] + r;
    GlueBack(v);
    assert IsRevChar(t[0]);
    NewRevision(v, p, us, t);
    assert "" + t == t;
    RevisionSuffix(v + ("-" + t), v, p, us, None, c, r);
  }
}
