/** Consequences of the version order: exactly which versions are ordered consistently,
    and why the suffixes appended by the bootstrap stages sort before the version they extend. */
module VersionFacts {
  import opened Chars
  import opened CNumber
  import opened VersionParse
  import opened VersionGrammar
  import opened VersionOrder

  lemma {:induction false} TwoSlices(a: string, b: string)
    ensures (a + b)[..|a|] == a && (a + b)[|a|..] == b
  {
  }

  lemma {:induction false} GluedSlices(v: string, p: string, us: string, rev: Option<string>)
    requires v == p + us + RevisionPart(rev)
    ensures v[..|p|] == p && v[|p|..][..|us|] == us && v[|p|..][|us|..] == RevisionPart(rev)
    ensures rev.Some? ==> |p| + |us| < |v| && v[|p| + |us| + 1..][..|rev.value|] == rev.value
  {
    var r := RevisionPart(rev);
    assert v == p + (us + r);
    TwoSlices(p, us + r);
    TwoSlices(us, r);
    if rev.Some? {
      assert v == (p + us + "-") + rev.value;
      TwoSlices(p + us + "-", rev.value);
    }
  }

  lemma {:induction false} GluedIs(v: string, p: string, us: string, rev: Option<string>)
    requires Glued(v, p, us, rev)
    ensures v == p + us + RevisionPart(rev)
  {
  }

  /** A version glued from parts has those parts, and no other glueing. */
  lemma {:induction false} GluedParts(v: string, p: string, us: string, rev: Option<string>)
    requires Glued(v, p, us, rev)
    ensures Accepted(v) && Prefix(v) == p && Upstream(v) == us && Revision(v) == rev
    ensures Tail(v) == Strtoull(RevisionPart(rev)).value
    ensures KeyOf(v) == Key(EpochValue(p), Items(us, Tail(v)), Tail(v), Items(rev.GetOr(""), 0))
  {
    hide Strtoull, Items, Split, Glued, EpochValue;
    SplitGlued(v, p, us, rev);
    GluedIs(v, p, us, rev);
    GluedSlices(v, p, us, rev);
  }

  lemma {:induction false} NothingToRead(s: string)
    requires s == ""
    ensures Strtoull(s).value == 0
  {
  }

  /** Behind the upstream part strtoull takes the hyphen for a sign. */
  lemma {:induction false} HyphenReads(rev: string)
    ensures Strtoull("-" + rev).value != 0 <==> Decimal(rev[..Span(rev, IsDigit)]) != 0
  {
    var s := "-" + rev;
    SpanUnique(s, IsSpace, 0);
    assert s[1..] == rev;
  }

  /** The revision's first number, which may be capped but never becomes zero. */
  lemma {:induction false} FirstNumber(rev: string)
    requires rev != "" && IsDigit(rev[0])
    ensures Items(rev, 0) != []
    ensures Items(rev, 0)[0] == Item("", Capped(Decimal(rev[..Span(rev, IsDigit)])))
  {
    SpanUnique(rev, IsNonDigit, 0);
    assert rev[0..] == rev;
  }

  lemma {:induction false} PlainIsRegular(v: string)
    requires Plain(v)
    ensures Regular(v)
  {
    GlueBack(v);
    GluedParts(v, Prefix(v), Upstream(v), Revision(v));
    var rev := Revision(v).GetOr("");
    HyphenReads(rev);
    if rev != "" && !IsDigit(rev[0]) {
      SpanUnique(rev, IsDigit, 0);
    }
  }

  lemma {:induction false} NoOpenRun(s: string, tail: nat)
    requires s != "" ==> IsDigit(s[|s| - 1])
    ensures Items(s, tail) == Items(s, 0)
    decreases |s|
  {
    if s == "" {
    } else {
      var a, b, rest := Runs(s);
      ItemsStep(s, a, b, rest, tail);
      ItemsStep(s, a, b, rest, 0);
      assert rest != "" ==> rest[|rest| - 1] == s[|s| - 1];
      NoOpenRun(rest, tail);
    }
  }

  lemma {:induction false} PlainTail(v: string, rev: string)
    requires rev == "" || !IsDigit(rev[0])
    ensures Strtoull("-" + rev).value == 0 && Strtoull("").value == 0
  {
    NothingToRead("");
    HyphenReads(rev);
    SpanUnique(rev, IsDigit, 0);
    assert rev[..0] == "";
  }

  lemma {:induction false} PlainItems(v: string)
    requires Plain(v)
    ensures RegularKey(KeyOf(v)) && KeyOf(v).upstream == Items(Upstream(v), 0)
  {
    PlainIsRegular(v);
    RegularHasKey(v);
    var us, rev := Upstream(v), Revision(v).GetOr("");
    if us != "" && IsDigit(us[|us| - 1]) {
      NoOpenRun(us, Tail(v));
    } else {
      GlueBack(v);
      GluedParts(v, Prefix(v), us, Revision(v));
      if rev == "" || !IsDigit(rev[0]) {
        PlainTail(v, rev);
      }
    }
  }

  /** On plain versions every number of the upstream part is that of its own digits, and missing ones are zero:
      the comparison of two upstream parts does not look at what follows them. */
  lemma {:induction false} PlainUpstreamOrder(a: string, b: string)
    requires Plain(a) && Plain(b)
    ensures UpstreamOrder(KeyOf(a), KeyOf(b)) == CmpItems(Items(Upstream(a), 0), 0, Items(Upstream(b), 0), 0)
  {
    PlainItems(a);
    PlainItems(b);
    RegularUpstream(KeyOf(a), KeyOf(b));
  }

  // ---------- What is read behind the upstream part ----------

  /** The number with which a revision starts, zero if it starts with none. */
  function LeadingNumber(rev: string): nat { Decimal(rev[..Span(rev, IsDigit)]) }

  /** What is read behind the upstream part is zero exactly if there is no revision, or one that starts
      with no number or with zero. */
  lemma {:induction false} TailIsZero(v: string)
    requires Accepted(v)
    ensures Tail(v) == 0 <==> Revision(v) == None || LeadingNumber(Revision(v).value) == 0
  {
    hide Strtoull, Split, Items, Glued;
    GlueBack(v);
    GluedParts(v, Prefix(v), Upstream(v), Revision(v));
    NothingToRead("");
    HyphenReads(Revision(v).GetOr(""));
  }

  /** Regular versions, told from the string: the upstream part is not empty, or the revision starts with no number
      but zero. */
  lemma {:induction false} RegularMeans(v: string)
    requires Accepted(v)
    ensures Regular(v) <==> Upstream(v) != "" || Revision(v) == None || LeadingNumber(Revision(v).value) == 0
  {
    TailIsZero(v);
  }

  /** A string that does not end in a digit does not end with a run of digits. */
  lemma {:induction false} SameEnd(a: string, b: string, rest: string)
    requires b != "" && AllDigits(b) && !IsDigit((a + (b + rest))[|a| + |b| + |rest| - 1])
    ensures rest != "" && rest[|rest| - 1] == (a + (b + rest))[|a| + |b| + |rest| - 1]
  {
  }

  lemma {:induction false} DifferentItems(x: Item, y: Item, k: seq<Item>, l: seq<Item>)
    requires x != y || k != l
    ensures [x] + k != [y] + l
  {
    assert ([x] + k)[0] == x && ([y] + l)[0] == y;
    assert ([x] + k)[1..] == k && ([y] + l)[1..] == l;
  }

  lemma {:induction false} OpenRun(s: string, tail: nat)
    requires s != "" && !IsDigit(s[|s| - 1]) && tail != 0
    ensures Items(s, tail) != Items(s, 0)
    decreases |s|
  {
    hide Items, Span, Decimal, Capped;
    var a, b, rest := Runs(s);
    ItemsStep(s, a, b, rest, tail);
    ItemsStep(s, a, b, rest, 0);
    if b == "" {
      DifferentItems(Item(a, tail), Item(a, 0), Items(rest, tail), Items(rest, 0));
    } else {
      SameEnd(a, b, rest);
      OpenRun(rest, tail);
      var x := Item(a, Capped(Decimal(b)));
      DifferentItems(x, x, Items(rest, tail), Items(rest, 0));
    }
  }

  /** The pairs that cmp_verstr sees hold nothing but the upstream part's own runs and numbers exactly if the part is
      empty or ends in a digit, or the revision starts with no number but zero. Otherwise the last number of the part
      is read from the hyphen and the revision behind it. */
  lemma {:induction false} ReadsWithin(v: string)
    requires Accepted(v)
    ensures var us := Upstream(v);
            KeyOf(v).upstream == Items(us, 0) <==>
              || us == "" || IsDigit(us[|us| - 1])
              || Revision(v) == None || LeadingNumber(Revision(v).value) == 0
  {
    hide Items, Split, Strtoull, LeadingNumber;
    var us := Upstream(v);
    TailIsZero(v);
    if us == "" || IsDigit(us[|us| - 1]) {
      NoOpenRun(us, Tail(v));
    } else if Tail(v) != 0 {
      OpenRun(us, Tail(v));
    }
  }

  lemma {:induction false} FiveLeads(rev: string)
    requires rev == "5"
    ensures LeadingNumber(rev) == 5
  {
    SpanUnique(rev, IsDigit, 1);
    assert rev[..1] == rev && rev[..0] == "";
    assert Decimal(rev) == 10 * Decimal(rev[..0]) + 5;
  }

  /** The version `1.a-5` is regular, and its part `1.a` is compared with the number of `-5` behind its last run. */
  lemma {:induction false} ReadsPastEnd(v: string, us: string, rev: string)
    requires us == "1.a" && rev == "5" && v == us + "-" + rev
    ensures Accepted(v) && Upstream(v) == us && Regular(v) && KeyOf(v).upstream != Items(us, 0)
  {
    hide Items, Split, Strtoull, LeadingNumber;
    assert Glued(v, "", us, Some(rev)) by {
      assert v == "" + us + ("-" + rev);
    }
    GluedParts(v, "", us, Some(rev));
    FiveLeads(rev);
    ReadsWithin(v);
  }

  // ---------- Versions that are not regular ----------

  lemma {:induction false} IrregularKey(v: string)
    requires Accepted(v) && !Regular(v)
    ensures var k := KeyOf(v);
            k.upstream == [] && k.tail > 0 && k.revision != [] && k.revision[0].nondig == "" && k.revision[0].num > 0
  {
    hide Strtoull, Split;
    GlueBack(v);
    GluedParts(v, Prefix(v), "", Revision(v));
    NothingToRead("");
    var rev := Revision(v).value;
    HyphenReads(rev);
    FirstNumber(rev);
  }

  /** The two regular versions that, together with an irregular one, are ordered in a circle. */
  function LowerWitness(v: string): string
    requires Accepted(v)
  {
    Prefix(v) + "" + RevisionPart(Some("+"))
  }

  function UpperWitness(v: string): string
    requires Accepted(v)
  {
    Prefix(v) + "1" + RevisionPart(None)
  }

  lemma {:induction false} PlusItems(rev: string)
    requires rev == "+"
    ensures Strtoull("-" + rev).value == 0 && Items(rev, 0) == [Item("+", 0)]
  {
    HyphenReads(rev);
    SpanUnique(rev, IsDigit, 0);
    assert rev == rev + ("" + "");
    ItemsStep(rev, rev, "", "", 0);
  }

  lemma {:induction false} OneItems(us: string)
    requires us == "1"
    ensures Items(us, 0) == [Item("", 1)]
  {
    assert us == "" + (us + "") && us[..0] == "";
    ItemsStep(us, "", us, "", 0);
  }

  /** The key of a version made from the epoch prefix of another one. */
  lemma {:induction false} WitnessKey(v: string, w: string, us: string, rev: Option<string>)
    requires Accepted(v) && w == Prefix(v) + us + RevisionPart(rev)
    requires AllRevChars(us) && (rev.Some? ==> AllRevChars(rev.value))
    ensures Accepted(w) && Upstream(w) == us && Tail(w) == Strtoull(RevisionPart(rev)).value
    ensures KeyOf(w) == Key(KeyOf(v).epoch, Items(us, Tail(w)), Tail(w), Items(rev.GetOr(""), 0))
  {
    hide Strtoull, Items;
    GlueBack(v);
    assert Glued(w, Prefix(v), us, rev);
    GluedParts(w, Prefix(v), us, rev);
  }

  lemma {:induction false} LowerWitnessKey(v: string, rev: string)
    requires Accepted(v) && rev == "+"
    ensures Regular(LowerWitness(v)) && KeyOf(LowerWitness(v)) == Key(KeyOf(v).epoch, [], 0, [Item("+", 0)])
  {
    hide Split, Strtoull;
    PlusItems(rev);
    WitnessKey(v, LowerWitness(v), "", Some(rev));
  }

  lemma {:induction false} UpperWitnessKey(v: string, us: string)
    requires Accepted(v) && us == "1"
    ensures Regular(UpperWitness(v)) && KeyOf(UpperWitness(v)) == Key(KeyOf(v).epoch, [Item("", 1)], 0, [])
  {
    hide Split, Strtoull;
    OneItems(us);
    NothingToRead("");
    WitnessKey(v, UpperWitness(v), us, None);
  }

  lemma {:induction false} KeyCircle(k: Key)
    requires k.upstream == [] && k.tail > 0
    requires k.revision != [] && k.revision[0].nondig == "" && k.revision[0].num > 0
    ensures var x, z := Key(k.epoch, [], 0, [Item("+", 0)]), Key(k.epoch, [Item("", 1)], 0, []);
            KeyOrder(k, x) < 0 && KeyOrder(x, z) < 0 && KeyOrder(k, z) > 0
  {
  }

  lemma {:induction false} IrregularCircle(v: string)
    requires Accepted(v) && !Regular(v)
    ensures Regular(LowerWitness(v)) && Regular(UpperWitness(v))
    ensures Compare(v, LowerWitness(v)) == LT
    ensures Compare(LowerWitness(v), UpperWitness(v)) == LT
    ensures Compare(v, UpperWitness(v)) == GT
  {
    LowerWitnessKey(v, "+");
    UpperWitnessKey(v, "1");
    IrregularKey(v);
    KeyCircle(KeyOf(v));
  }

  /** Exactly the regular versions are ordered consistently: a version is regular if and only if
      it never breaks transitivity together with regular versions. */
  lemma {:induction false} RegularExactly(v: string)
    requires Accepted(v)
    ensures Regular(v) <==>
            forall x, z :: Regular(x) && Regular(z) && Compare(v, x) == LT && Compare(x, z) == LT
                           ==> Compare(v, z) == LT
  {
    if Regular(v) {
      forall x, z | Regular(x) && Regular(z) && Compare(v, x) == LT && Compare(x, z) == LT
        ensures Compare(v, z) == LT
      {
        CompareComposes(v, x, z);
      }
    } else {
      IrregularCircle(v);
    }
  }

  /** Irregular versions exist, so the order of all accepted versions has circles. */
  lemma {:induction false} IrregularExample(v: string, rev: string)
    requires v == "-" + rev && rev == "5"
    ensures Accepted(v) && !Regular(v)
  {
    assert Glued(v, "", "", Some(rev)) by {
      assert v == "" + "" + v;
    }
    GluedParts(v, "", "", Some(rev));
    FiveLeads(rev);
    RegularMeans(v);
  }

  // ---------- When two versions compare equal ----------

  lemma {:induction false} CmpRunsZero(a: string, b: string)
    requires NoNul(a) && NoNul(b)
    ensures CmpRuns(a, b) == 0 <==> a == b
    decreases |a| + |b|
  {
    if a == "" || b == "" {
    } else {
      CmpRunsZero(a[1..], b[1..]);
      assert a == [a[0]] + a[1..] && b == [b[0]] + b[1..];
    }
  }

  lemma {:induction false} NoNulParts(a: string, b: string, rest: string)
    requires NoNul(a + (b + rest))
    ensures NoNul(a) && NoNul(rest)
  {
    var s := a + (b + rest);
    assert forall i :: 0 <= i < |a| ==> a[i] == s[i];
    assert forall i :: 0 <= i < |rest| ==> rest[i] == s[|a| + |b| + i];
  }

  lemma {:induction false} NoItems(tail: nat)
    ensures Items("", tail) == []
  {
  }

  lemma {:induction false} ItemsNoNul(s: string, tail: nat)
    requires NoNul(s)
    ensures forall i :: 0 <= i < |Items(s, tail)| ==> NoNul(Items(s, tail)[i].nondig)
    decreases |s|
  {
    hide Items, Span, Decimal, Capped, NoNul;
    if s == "" {
      NoItems(tail);
    } else {
      var a, b, rest := Runs(s);
      ItemsStep(s, a, b, rest, tail);
      NoNulParts(a, b, rest);
      ItemsNoNul(rest, tail);
    }
  }

  /** Lists all of whose runs are non-empty. */
  predicate LaterKeys(k: seq<Item>) { forall i :: 0 <= i < |k| ==> StartsNonDigit(k[i]) && NoNul(k[i].nondig) }

  lemma {:induction false} LaterZero(k1: seq<Item>, k2: seq<Item>)
    requires LaterKeys(k1) && LaterKeys(k2)
    ensures CmpItems(k1, 0, k2, 0) == 0 <==> k1 == k2
    decreases |k1| + |k2|
  {
    if k1 == [] || k2 == [] {
    } else {
      CmpRunsZero(k1[0].nondig, k2[0].nondig);
      LaterZero(k1[1..], k2[1..]);
      assert k1 == [k1[0]] + k1[1..] && k2 == [k2[0]] + k2[1..];
    }
  }

  /** The same pairs, where no pair at all is as good as an empty run with the number zero. */
  predicate SameItems(k1: seq<Item>, k2: seq<Item>)
  {
    || k1 == k2
    || (k1 == [] && k2 == [Item("", 0)])
    || (k2 == [] && k1 == [Item("", 0)])
  }

  lemma {:induction false} FirstZero(k1: seq<Item>, k2: seq<Item>)
    requires LaterKeys(RestItems(k1)) && LaterKeys(RestItems(k2))
    requires (k1 != [] ==> NoNul(k1[0].nondig)) && (k2 != [] ==> NoNul(k2[0].nondig))
    ensures CmpItems(k1, 0, k2, 0) == 0 <==> SameItems(k1, k2)
  {
    CmpRunsZero(HeadItem(k1, 0).nondig, HeadItem(k2, 0).nondig);
    LaterZero(RestItems(k1), RestItems(k2));
    assert k1 != [] ==> k1 == [k1[0]] + k1[1..];
    assert k2 != [] ==> k2 == [k2[0]] + k2[1..];
  }

  lemma {:induction false} ItemsZero(s1: string, t1: nat, s2: string, t2: nat)
    requires NoNul(s1) && NoNul(s2)
    ensures CmpItems(Items(s1, t1), 0, Items(s2, t2), 0) == 0 <==> SameItems(Items(s1, t1), Items(s2, t2))
  {
    var k1, k2 := Items(s1, t1), Items(s2, t2);
    LaterItems(s1, t1);
    LaterItems(s2, t2);
    ItemsNoNul(s1, t1);
    ItemsNoNul(s2, t2);
    FirstZero(k1, k2);
  }

  lemma {:induction false} PartsNoNul(v: string)
    requires Accepted(v)
    ensures NoNul(Upstream(v)) && NoNul(Revision(v).GetOr(""))
  {
    CharsOfAccepted(v);
  }

  /** Regular versions compare equal, which makes the solver abort if they are not the same string, exactly if their
      epochs and the pairs that cmp_verstr sees are the same, up to one empty pair with number zero. Numbers in
      these pairs are capped, and behind a last run without digits the number is the one read from the hyphen and
      the revision. */
  lemma {:induction false} EqualExactly(a: string, b: string)
    requires Regular(a) && Regular(b)
    ensures Compare(a, b) == EQ <==>
            && KeyOf(a).epoch == KeyOf(b).epoch
            && SameItems(KeyOf(a).upstream, KeyOf(b).upstream)
            && SameItems(KeyOf(a).revision, KeyOf(b).revision)
  {
    hide Split, Items, CmpItems;
    RegularHasKey(a);
    RegularHasKey(b);
    RegularUpstream(KeyOf(a), KeyOf(b));
    PartsNoNul(a);
    PartsNoNul(b);
    ItemsZero(Upstream(a), Tail(a), Upstream(b), Tail(b));
    ItemsZero(Revision(a).GetOr(""), 0, Revision(b).GetOr(""), 0);
  }

  /** Plain versions compare equal exactly if they have the same epoch and both parts have the same runs and capped
      numbers: they may differ in leading zeros, in how the epoch is written, in digits beyond the cap, and in a
      zero left out at the end of a part. */
  lemma {:induction false} EqualPlain(a: string, b: string)
    requires Plain(a) && Plain(b)
    ensures Compare(a, b) == EQ <==>
            && KeyOf(a).epoch == KeyOf(b).epoch
            && SameItems(Items(Upstream(a), 0), Items(Upstream(b), 0))
            && SameItems(Items(Revision(a).GetOr(""), 0), Items(Revision(b).GetOr(""), 0))
  {
    hide Split, Items, Strtoull, Compare;
    PlainIsRegular(a);
    PlainIsRegular(b);
    PlainItems(a);
    PlainItems(b);
    EqualExactly(a, b);
  }

  /** The hyphen in front of a number makes strtoull negate it modulo 2^64. */
  lemma {:induction false} NegatedReads(rev: string)
    requires 0 < LeadingNumber(rev) < TWO_64
    ensures Strtoull("-" + rev).value == TWO_64 - LeadingNumber(rev)
  {
    var s := "-" + rev;
    SpanUnique(s, IsSpace, 0);
    assert s[1..] == rev;
    assert rev[..0] == "";
  }

  lemma {:induction false} ClosedOnlyRun(s: string, digits: string, tail: nat, tail': nat)
    requires s != "" && forall i :: 0 <= i < |s| ==> IsNonDigit(s[i])
    requires digits != "" && AllDigits(digits) && Capped(Decimal(digits)) == tail
    ensures Items(s, tail) == Items(s + digits, tail')
  {
    hide Items, Span, Decimal, Capped;
    NoItems(tail);
    NoItems(tail');
    assert s == s + ("" + "");
    ItemsStep(s, s, "", "", tail);
    assert s + digits == s + (digits + "");
    ItemsStep(s + digits, s, digits, "", tail');
  }

  lemma {:induction false} Behind(a: string, b: string, c: string, d: string)
    ensures (a + (b + c)) + d == a + (b + (c + d))
  {
  }

  /** A run without digits at the end, whose number is read elsewhere, and the same run with digits for that number. */
  lemma {:induction false} ClosedRun(s: string, digits: string, tail: nat, tail': nat)
    requires s != "" && !IsDigit(s[|s| - 1])
    requires digits != "" && AllDigits(digits) && Capped(Decimal(digits)) == tail
    ensures Items(s, tail) == Items(s + digits, tail')
    decreases |s|
  {
    hide Items, Span, Decimal, Capped;
    var a, b, rest := Runs(s);
    if b == "" {
      assert s == a;
      ClosedOnlyRun(s, digits, tail, tail');
    } else {
      ItemsStep(s, a, b, rest, tail);
      SameEnd(a, b, rest);
      Behind(a, b, rest, digits);
      ItemsStep(s + digits, a, b, rest + digits, tail');
      ClosedRun(rest, digits, tail, tail');
    }
  }

  /** A number in decimal digits. */
  function Digits(n: nat): string
  {
    if n < 10 then ['0' + n as char] else Digits(n / 10) + ['0' + (n % 10) as char]
  }

  lemma {:induction false} DigitsRead(n: nat)
    ensures Digits(n) != "" && AllDigits(Digits(n)) && Decimal(Digits(n)) == n
  {
    if n < 10 {
      assert Digits(n)[..0] == "";
    } else {
      assert Digits(n)[..|Digits(n)| - 1] == Digits(n / 10);
      DigitsRead(n / 10);
    }
  }

  /** Versions that are not plain may have different numbers and yet compare equal: if the upstream part ends without
      digits and the revision starts with a number, the negative of that number modulo 2^64 is read there. */
  lemma {:induction false} EqualPastEnd(v: string, w: string, p: string, us: string, digits: string, rev: string)
    requires Glued(v, p, us, Some(rev)) && Glued(w, p, us + digits, Some(rev))
    requires us != "" && !IsDigit(us[|us| - 1])
    requires 0 < LeadingNumber(rev) < TWO_64 && digits == Digits(TWO_64 - LeadingNumber(rev))
    ensures Regular(v) && Regular(w) && Compare(v, w) == EQ
    ensures Items(us, 0) != Items(us + digits, 0)
  {
    hide Strtoull, Items, Split, Glued, Decimal, Digits, LeadingNumber;
    GluedParts(v, p, us, Some(rev));
    GluedParts(w, p, us + digits, Some(rev));
    NegatedReads(rev);
    DigitsRead(TWO_64 - LeadingNumber(rev));
    var tail := Tail(v);
    ClosedRun(us, digits, tail, tail);
    ClosedRun(us, digits, tail, 0);
    OpenRun(us, tail);
    CmpItemsSame(KeyOf(v).upstream, tail);
    CmpItemsSame(KeyOf(v).revision, 0);
  }

  lemma {:induction false} DigitsMayStand(s: string)
    requires AllDigits(s)
    ensures AllRevChars(s)
  {
  }

  /** The versions `a-5` and `a18446744073709551611-5` compare equal, though their upstream parts differ in a number. */
  lemma {:induction false} EqualInput(v: string, w: string, us: string, us': string, rev: string)
    requires us == "a" && us' == us + Digits(18446744073709551611) && rev == "5"
    requires v == us + "-" + rev && w == us' + "-" + rev
    ensures Compare(v, w) == EQ && Upstream(v) == us && Upstream(w) == us' && Items(us, 0) != Items(us', 0)
  {
    hide Strtoull, Items, Split, Decimal, Digits, LeadingNumber, Compare;
    FiveLeads(rev);
    DigitsRead(18446744073709551611);
    DigitsMayStand(Digits(18446744073709551611));
    assert Glued(v, "", us, Some(rev)) by {
      assert v == "" + us + ("-" + rev);
    }
    assert Glued(w, "", us', Some(rev)) by {
      assert w == "" + us' + ("-" + rev);
    }
    GluedParts(v, "", us, Some(rev));
    GluedParts(w, "", us', Some(rev));
    assert TWO_64 - 5 == 18446744073709551611;
    EqualPastEnd(v, w, "", us, Digits(TWO_64 - 5), rev);
  }
}
