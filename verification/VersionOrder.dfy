/** The order that `version_cmp` (tools/version.c) computes, written as a lexicographic comparison,
    and the versions on which it is a total preorder. */
module VersionOrder {
  import opened Chars
  import opened CNumber
  import opened VersionParse
  import opened VersionGrammar

  // ---------- Characters ----------

  /** cmp_verchar; the end of a run of non-digits reads as NUL. */
  function CmpVerchar(c1: char, c2: char): int
  {
    if c1 == c2 then 0
    else if c1 == '~' then -1
    else if c2 == '~' then 1
    else if IsAlpha(c1) && IsAlpha(c2) then (if c1 < c2 then -1 else 1)
    else if IsAlpha(c1) then -1
    else if IsAlpha(c2) then 1
    else if c1 < c2 then -1 else 1
  }

  function Sign(n: int): int { if n < 0 then -1 else if n > 0 then 1 else 0 }

  /** Tilde first, then letters, then the end of the run and all other characters. */
  function Rank(c: char): int
  {
    if c == '~' then 0 else if IsAlpha(c) then 1 + c as int else 1000 + c as int
  }

  /** The branches of cmp_verchar compare ranks, so they form a total order on characters. */
  lemma {:induction false} CmpVercharRanks(c1: char, c2: char)
    ensures CmpVerchar(c1, c2) == Sign(Rank(c1) - Rank(c2))
  {
    assert c1 as int == c2 as int ==> c1 == c2;
  }

  // ---------- Runs of non-digits ----------

  function HeadChar(a: string): char { if a == "" then '\0' else a[0] }

  function RestChars(a: string): string { if a == "" then "" else a[1..] }

  /** Lexicographic comparison of runs, where the shorter one is padded with its end. */
  function CmpRuns(a: string, b: string): int
    decreases |a| + |b|
  {
    if a == "" && b == "" then 0 else
    var r := CmpVerchar(HeadChar(a), HeadChar(b));
    if r != 0 then r else CmpRuns(RestChars(a), RestChars(b))
  }

  lemma {:induction false} CmpRunsFlip(a: string, b: string)
    ensures CmpRuns(a, b) == -CmpRuns(b, a)
    decreases |a| + |b|
  {
    CmpVercharRanks(HeadChar(a), HeadChar(b));
    CmpVercharRanks(HeadChar(b), HeadChar(a));
    if a == "" && b == "" {
    } else {
      CmpRunsFlip(RestChars(a), RestChars(b));
    }
  }

  lemma {:induction false} CmpRunsSame(a: string)
    ensures CmpRuns(a, a) == 0
  {
    if a == "" {
    } else {
      CmpRunsSame(a[1..]);
    }
  }

  /** Both comparisons at most zero give a comparison at most zero, and zero only from two zeros. */
  predicate Composes(ab: int, bc: int, ac: int)
  {
    ab <= 0 && bc <= 0 ==> ac <= 0 && (ac == 0 ==> ab == 0 && bc == 0)
  }

  lemma {:induction false} CmpRunsComposes(a: string, b: string, c: string)
    ensures Composes(CmpRuns(a, b), CmpRuns(b, c), CmpRuns(a, c))
    decreases |a| + |b| + |c|
  {
    CmpVercharRanks(HeadChar(a), HeadChar(b));
    CmpVercharRanks(HeadChar(b), HeadChar(c));
    CmpVercharRanks(HeadChar(a), HeadChar(c));
    if a == "" && b == "" && c == "" {
    } else {
      CmpRunsComposes(RestChars(a), RestChars(b), RestChars(c));
    }
  }

  // ---------- Parts as lists of (run of non-digits, number) ----------

  datatype Item = Item(nondig: string, num: nat)

  /** The pairs of one part of a version; `tail` is what strtoull reads behind the part. */
  function Items(s: string, tail: nat): seq<Item>
    decreases |s|
  {
    if s == "" then [] else
    var n := Span(s, IsNonDigit);
    var d := Span(s[n..], IsDigit);
    [Item(s[..n], if d == 0 then tail else Capped(Decimal(s[n..][..d])))] + Items(s[n..][d..], tail)
  }

  /** One step of the list of pairs: a run of non-digits, a run of digits, and the rest. */
  lemma {:induction false} ItemsStep(s: string, a: string, b: string, rest: string, tail: nat)
    requires s == a + (b + rest) && s != ""
    requires (forall i :: 0 <= i < |a| ==> IsNonDigit(a[i])) && AllDigits(b)
    requires rest != "" ==> b != "" && IsNonDigit(rest[0])
    ensures Items(s, tail)
         == [Item(a, if b == "" then tail else Capped(Decimal(b)))] + Items(rest, tail)
  {
    assert b != "" ==> (b + rest)[0] == b[0];
    SpanUnique(a, IsNonDigit, |a|);
    SpanStop(a, b + rest, IsNonDigit);
    SpanUnique(b, IsDigit, |b|);
    SpanStop(b, rest, IsDigit);
    assert s[..|a|] == a && s[|a|..] == b + rest;
    assert (b + rest)[..|b|] == b && (b + rest)[|b|..] == rest;
  }

  /** Any string starts with such a step. */
  lemma {:induction false} Runs(s: string) returns (a: string, b: string, rest: string)
    ensures s == a + (b + rest)
    ensures (forall i :: 0 <= i < |a| ==> IsNonDigit(a[i])) && AllDigits(b)
    ensures rest != "" ==> b != "" && IsNonDigit(rest[0])
  {
    hide Span;
    var n := Span(s, IsNonDigit);
    var t := s[n..];
    var d := Span(t, IsDigit);
    a, b, rest := s[..n], t[..d], t[d..];
    assert t == b + rest && s == a + t;
    assert rest != "" ==> rest[0] == t[d];
    assert t != "" ==> t[0] == s[n];
  }

  function CmpItem(x: Item, y: Item): int
  {
    var r := CmpRuns(x.nondig, y.nondig);
    if r != 0 then r else Sign(x.num - y.num)
  }

  function HeadItem(k: seq<Item>, tail: nat): Item { if k == [] then Item("", tail) else k[0] }

  function RestItems(k: seq<Item>): seq<Item> { if k == [] then [] else k[1..] }

  /** Lexicographic comparison of lists of pairs, where a missing pair reads as (empty, tail). */
  function CmpItems(k1: seq<Item>, t1: nat, k2: seq<Item>, t2: nat): int
    decreases |k1| + |k2|
  {
    if k1 == [] && k2 == [] then 0 else
    var r := CmpItem(HeadItem(k1, t1), HeadItem(k2, t2));
    if r != 0 then r else CmpItems(RestItems(k1), t1, RestItems(k2), t2)
  }

  lemma {:induction false} CmpItemsFlip(k1: seq<Item>, t1: nat, k2: seq<Item>, t2: nat)
    ensures CmpItems(k1, t1, k2, t2) == -CmpItems(k2, t2, k1, t1)
    decreases |k1| + |k2|
  {
    CmpRunsFlip(HeadItem(k1, t1).nondig, HeadItem(k2, t2).nondig);
    if k1 == [] && k2 == [] {
    } else {
      CmpItemsFlip(RestItems(k1), t1, RestItems(k2), t2);
    }
  }

  lemma {:induction false} CmpItemsSame(k: seq<Item>, t: nat)
    ensures CmpItems(k, t, k, t) == 0
  {
    if k == [] {
    } else {
      CmpRunsSame(k[0].nondig);
      CmpItemsSame(k[1..], t);
    }
  }

  lemma {:induction false} CmpItemsComposes(a: seq<Item>, b: seq<Item>, c: seq<Item>)
    ensures Composes(CmpItems(a, 0, b, 0), CmpItems(b, 0, c, 0), CmpItems(a, 0, c, 0))
    decreases |a| + |b| + |c|
  {
    if a == [] && b == [] && c == [] {
    } else {
      CmpRunsComposes(HeadItem(a, 0).nondig, HeadItem(b, 0).nondig, HeadItem(c, 0).nondig);
      CmpRunsSame("");
      CmpItemsComposes(RestItems(a), RestItems(b), RestItems(c));
    }
  }

  // ---------- Whole versions ----------

  datatype VerResult = LT | EQ | GT | FAILED

  /** The number strtoull reads when the digits of the upstream part have run out. It is not zero
      only if the revision starts with a digit: then the hyphen reads as a sign. */
  function Tail(v: string): nat
    requires Accepted(v)
  {
    var c := Split(v).value;
    Strtoull(v[c.usAt..][c.usLen..]).value
  }

  /** What version_cmp looks at: epoch, the pairs of the upstream part with the number read behind them,
      and the pairs of the revision. */
  datatype Key = Key(epoch: nat, upstream: seq<Item>, tail: nat, revision: seq<Item>)

  function KeyOf(v: string): Key
    requires Accepted(v)
  {
    Key(Split(v).value.epoch, Items(Upstream(v), Tail(v)), Tail(v), Items(Revision(v).GetOr(""), 0))
  }

  function Then(first: int, second: int): int { if first != 0 then first else second }

  function UpstreamOrder(a: Key, b: Key): int
  {
    CmpItems(a.upstream, a.tail, b.upstream, b.tail)
  }

  /** Epoch first, then upstream, then revision. */
  function KeyOrder(a: Key, b: Key): int
  {
    Then(Sign(a.epoch - b.epoch), Then(UpstreamOrder(a, b), CmpItems(a.revision, 0, b.revision, 0)))
  }

  function Order(v1: string, v2: string): int
    requires Accepted(v1) && Accepted(v2)
  {
    KeyOrder(KeyOf(v1), KeyOf(v2))
  }

  function Compare(v1: string, v2: string): VerResult
  {
    if !Accepted(v1) || !Accepted(v2) then FAILED
    else if Order(v1, v2) < 0 then LT
    else if Order(v1, v2) > 0 then GT
    else EQ
  }

  lemma {:induction false} KeyOrderFlip(a: Key, b: Key)
    ensures KeyOrder(a, b) == -KeyOrder(b, a)
  {
    CmpItemsFlip(a.upstream, a.tail, b.upstream, b.tail);
    CmpItemsFlip(a.revision, 0, b.revision, 0);
  }

  /** Swapping the arguments swaps LT and GT, for all strings. */
  lemma {:induction false} CompareFlip(a: string, b: string)
    ensures Compare(a, b) == LT <==> Compare(b, a) == GT
    ensures Compare(a, b) == EQ <==> Compare(b, a) == EQ
    ensures Compare(a, b) == FAILED <==> !Accepted(a) || !Accepted(b)
  {
    if Accepted(a) && Accepted(b) {
      KeyOrderFlip(KeyOf(a), KeyOf(b));
    }
  }

  lemma {:induction false} CompareSame(a: string)
    requires Accepted(a)
    ensures Compare(a, a) == EQ
  {
    var k := KeyOf(a);
    CmpItemsSame(k.upstream, k.tail);
    CmpItemsSame(k.revision, 0);
  }

  // ---------- The versions on which the order is transitive ----------

  /** An empty upstream part must not be followed by a revision that strtoull reads as a number. */
  predicate Regular(v: string)
  {
    Accepted(v) && (Upstream(v) != "" || Tail(v) == 0)
  }

  /** Versions whose upstream part ends in a digit, or whose revision does not start with one. */
  predicate Plain(v: string)
  {
    && Accepted(v)
    && var us, rev := Upstream(v), Revision(v).GetOr("");
       (us != "" && IsDigit(us[|us| - 1])) || rev == "" || !IsDigit(rev[0])
  }

  predicate StartsNonDigit(x: Item) { x.nondig != "" && x.nondig[0] != '\0' }

  predicate NoNul(s: string) { '\0' !in s }

  /** Only the first pair of a part can have an empty run. */
  lemma {:induction false} LaterItems(s: string, tail: nat)
    requires NoNul(s)
    ensures forall i :: 0 <= i < |Items(s, tail)| && (i > 0 || !IsDigit(s[0])) ==> StartsNonDigit(Items(s, tail)[i])
    decreases |s|
  {
    if s == "" {
    } else {
      var n := Span(s, IsNonDigit);
      var d := Span(s[n..], IsDigit);
      LaterItems(s[n..][d..], tail);
    }
  }

  /** Where a list ends early, the other list's run of non-digits decides before its number. */
  lemma {:induction false} TailIrrelevant(k1: seq<Item>, t1: nat, k2: seq<Item>, t2: nat)
    requires forall i :: 0 <= i < |k1| ==> StartsNonDigit(k1[i])
    requires forall i :: 0 <= i < |k2| ==> StartsNonDigit(k2[i])
    ensures CmpItems(k1, t1, k2, t2) == CmpItems(k1, 0, k2, 0)
  {
    if k1 == [] || k2 == [] {
    } else {
      TailIrrelevant(k1[1..], t1, k2[1..], t2);
    }
  }

  predicate RegularKey(k: Key)
  {
    && (k.upstream != [] || k.tail == 0)
    && forall i :: 0 < i < |k.upstream| ==> StartsNonDigit(k.upstream[i])
  }

  lemma {:induction false} RegularHasKey(v: string)
    requires Regular(v)
    ensures RegularKey(KeyOf(v))
  {
    CharsOfAccepted(v);
    LaterItems(Upstream(v), Tail(v));
  }

  /** In regular keys the number behind the upstream part plays no role at the end of the list. */
  lemma {:induction false} RegularUpstream(a: Key, b: Key)
    requires RegularKey(a) && RegularKey(b)
    ensures UpstreamOrder(a, b) == CmpItems(a.upstream, 0, b.upstream, 0)
  {
    TailIrrelevant(RestItems(a.upstream), a.tail, RestItems(b.upstream), b.tail);
  }

  lemma {:induction false} ThenComposes(ab: int, ab': int, bc: int, bc': int, ac: int, ac': int)
    requires Composes(ab, bc, ac) && Composes(ab', bc', ac')
    ensures Composes(Then(ab, ab'), Then(bc, bc'), Then(ac, ac'))
  {
  }

  lemma {:induction false} KeyOrderComposes(a: Key, b: Key, c: Key)
    requires RegularKey(a) && RegularKey(b) && RegularKey(c)
    ensures Composes(KeyOrder(a, b), KeyOrder(b, c), KeyOrder(a, c))
  {
    RegularUpstream(a, b);
    RegularUpstream(b, c);
    RegularUpstream(a, c);
    CmpItemsComposes(a.upstream, b.upstream, c.upstream);
    CmpItemsComposes(a.revision, b.revision, c.revision);
    ThenComposes(UpstreamOrder(a, b), CmpItems(a.revision, 0, b.revision, 0),
                 UpstreamOrder(b, c), CmpItems(b.revision, 0, c.revision, 0),
                 UpstreamOrder(a, c), CmpItems(a.revision, 0, c.revision, 0));
  }

  /** On regular versions LT and EQ compose, strictly as soon as one of the two is strict. */
  lemma {:induction false} CompareComposes(a: string, b: string, c: string)
    requires Regular(a) && Regular(b) && Regular(c)
    requires Compare(a, b) != GT && Compare(b, c) != GT
    ensures Compare(a, c) == if Compare(a, b) == EQ && Compare(b, c) == EQ then EQ else LT
  {
    RegularHasKey(a);
    RegularHasKey(b);
    RegularHasKey(c);
    var x, y, z := KeyOf(a), KeyOf(b), KeyOf(c);
    KeyOrderComposes(x, y, z);
    KeyOrderComposes(z, y, x);
    KeyOrderFlip(x, y);
    KeyOrderFlip(y, z);
    KeyOrderFlip(x, z);
  }

  lemma {:induction false} GreaterComposes(a: string, b: string, c: string)
    requires Regular(a) && Regular(b) && Regular(c)
    requires Compare(a, b) == GT && Compare(b, c) == GT
    ensures Compare(a, c) == GT
  {
    hide Regular, Compare, Accepted;
    CompareFlip(a, b);
    CompareFlip(b, c);
    CompareComposes(c, b, a);
    CompareFlip(c, a);
  }

  lemma {:induction false} RegularComparable(a: string, b: string)
    requires Regular(a) && Regular(b)
    ensures Compare(a, b) != FAILED
  {
  }

  lemma {:induction false} RegularSame(v: string)
    requires Regular(v)
    ensures Compare(v, v) == EQ
  {
    CompareSame(v);
  }
}
