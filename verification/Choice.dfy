/** Exactly which versions the solver's choice of the head of a list is right about. */
module Choice {
  import opened Chars
  import opened CNumber
  import opened VersionParse
  import opened VersionGrammar
  import opened VersionOrder
  import opened VersionFacts
  import opened Available
  import opened Discovery

  predicate HeadGreatest(l: seq<Version>)
  {
    forall j :: 0 < j < |l| ==> Compare(l[0].version, l[j].version) == GT
  }

  // ---------- Irregular versions spoil the choice ----------

  lemma {:induction false} NumberNotEmpty(rev: string)
    requires LeadingNumber(rev) != 0
    ensures rev != ""
  {
  }

  /** The two regular versions that form a circle with an irregular one are no longer than it. */
  lemma {:induction false} WitnessesFit(v: string)
    requires Accepted(v) && !Regular(v)
    ensures |LowerWitness(v)| <= |v| && |UpperWitness(v)| <= |v|
  {
    hide Split, Strtoull, Span;
    RegularMeans(v);
    PartsOfAccepted(v);
    NumberNotEmpty(Revision(v).value);
  }

  function Lower(v: CString): CString
    requires Accepted(v) && !Regular(v)
  {
    WitnessesFit(v);
    LowerWitness(v)
  }

  function Upper(v: CString): CString
    requires Accepted(v) && !Regular(v)
  {
    WitnessesFit(v);
    UpperWitness(v)
  }

  lemma {:induction false} InsertNothing(x: Version)
    ensures Insert([], x) == Inserted([x])
  {
  }

  /** An irregular version that is added behind its two witnesses becomes the head, although the lower one
      is greater. */
  lemma {:induction false} SpoiledList(x: Version, deps: seq<string>, u: Version, w: Version)
    requires Accepted(x.version) && !Regular(x.version)
    requires u == Version(Upper(x.version), deps) && w == Version(Lower(x.version), deps)
    ensures Regular(u.version) && Regular(w.version)
    ensures Insert([u], w) == Inserted([u, w]) && Insert([u, w], x) == Inserted([x, u, w])
    ensures Compare(w.version, x.version) == GT
  {
    hide Compare, Regular, Accepted;
    IrregularCircle(x.version);
    CompareFlip(x.version, w.version);
    InsertStep([u], w);
    InsertStep([u, w], x);
    InsertNothing(w);
    assert [u][1..] == [] && [u] + [w] == [u, w] && [x] + [u, w] == [x, u, w];
  }

  // ---------- Which versions never spoil a list ----------

  lemma {:induction false} RegularKeepsHead(l: seq<Version>, x: Version)
    requires Descending(l) && RegularList(l) && Regular(x.version) && Insert(l, x).Inserted?
    ensures HeadGreatest(Insert(l, x).list)
  {
    hide Compare, Regular, Insert;
    var r := Insert(l, x).list;
    InsertDescending(l, x);
    InsertMembers(l, x);
    forall i | 0 <= i < |r| ensures Regular(r[i].version) {
      assert r[i] in r;
    }
    HeadIsMaximum(r);
  }

  lemma {:induction false} SpoiledBy(x: Version) returns (l: seq<Version>)
    requires Accepted(x.version) && !Regular(x.version)
    ensures Descending(l) && RegularList(l) && Insert(l, x).Inserted? && !HeadGreatest(Insert(l, x).list)
  {
    hide Compare, Regular, Accepted, Insert;
    var u, w := Version(Upper(x.version), []), Version(Lower(x.version), []);
    SpoiledList(x, [], u, w);
    l := [u, w];
    IrregularCircle(x.version);
    CompareFlip(w.version, u.version);
    CompareFlip(w.version, x.version);
    assert Insert(l, x).list[2] == w;
  }

  /** Exactly the regular versions can be added to any list of regular ones without a head that is not the greatest. */
  lemma {:induction false} HeadExactly(x: Version)
    requires Accepted(x.version)
    ensures Regular(x.version) <==>
            forall l :: Descending(l) && RegularList(l) && Insert(l, x).Inserted? ==> HeadGreatest(Insert(l, x).list)
  {
    hide Compare, Regular, Accepted, Insert, Descending, RegularList, HeadGreatest;
    if Regular(x.version) {
      forall l | Descending(l) && RegularList(l) && Insert(l, x).Inserted? ensures HeadGreatest(Insert(l, x).list) {
        RegularKeepsHead(l, x);
      }
    } else {
      var l := SpoiledBy(x);
    }
  }

  // ---------- Which versions never spoil a run ----------

  /** A version is chosen, and it is greater than every other one that was offered. */
  ghost predicate ChoosesMaximum(w: World, name: string)
  {
    && Outcome(w, name).Chosen?
    && var chosen := Outcome(w, name).list[0].version;
       forall v :: Offered(w, name, v) ==> v == chosen || Compare(chosen, v) == GT
  }

  /** In this world a version can be chosen for the name, and all versions offered for it are regular,
      except perhaps `v`. */
  ghost predicate RegularBut(w: World, name: string, v: string)
  {
    && Outcome(w, name).Chosen? && Sound(Start(w, name))
    && forall u :: Offered(w, name, u) ==> u == v || Regular(u)
  }

  /** The callback offers the witnesses of an irregular version in front of it. */
  function SpoilingAnswer(v: CString): Answer
    requires Accepted(v) && !Regular(v)
  {
    Answer([Version(Upper(v), []), Version(Lower(v), []), Version(v, [])], true)
  }

  lemma {:induction false} DifferentVersions(v: CString)
    requires Accepted(v) && !Regular(v)
    ensures Lower(v) != Upper(v) && Lower(v) != v && Upper(v) != v
  {
    hide Compare, Regular, Accepted;
    IrregularCircle(v);
    CompareSame(v);
    CompareSame(Upper(v));
  }

  lemma {:induction false} AddOffer(l: seq<Version>, x: Version, rest: seq<Version>)
    requires x.deps == [] && (forall i :: 0 <= i < |l| ==> l[i].version != x.version) && Insert(l, x).Inserted?
    ensures AddAll(l, [x] + rest) == AddAll(Insert(l, x).list, rest)
  {
    hide Insert;
    assert Made(x) == x;
    assert ([x] + rest)[0] == x && ([x] + rest)[1..] == rest;
  }

  lemma {:induction false} SpoiledOffers(v: CString)
    requires Accepted(v) && !Regular(v)
    ensures AddAll([], SpoilingAnswer(v).offers)
         == Inserted([Version(v, []), Version(Upper(v), []), Version(Lower(v), [])])
  {
    hide Compare, Regular, Accepted, Insert, AddAll;
    var u, w, x := Version(Upper(v), []), Version(Lower(v), []), Version(v, []);
    SpoiledList(x, [], u, w);
    DifferentVersions(v);
    InsertNothing(u);
    AddOffer([], u, [w] + ([x] + []));
    AddOffer([u], w, [x] + []);
    AddOffer([u, w], x, []);
    NothingAdded([x, u, w]);
    assert [u, w, x] == [u] + ([w] + ([x] + []));
  }

  lemma {:induction false} SpoiledOutcome(w: World, name: string, v: CString)
    requires Accepted(v) && !Regular(v)
    requires w.getPkt.Some? && w.getPkt.value(name) == SpoilingAnswer(v) && name !in w.start
    ensures Outcome(w, name) == Chosen([Version(v, []), Version(Upper(v), []), Version(Lower(v), [])])
    ensures Sound(Start(w, name))
  {
    hide Compare, Regular, Accepted, Insert, AddAll, Lower, Upper;
    SpoiledOffers(v);
  }

  lemma {:induction false} SpoiledOffered(w: World, name: string, v: CString)
    requires Accepted(v) && !Regular(v)
    requires w.getPkt.Some? && w.getPkt.value(name) == SpoilingAnswer(v) && name !in w.start
    ensures forall u :: Offered(w, name, u) <==> u == v || u == Upper(v) || u == Lower(v)
  {
    hide Compare, Regular, Accepted, Lower, Upper;
    var offers := w.getPkt.value(name).offers;
    assert offers[0].version == Upper(v) && offers[1].version == Lower(v) && offers[2].version == v;
    assert offers[0] in offers && offers[1] in offers && offers[2] in offers;
  }

  /** In a world whose callback gives this answer the irregular version is chosen, although a greater one is offered. */
  lemma {:induction false} SpoiledChoice(w: World, name: string, v: CString)
    requires Accepted(v) && !Regular(v)
    requires w.getPkt.Some? && w.getPkt.value(name) == SpoilingAnswer(v) && name !in w.start
    ensures RegularBut(w, name, v) && Outcome(w, name).list[0].version == v
    ensures Offered(w, name, Lower(v)) && Compare(Lower(v), v) == GT && !ChoosesMaximum(w, name)
  {
    hide Compare, Regular, Accepted, Outcome, Offered, SpoilingAnswer, Lower, Upper, Sound;
    SpoiledOutcome(w, name, v);
    SpoiledOffered(w, name, v);
    SpoiledList(Version(v, []), [], Version(Upper(v), []), Version(Lower(v), []));
    CompareFlip(v, Lower(v));
    DifferentVersions(v);
  }

  lemma {:induction false} SpoiledWorld(v: CString) returns (w: World, name: string)
    requires Accepted(v) && !Regular(v)
    ensures RegularBut(w, name, v) && !ChoosesMaximum(w, name)
  {
    hide Compare, Regular, Accepted, Outcome, Offered, SpoilingAnswer, RegularBut, ChoosesMaximum;
    w, name := World(Some(_ => SpoilingAnswer(v)), map[]), "";
    SpoiledChoice(w, name, v);
  }

  lemma {:induction false} NotSpoiled(w: World, name: string, v: CString)
    requires RegularBut(w, name, v) && Regular(v)
    ensures ChoosesMaximum(w, name)
  {
    hide Compare, Regular, Outcome, Offered, Sound;
    ChosenIsMaximum(w, name);
  }

  /** Exactly the regular versions never spoil a choice among otherwise regular ones, in any run. */
  lemma {:induction false} ChoiceExactly(v: CString)
    requires Accepted(v)
    ensures Regular(v) <==> forall w, name :: RegularBut(w, name, v) ==> ChoosesMaximum(w, name)
  {
    hide Compare, Regular, Accepted, Outcome, RegularBut, ChoosesMaximum;
    if Regular(v) {
      forall w, name | RegularBut(w, name, v) ensures ChoosesMaximum(w, name) {
        NotSpoiled(w, name, v);
      }
    } else {
      var w, name := SpoiledWorld(v);
    }
  }
}
