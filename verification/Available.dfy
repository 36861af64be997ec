/** The list of available versions of one package: the walk of `solve_package_version_add` (tools/solve.c)
    that finds the place of a new version, as a function, and what it keeps. */
module Available {
  import opened CNumber
  import opened VersionParse
  import opened VersionOrder

  /** A version with its dependencies, as it is offered or as it stands in a list. */
  datatype Version = Version(version: CString, deps: seq<string>)

  /** Invalid: a comparison failed. Clash: two different strings compare equal, where the C code aborts. */
  datatype Insertion = Inserted(list: seq<Version>) | Invalid | Clash

  predicate Holds(l: seq<Version>, version: string)
  {
    exists i :: 0 <= i < |l| && l[i].version == version
  }

  function Reversed(s: seq<string>): seq<string>
  {
    if s == [] then [] else Reversed(s[1..]) + [s[0]]
  }

  lemma {:induction false} ReversedSnoc(s: seq<string>, x: string)
    ensures Reversed(s + [x]) == [x] + Reversed(s)
  {
    if s != [] {
      assert (s + [x])[1..] == s[1..] + [x];
      ReversedSnoc(s[1..], x);
    } else {
      assert (s + [x])[1..] == [];
    }
  }

  /** The one list from its end is the other. */
  predicate InReverse(a: seq<string>, b: seq<string>)
  {
    |a| == |b| && forall i :: 0 <= i < |a| ==> a[i] == b[|b| - 1 - i]
  }

  lemma {:induction false} ReversedIs(s: seq<string>)
    ensures InReverse(Reversed(s), s)
  {
    if s == [] {
    } else {
      ReversedIs(s[1..]);
    }
  }

  /** The version is put in front of the first one it is greater than. */
  function Insert(l: seq<Version>, x: Version): Insertion
  {
    if l == [] then Inserted([x]) else
    match Compare(x.version, l[0].version)
    case FAILED => Invalid
    case EQ => Clash
    case GT => Inserted([x] + l)
    case LT =>
      match Insert(l[1..], x)
      case Inserted(r) => Inserted([l[0]] + r)
      case Invalid => Invalid
      case Clash => Clash
  }

  /** A result for the end of a list, seen as one for the whole list. */
  function Behind(prefix: seq<Version>, r: Insertion): Insertion
  {
    if r.Inserted? then Inserted(prefix + r.list) else r
  }

  /** One comparison of the walk. */
  lemma {:induction false} InsertStep(l: seq<Version>, x: Version)
    requires l != []
    ensures match Compare(x.version, l[0].version)
            case FAILED => Insert(l, x) == Invalid
            case EQ => Insert(l, x) == Clash
            case GT => Insert(l, x) == Inserted([x] + l)
            case LT => Insert(l, x) == Behind([l[0]], Insert(l[1..], x))
  {
  }

  lemma {:induction false} BehindTwice(a: seq<Version>, b: seq<Version>, r: Insertion)
    ensures Behind(a, Behind(b, r)) == Behind(a + b, r)
  {
    if r.Inserted? {
      assert a + (b + r.list) == (a + b) + r.list;
    }
  }

  /** The walk arrived at position `k`: where it stops, and what one more step keeps. */
  lemma {:induction false} WalkAt(l: seq<Version>, k: nat, x: Version)
    requires k <= |l| && Insert(l, x) == Behind(l[..k], Insert(l[k..], x))
    ensures k == |l| ==> Insert(l, x) == Inserted(l[..k] + ([x] + l[k..]))
    ensures k < |l| ==>
              match Compare(x.version, l[k].version)
              case FAILED => Insert(l, x) == Invalid
              case EQ => Insert(l, x) == Clash
              case GT => Insert(l, x) == Inserted(l[..k] + ([x] + l[k..]))
              case LT => Insert(l, x) == Behind(l[..k + 1], Insert(l[k + 1..], x))
  {
    hide Compare;
    if k < |l| {
      var t := l[k..];
      InsertStep(t, x);
      assert t[0] == l[k] && t[1..] == l[k + 1..] && l[..k + 1] == l[..k] + [l[k]];
      BehindTwice(l[..k], [l[k]], Insert(l[k + 1..], x));
    }
  }

  /** Dependencies are prepended one by one, so they end up in reverse order. */
  function Made(o: Version): Version { Version(o.version, Reversed(o.deps)) }

  function Add(l: seq<Version>, o: Version): Insertion
  {
    if Holds(l, o.version) then Inserted(l) else Insert(l, Made(o))
  }

  function AddAll(l: seq<Version>, offers: seq<Version>): Insertion
    decreases |offers|
  {
    if offers == [] then Inserted(l) else
    var r := Add(l, offers[0]);
    if r.Inserted? then AddAll(r.list, offers[1..]) else r
  }

  // ---------- What every insertion keeps ----------

  /** Each version is greater than its successor. */
  predicate Descending(l: seq<Version>)
  {
    forall i {:trigger l[i]} :: 0 < i < |l| ==> Compare(l[i - 1].version, l[i].version) == GT
  }

  predicate Distinct(l: seq<Version>)
  {
    forall i, j :: 0 <= i < j < |l| ==> l[i].version != l[j].version
  }

  /** The new version goes to one place, and nothing else changes. */
  lemma {:induction false} InsertPlace(l: seq<Version>, x: Version) returns (k: nat)
    requires Insert(l, x).Inserted?
    ensures k <= |l| && Insert(l, x).list == l[..k] + [x] + l[k..]
    ensures forall i :: 0 <= i < k ==> Compare(x.version, l[i].version) == LT
    ensures k < |l| ==> Compare(x.version, l[k].version) == GT
  {
    hide Compare;
    if l == [] || Compare(x.version, l[0].version) == GT {
      k := 0;
    } else {
      var j := InsertPlace(l[1..], x);
      k := j + 1;
      var t := l[1..];
      assert l[..k] == [l[0]] + t[..j] && l[k..] == t[j..];
      assert forall i :: 0 < i < |l| ==> l[i] == t[i - 1];
    }
  }

  /** Insertion keeps the order of neighbours, whatever the version strings are. */
  lemma {:induction false} InsertDescending(l: seq<Version>, x: Version)
    requires Descending(l) && Insert(l, x).Inserted?
    ensures Descending(Insert(l, x).list)
  {
    hide Compare;
    var k := InsertPlace(l, x);
    var r := Insert(l, x).list;
    forall i | 0 < i < |r| ensures Compare(r[i - 1].version, r[i].version) == GT {
      assert r[i] == if i < k then l[i] else if i == k then x else l[i - 1];
      if i == k {
        CompareFlip(x.version, l[k - 1].version);
      }
    }
  }

  lemma {:induction false} InsertDistinct(l: seq<Version>, x: Version)
    requires Distinct(l) && !Holds(l, x.version) && Insert(l, x).Inserted?
    ensures Distinct(Insert(l, x).list)
  {
    hide Compare;
    var k := InsertPlace(l, x);
  }

  lemma {:induction false} InsertMembers(l: seq<Version>, x: Version)
    requires Insert(l, x).Inserted?
    ensures forall y :: y in Insert(l, x).list <==> y in l || y == x
  {
    hide Compare, Insert;
    var k := InsertPlace(l, x);
    assert l == l[..k] + l[k..];
  }

  /** What every list built by insertions satisfies. */
  predicate Sound(l: seq<Version>) { Descending(l) && Distinct(l) }

  lemma {:induction false} AddSound(l: seq<Version>, o: Version)
    requires Sound(l) && Add(l, o).Inserted?
    ensures Sound(Add(l, o).list) && Add(l, o).list != []
    ensures forall x :: x in l ==> x in Add(l, o).list
  {
    hide Compare;
    if !Holds(l, o.version) {
      InsertDescending(l, Made(o));
      InsertDistinct(l, Made(o));
      InsertMembers(l, Made(o));
    }
  }

  lemma {:induction false} AddAllSound(l: seq<Version>, offers: seq<Version>)
    requires Sound(l) && AddAll(l, offers).Inserted?
    ensures Sound(AddAll(l, offers).list)
    decreases |offers|
  {
    if offers == [] {
    } else {
      AddSound(l, offers[0]);
      AddAllSound(Add(l, offers[0]).list, offers[1..]);
    }
  }

  /** What an offered version is listed as. */
  lemma {:induction false} MadeIs(o: Version)
    ensures Made(o).version == o.version && InReverse(Made(o).deps, o.deps)
  {
    ReversedIs(o.deps);
  }

  lemma {:induction false} AddMembers(l: seq<Version>, o: Version)
    requires Add(l, o).Inserted?
    ensures (forall x :: x in l ==> x in Add(l, o).list) && Holds(Add(l, o).list, o.version)
    ensures forall x :: x in Add(l, o).list ==> x in l || x == Made(o)
  {
    if !Holds(l, o.version) {
      InsertMembers(l, Made(o));
      assert Made(o) in Insert(l, Made(o)).list;
    }
  }

  lemma {:induction false} HoldsMono(l: seq<Version>, l': seq<Version>, v: string)
    requires Holds(l, v) && forall x :: x in l ==> x in l'
    ensures Holds(l', v)
  {
    var i :| 0 <= i < |l| && l[i].version == v;
    assert l[i] in l';
  }

  /** After all offers, the list holds the old versions, one for every offered string, and nothing else. */
  lemma {:induction false} AddAllMembers(l: seq<Version>, offers: seq<Version>)
    requires AddAll(l, offers).Inserted?
    ensures var r := AddAll(l, offers).list;
            && (forall x :: x in l ==> x in r)
            && (forall o :: o in offers ==> Holds(r, o.version))
            && (forall x :: x in r ==> x in l || exists o :: o in offers && x == Made(o))
    decreases |offers|
  {
    hide Insert, Holds;
    if offers == [] {
    } else {
      var o := offers[0];
      AddMembers(l, o);
      AddAllMembers(Add(l, o).list, offers[1..]);
      HoldsMono(Add(l, o).list, AddAll(l, offers).list, o.version);
      forall x | x in AddAll(l, offers).list ensures x in l || exists o' :: o' in offers && x == Made(o') {
        if x !in Add(l, o).list {
          var o' :| o' in offers[1..] && x == Made(o');
        }
      }
    }
  }

  /** `o` is the first offer of its version string. */
  predicate FirstOffer(offers: seq<Version>, k: nat)
  {
    k < |offers| && forall j :: 0 <= j < k ==> offers[j].version != offers[k].version
  }

  /** The first offer of the version string has the dependencies of `x` in reverse. */
  ghost predicate OfferedAs(offers: seq<Version>, x: Version)
  {
    exists k: nat :: FirstOffer(offers, k) && offers[k].version == x.version && InReverse(x.deps, offers[k].deps)
  }

  lemma {:induction false} LaterOffer(offers: seq<Version>, k: nat)
    requires offers != [] && FirstOffer(offers[1..], k) && offers[0].version != offers[1..][k].version
    ensures FirstOffer(offers, k + 1)
  {
    forall j | 0 <= j < k + 1 ensures offers[j].version != offers[k + 1].version {
      assert j > 0 ==> offers[j] == offers[1..][j - 1];
    }
  }

  lemma {:induction false} NewlyAdded(l: seq<Version>, o: Version, x: Version)
    requires Add(l, o).Inserted? && x in Add(l, o).list && x !in l
    ensures x == Made(o) && !Holds(l, x.version)
  {
    AddMembers(l, o);
  }

  /** Every version that the offers bring into the list has the dependencies of the first offer of its version string,
      in reverse, and that string was not in the list before. */
  lemma {:induction false} AddAllSource(l: seq<Version>, offers: seq<Version>, x: Version)
    requires AddAll(l, offers).Inserted? && x in AddAll(l, offers).list && x !in l
    ensures !Holds(l, x.version)
    ensures OfferedAs(offers, x)
    decreases |offers|
  {
    hide Insert, Holds, InReverse;
    if offers == [] {
      assert false;
    } else {
      var o := offers[0];
      var next := Add(l, o).list;
      AddMembers(l, o);
      if x in next {
        MadeIs(o);
        NewlyAdded(l, o, x);
        assert FirstOffer(offers, 0);
      } else {
        AddAllSource(next, offers[1..], x);
        var k: nat :| FirstOffer(offers[1..], k) && offers[1..][k].version == x.version
                      && InReverse(x.deps, offers[1..][k].deps);
        if Holds(l, x.version) {
          HoldsMono(l, next, x.version);
        }
        LaterOffer(offers, k);
      }
    }
  }

  /** Offering a version again changes nothing. */
  lemma {:induction false} RepeatedOffer(l: seq<Version>, o: Version, n: nat)
    ensures AddAll(l, seq(n + 1, _ => o)) == Add(l, o)
    decreases n
  {
    var offers := seq(n + 1, _ => o);
    assert offers[1..] == seq(n, _ => o);
    if Add(l, o).Inserted? {
      var r := Add(l, o).list;
      AddMembers(l, o);
      if n > 0 {
        RepeatedOffer(r, o, n - 1);
      }
    }
  }

  /** In a list of two or more every version string is accepted; a lone one may be anything. */
  lemma {:induction false} DescendingAccepted(l: seq<Version>)
    requires Descending(l) && |l| > 1
    ensures forall i :: 0 <= i < |l| ==> Accepted(l[i].version)
  {
    forall i | 0 <= i < |l| ensures Accepted(l[i].version) {
      var j := if i == 0 then 1 else i;
      assert Compare(l[j - 1].version, l[j].version) == GT;
    }
  }

  // ---------- Regular versions ----------

  predicate RegularList(l: seq<Version>) { forall i :: 0 <= i < |l| ==> Regular(l[i].version) }

  /** On regular versions the order of neighbours extends to all pairs. */
  lemma {:induction false} DescendingPairs(l: seq<Version>, i: nat, j: nat)
    requires Descending(l) && RegularList(l) && i < j < |l|
    ensures Compare(l[i].version, l[j].version) == GT
  {
    hide Regular, Compare;
    if i + 1 < j {
      DescendingPairs(l, i, j - 1);
      GreaterComposes(l[i].version, l[j - 1].version, l[j].version);
    } else {
      assert l[j - 1] == l[i];
    }
  }

  /** The head, which the solver chooses, is greater than every other version. */
  lemma {:induction false} HeadIsMaximum(l: seq<Version>)
    requires Descending(l) && RegularList(l)
    ensures forall j :: 0 < j < |l| ==> Compare(l[0].version, l[j].version) == GT
  {
    hide Regular, Compare;
    forall j | 0 < j < |l| ensures Compare(l[0].version, l[j].version) == GT {
      DescendingPairs(l, 0, j);
    }
  }

  lemma {:induction false} TailKeeps(l: seq<Version>)
    requires l != [] && Descending(l) && RegularList(l)
    ensures Descending(l[1..]) && RegularList(l[1..])
    ensures forall i :: 0 <= i < |l[1..]| ==> l[1..][i] == l[i + 1]
  {
    hide Regular, Compare;
    var t := l[1..];
    forall i | 0 < i < |t| ensures Compare(t[i - 1].version, t[i].version) == GT {
      assert t[i] == l[i + 1] && t[i - 1] == l[i];
    }
  }

  predicate Meets(l: seq<Version>, x: Version)
  {
    exists i :: 0 <= i < |l| && Compare(x.version, l[i].version) == EQ
  }

  lemma {:induction false} MeetsTail(l: seq<Version>, x: Version)
    requires l != [] && Compare(x.version, l[0].version) == LT
    ensures Meets(l, x) <==> Meets(l[1..], x)
  {
    hide Compare;
    if Meets(l, x) {
      var i :| 0 <= i < |l| && Compare(x.version, l[i].version) == EQ;
      assert l[1..][i - 1] == l[i];
    }
  }

  /** Inserting a regular version into a list of regular versions fails in no other way
      than by meeting an equivalent one, and then it always does. */
  lemma {:induction false} InsertOutcome(l: seq<Version>, x: Version)
    requires Descending(l) && RegularList(l) && Regular(x.version)
    ensures Insert(l, x) != Invalid
    ensures Insert(l, x) == Clash <==> Meets(l, x)
  {
    hide Regular, Compare;
    if l == [] {
    } else {
      RegularComparable(x.version, l[0].version);
      var c := Compare(x.version, l[0].version);
      if c == LT {
        TailKeeps(l);
        InsertOutcome(l[1..], x);
        MeetsTail(l, x);
      } else if c == GT {
        HeadIsMaximum(l);
        forall i | 0 < i < |l| ensures Compare(x.version, l[i].version) == GT {
          GreaterComposes(x.version, l[0].version, l[i].version);
        }
      }
    }
  }

  // ---------- The list does not depend on the order of the insertions ----------

  /** Regular versions, each occurring once, no two of which compare equal. */
  predicate Apart(m: multiset<Version>)
  {
    && (forall x :: x in m ==> m[x] == 1 && Regular(x.version))
    && (forall x, y :: x in m && y in m && x != y ==> Compare(x.version, y.version) != EQ)
  }

  function Mades(offers: seq<Version>): seq<Version>
  {
    if offers == [] then [] else [Made(offers[0])] + Mades(offers[1..])
  }

  lemma {:induction false} OneMore(a: seq<Version>, x: Version, b: seq<Version>)
    ensures multiset(a + [x] + b) == multiset(a + b) + multiset{x}
  {
    assert multiset(a + [x]) == multiset(a) + multiset{x};
  }

  lemma {:induction false} InsertKeepsAll(l: seq<Version>, x: Version)
    requires Insert(l, x).Inserted?
    ensures multiset(Insert(l, x).list) == multiset(l) + multiset{x}
  {
    hide Compare, Insert;
    var k := InsertPlace(l, x);
    assert l == l[..k] + l[k..];
    OneMore(l[..k], x, l[k..]);
  }

  /** A new version apart from all others is inserted. */
  lemma {:induction false} ApartInsert(l: seq<Version>, x: Version, rest: multiset<Version>)
    requires Descending(l) && Apart(multiset(l) + multiset{x} + rest)
    ensures RegularList(l) && !Holds(l, x.version) && Insert(l, x).Inserted?
  {
    hide Regular, Compare;
    var m := multiset(l) + multiset{x} + rest;
    assert m[x] == 1 && multiset(l)[x] == 0;
    RegularSame(x.version);
    forall i | 0 <= i < |l|
      ensures Regular(l[i].version) && l[i].version != x.version && Compare(x.version, l[i].version) != EQ
    {
      assert l[i] in multiset(l) && l[i] in m;
    }
    InsertOutcome(l, x);
  }

  lemma {:induction false} AddAllContents(l: seq<Version>, offers: seq<Version>)
    requires Descending(l) && Apart(multiset(l) + multiset(Mades(offers)))
    ensures var r := AddAll(l, offers);
            r.Inserted? && Descending(r.list) && multiset(r.list) == multiset(l) + multiset(Mades(offers))
    decreases |offers|
  {
    hide Regular, Compare;
    if offers == [] {
    } else {
      var x, rest := Made(offers[0]), multiset(Mades(offers[1..]));
      assert multiset(Mades(offers)) == multiset{x} + rest;
      assert multiset(l) + multiset(Mades(offers)) == multiset(l) + multiset{x} + rest;
      ApartInsert(l, x, rest);
      InsertDescending(l, x);
      InsertKeepsAll(l, x);
      AddAllContents(Insert(l, x).list, offers[1..]);
    }
  }

  lemma {:induction false} WithoutHead(l: seq<Version>)
    requires l != []
    ensures multiset(l[1..]) == multiset(l) - multiset{l[0]} && l == [l[0]] + l[1..]
  {
    assert l == [l[0]] + l[1..];
  }

  lemma {:induction false} SameHead(a: seq<Version>, b: seq<Version>)
    requires Descending(a) && Descending(b) && RegularList(a) && RegularList(b)
    requires a != [] && b != [] && multiset(a) == multiset(b)
    ensures a[0] == b[0]
  {
    hide Regular, Compare;
    assert a[0] in multiset(b) && b[0] in multiset(a);
    var i :| 0 <= i < |b| && b[i] == a[0];
    var j :| 0 <= j < |a| && a[j] == b[0];
    HeadIsMaximum(a);
    HeadIsMaximum(b);
    CompareFlip(a[0].version, b[0].version);
  }

  lemma {:induction false} SortedUnique(a: seq<Version>, b: seq<Version>)
    requires Descending(a) && Descending(b) && RegularList(a) && RegularList(b)
    requires multiset(a) == multiset(b)
    ensures a == b
  {
    hide Regular, Compare, Descending, RegularList;
    if a == [] || b == [] {
      assert |multiset(a)| == |a| && |multiset(b)| == |b|;
    } else {
      SameHead(a, b);
      WithoutHead(a);
      WithoutHead(b);
      TailKeeps(a);
      TailKeeps(b);
      SortedUnique(a[1..], b[1..]);
    }
  }

  /** Adding the same offers in any order to the same list gives the same list. */
  lemma {:induction false} OrderIndependent(l: seq<Version>, offers: seq<Version>, offers': seq<Version>)
    requires Descending(l) && Apart(multiset(l) + multiset(Mades(offers)))
    requires multiset(Mades(offers)) == multiset(Mades(offers'))
    ensures AddAll(l, offers).Inserted? && AddAll(l, offers) == AddAll(l, offers')
  {
    hide Regular, Compare, AddAll;
    AddAllContents(l, offers);
    AddAllContents(l, offers');
    var a, b := AddAll(l, offers).list, AddAll(l, offers').list;
    var m := multiset(l) + multiset(Mades(offers));
    forall i | 0 <= i < |a| ensures Regular(a[i].version) { assert a[i] in multiset(a) && a[i] in m; }
    forall i | 0 <= i < |b| ensures Regular(b[i].version) { assert b[i] in multiset(b) && b[i] in m; }
    SortedUnique(a, b);
  }
}
