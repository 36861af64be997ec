/** What a run of the solver (tools/solve.c) can reach, and the order in which its growing worklist finds it. */
module Discovery {
  import opened Chars
  import opened VersionOrder
  import opened Available

  /** What the callback get_pkt does when asked for a name: the versions it adds under that name,
      and whether it then reports success. */
  datatype Answer = Answer(offers: seq<Version>, ok: bool)

  /** The callback, if there is one, and the versions added before the run. */
  datatype World = World(getPkt: Option<string -> Answer>, start: map<string, seq<Version>>)

  function Start(w: World, name: string): seq<Version>
  {
    if name in w.start then w.start[name] else []
  }

  datatype Visit = Chosen(list: seq<Version>) | Refused | Aborted

  /** What visiting a package comes to; of a non-empty list the head is chosen. */
  function Outcome(w: World, name: string): (v: Visit)
    ensures v.Chosen? ==> v.list != []
  {
    match w.getPkt
    case None => if Start(w, name) == [] then Refused else Chosen(Start(w, name))
    case Some(f) =>
      match AddAll(Start(w, name), f(name).offers)
      case Invalid => Refused
      case Clash => Aborted
      case Inserted(l) => if f(name).ok && l != [] then Chosen(l) else Refused
  }

  /** The dependencies of the chosen version. */
  function Deps(w: World, name: string): seq<string>
  {
    var v := Outcome(w, name);
    if v.Chosen? then v.list[0].deps else []
  }

  lemma {:induction false} HeldIsListed(l: seq<Version>, v: string)
    requires Holds(l, v)
    ensures l != []
  {
  }

  lemma {:induction false} NothingAdded(l: seq<Version>)
    ensures AddAll(l, []) == Inserted(l)
  {
  }

  lemma {:induction false} AddedSomething(l: seq<Version>, offers: seq<Version>)
    requires AddAll(l, offers).Inserted?
    ensures AddAll(l, offers).list == [] <==> l == [] && offers == []
  {
    hide AddAll, Holds;
    AddAllMembers(l, offers);
    var r := AddAll(l, offers).list;
    if l != [] {
      assert l[0] in r;
    } else if offers != [] {
      assert offers[0] in offers;
      HeldIsListed(r, offers[0].version);
    } else {
      NothingAdded(l);
    }
  }

  /** When a version can be chosen: the callback, if there is one, adds its versions without an error and reports
      success, and there was or is at least one version. */
  lemma {:induction false} ChoiceMeans(w: World, name: string)
    ensures w.getPkt.None? ==>
              && (Outcome(w, name).Chosen? <==> Start(w, name) != [])
              && (Outcome(w, name).Chosen? ==> Outcome(w, name).list == Start(w, name))
    ensures w.getPkt.Some? ==>
              var added, answer := AddAll(Start(w, name), w.getPkt.value(name).offers), w.getPkt.value(name);
              && (Outcome(w, name).Chosen? <==>
                    added.Inserted? && answer.ok && (Start(w, name) != [] || answer.offers != []))
              && (Outcome(w, name) == Aborted <==> added == Clash)
              && (Outcome(w, name).Chosen? ==> Outcome(w, name).list == added.list)
  {
    hide Insert, Holds, Add;
    if w.getPkt.Some? {
      var offers := w.getPkt.value(name).offers;
      if AddAll(Start(w, name), offers).Inserted? {
        AddedSomething(Start(w, name), offers);
      }
    }
  }

  /** The dependencies that a run follows are those of the chosen version, and if the callback offered it, they are
      those of the first offer of that version string, in reverse. */
  lemma {:induction false} DepsAreOffered(w: World, name: string)
    requires Outcome(w, name).Chosen?
    ensures var chosen := Outcome(w, name).list[0];
            && Deps(w, name) == chosen.deps
            && (chosen in Start(w, name) ||
                (w.getPkt.Some? && !Holds(Start(w, name), chosen.version)
                 && OfferedAs(w.getPkt.value(name).offers, chosen)))
  {
    hide AddAll, Holds, OfferedAs;
    var chosen := Outcome(w, name).list[0];
    if chosen !in Start(w, name) {
      AddAllSource(Start(w, name), w.getPkt.value(name).offers, chosen);
    }
  }

  // ---------- Reachability ----------

  predicate IsPath(w: World, roots: seq<string>, path: seq<string>)
  {
    && path != []
    && path[0] in roots
    && forall i {:trigger path[i]} :: 0 < i < |path| ==> path[i] in Deps(w, path[i - 1])
  }

  /** `name` is an initial name or is reached from one through dependencies of chosen versions. */
  ghost predicate Reachable(w: World, roots: seq<string>, name: string)
  {
    exists path :: IsPath(w, roots, path) && path[|path| - 1] == name
  }

  lemma {:induction false} RootReachable(w: World, roots: seq<string>, name: string)
    requires name in roots
    ensures Reachable(w, roots, name)
  {
    assert IsPath(w, roots, [name]);
  }

  lemma {:induction false} DepReachable(w: World, roots: seq<string>, name: string, dep: string)
    requires Reachable(w, roots, name) && dep in Deps(w, name)
    ensures Reachable(w, roots, dep)
  {
    var path :| IsPath(w, roots, path) && path[|path| - 1] == name;
    var longer := path + [dep];
    forall i | 0 < i < |longer| ensures longer[i] in Deps(w, longer[i - 1]) {
      assert i < |path| ==> longer[i] == path[i] && longer[i - 1] == path[i - 1];
    }
    assert IsPath(w, roots, longer);
  }

  /** Every closed set of names that contains the initial ones contains all reachable ones. */
  lemma {:induction false} ReachableLeast(w: World, roots: seq<string>, s: set<string>, path: seq<string>)
    requires forall n :: n in roots ==> n in s
    requires forall n, d :: n in s && d in Deps(w, n) ==> d in s
    requires IsPath(w, roots, path)
    ensures path[|path| - 1] in s
  {
    var k := |path| - 1;
    if k == 0 {
    } else {
      var init := path[..k];
      assert IsPath(w, roots, init) by {
        forall i | 0 < i < |init| ensures init[i] in Deps(w, init[i - 1]) { assert init[i] == path[i]; }
      }
      ReachableLeast(w, roots, s, init);
      assert path[k] in Deps(w, path[k - 1]);
    }
  }

  // ---------- The worklist ----------

  predicate NoRepeats(names: seq<string>)
  {
    forall i, j :: 0 <= i < j < |names| ==> names[i] != names[j]
  }

  /** The place of a name in the list. */
  function Index(names: seq<string>, name: string): (i: nat)
    requires name in names
    ensures i < |names| && names[i] == name
    ensures forall j :: 0 <= j < |names| && names[j] == name && NoRepeats(names) ==> j == i
  {
    if names[0] == name then 0 else 1 + Index(names[1..], name)
  }

  /** Appending names one by one, unless they are already there. */
  function AddNames(names: seq<string>, deps: seq<string>): seq<string>
    decreases |deps|
  {
    if deps == [] then names
    else AddNames(if deps[0] in names then names else names + [deps[0]], deps[1..])
  }

  lemma {:induction false} AddNamesKeeps(names: seq<string>, deps: seq<string>)
    ensures names <= AddNames(names, deps)
    ensures forall n :: n in AddNames(names, deps) <==> n in names || n in deps
    ensures NoRepeats(names) ==> NoRepeats(AddNames(names, deps))
    decreases |deps|
  {
    if deps == [] {
    } else {
      AddNamesKeeps(if deps[0] in names then names else names + [deps[0]], deps[1..]);
      assert deps == [deps[0]] + deps[1..];
    }
  }

  /** New names go to the end of the list in the order of the dependencies. */
  lemma {:induction false} AddNamesFresh(names: seq<string>, deps: seq<string>)
    requires NoRepeats(names + deps)
    ensures AddNames(names, deps) == names + deps
    decreases |deps|
  {
    if deps == [] {
      assert names + deps == names;
    } else {
      var all := names + deps;
      assert all[|names|] == deps[0] && forall i :: 0 <= i < |names| ==> all[i] == names[i];
      assert (names + [deps[0]]) + deps[1..] == all;
      AddNamesFresh(names + [deps[0]], deps[1..]);
    }
  }

  lemma {:induction false} AddOne(names: seq<string>, d: string)
    ensures AddNames(names, [d]) == if d in names then names else names + [d]
  {
    assert [d][1..] == [];
  }

  lemma {:induction false} AddNamesSnoc(names: seq<string>, deps: seq<string>, d: string)
    ensures AddNames(names, deps + [d]) == (var r := AddNames(names, deps); if d in r then r else r + [d])
    decreases |deps|
  {
    if deps == [] {
      assert (deps + [d])[1..] == [];
    } else {
      assert (deps + [d])[1..] == deps[1..] + [d];
      AddNamesSnoc(if deps[0] in names then names else names + [deps[0]], deps[1..], d);
    }
  }

  /** The package names after the first `i` packages of the growing list have been visited. */
  function Frontier(w: World, roots: seq<string>, i: nat): seq<string>
  {
    if i == 0 then roots else
    var l := Frontier(w, roots, i - 1);
    if i - 1 < |l| then AddNames(l, Deps(w, l[i - 1])) else l
  }

  lemma {:induction false} FrontierSound(w: World, roots: seq<string>, i: nat)
    ensures roots <= Frontier(w, roots, i)
    ensures forall n :: n in Frontier(w, roots, i) ==> Reachable(w, roots, n)
    ensures NoRepeats(roots) ==> NoRepeats(Frontier(w, roots, i))
  {
    hide Reachable, Deps;
    if i == 0 {
      forall n | n in roots ensures Reachable(w, roots, n) { RootReachable(w, roots, n); }
    } else {
      FrontierSound(w, roots, i - 1);
      var l := Frontier(w, roots, i - 1);
      if i - 1 < |l| {
        var name := l[i - 1];
        AddNamesKeeps(l, Deps(w, name));
        assert name in l;
        forall d | d in Deps(w, name) ensures Reachable(w, roots, d) { DepReachable(w, roots, name, d); }
      }
    }
  }

  /** Visited names have all their dependencies in the list. */
  lemma {:induction false} FrontierClosed(w: World, roots: seq<string>, i: nat, j: nat, d: string)
    requires j < i && j < |Frontier(w, roots, i)| && d in Deps(w, Frontier(w, roots, i)[j])
    ensures d in Frontier(w, roots, i)
  {
    hide Deps;
    var l := Frontier(w, roots, i - 1);
    if i - 1 < |l| {
      AddNamesKeeps(l, Deps(w, l[i - 1]));
    }
    if j < i - 1 && j < |l| {
      FrontierClosed(w, roots, i - 1, j, d);
    }
  }

  /** Once every name in the list has been visited, the list holds exactly the reachable names. */
  lemma {:induction false} FrontierComplete(w: World, roots: seq<string>, i: nat)
    requires |Frontier(w, roots, i)| <= i
    ensures forall n :: n in Frontier(w, roots, i) <==> Reachable(w, roots, n)
  {
    var l := Frontier(w, roots, i);
    FrontierSound(w, roots, i);
    var s := set n | n in l;
    forall n, d | n in s && d in Deps(w, n) ensures d in s {
      var j :| 0 <= j < |l| && l[j] == n;
      FrontierClosed(w, roots, i, j, d);
    }
    forall n | Reachable(w, roots, n) ensures n in l {
      var path :| IsPath(w, roots, path) && path[|path| - 1] == n;
      ReachableLeast(w, roots, s, path);
    }
  }

  /** The callback and the initial names stay within a finite set closed under dependencies of chosen versions. */
  ghost predicate Bounds(w: World, roots: seq<string>, universe: set<string>)
  {
    && (forall n :: n in roots ==> n in universe)
    && (forall n, d :: n in universe && d in Deps(w, n) ==> d in universe)
  }

  lemma {:induction false} NoRepeatsCount(l: seq<string>, s: set<string>)
    requires NoRepeats(l) && forall n :: n in l ==> n in s
    ensures |l| <= |s|
  {
    if l == [] {
    } else {
      var k := |l| - 1;
      NoRepeatsCount(l[..k], s - {l[k]});
    }
  }

  /** A finite set of names closed under dependencies bounds every list of the walk. */
  lemma {:induction false} FrontierBounded(w: World, roots: seq<string>, i: nat, universe: set<string>)
    requires NoRepeats(roots)
    requires Bounds(w, roots, universe)
    ensures forall n :: n in Frontier(w, roots, i) ==> n in universe
    ensures |Frontier(w, roots, i)| <= |universe|
  {
    FrontierSound(w, roots, i);
    var l := Frontier(w, roots, i);
    forall n | n in l ensures n in universe {
      var path :| IsPath(w, roots, path) && path[|path| - 1] == n;
      ReachableLeast(w, roots, universe, path);
    }
    NoRepeatsCount(l, universe);
  }

  ghost predicate AllChosen(w: World, roots: seq<string>)
  {
    forall n :: Reachable(w, roots, n) ==> Outcome(w, n).Chosen?
  }

  /** In discovery order, package `k` is the first for which no version is chosen, because of `v`. */
  predicate StopsAt(w: World, roots: seq<string>, k: nat, v: Visit)
  {
    var names := Frontier(w, roots, k);
    && !v.Chosen? && k < |names| && Outcome(w, names[k]) == v
    && forall j :: 0 <= j < k ==> Outcome(w, names[j]).Chosen?
  }

  lemma {:induction false} StopsReachable(w: World, roots: seq<string>, k: nat, v: Visit)
    requires StopsAt(w, roots, k, v)
    ensures exists n :: Reachable(w, roots, n) && Outcome(w, n) == v
    ensures !AllChosen(w, roots)
  {
    FrontierSound(w, roots, k);
    assert Frontier(w, roots, k)[k] in Frontier(w, roots, k);
  }

  lemma {:induction false} FrontierGrows(w: World, roots: seq<string>, i: nat, j: nat)
    requires i <= j
    ensures Frontier(w, roots, i) <= Frontier(w, roots, j)
    decreases j - i
  {
    hide Deps;
    if i == j {
    } else {
      FrontierGrows(w, roots, i, j - 1);
      var l := Frontier(w, roots, j - 1);
      if j - 1 < |l| {
        AddNamesKeeps(l, Deps(w, l[j - 1]));
      }
    }
  }

  /** There is at most one place where a run can stop, and then only for one reason. */
  lemma {:induction false} StopsOnce(w: World, roots: seq<string>, k: nat, v: Visit, k': nat, v': Visit)
    requires StopsAt(w, roots, k, v) && StopsAt(w, roots, k', v')
    ensures k == k' && v == v'
  {
    hide Outcome;
    if k <= k' {
      FrontierGrows(w, roots, k, k');
    } else {
      FrontierGrows(w, roots, k', k);
    }
  }

  /** The versions a package has had offered, before the run or by the callback. */
  predicate Offered(w: World, name: string, version: string)
  {
    || Holds(Start(w, name), version)
    || (w.getPkt.Some? && exists o :: o in w.getPkt.value(name).offers && o.version == version)
  }

  /** The list of a visited package holds exactly the offered version strings. */
  lemma {:induction false} OfferedIsListed(w: World, name: string, v: string)
    requires Outcome(w, name).Chosen?
    ensures Offered(w, name, v) <==> Holds(Outcome(w, name).list, v)
  {
    hide AddAll, Add, Insert;
    var start, l := Start(w, name), Outcome(w, name).list;
    if w.getPkt.Some? {
      var offers := w.getPkt.value(name).offers;
      AddAllMembers(start, offers);
      if Holds(start, v) {
        HoldsMono(start, l, v);
      }
      if Holds(l, v) {
        var i :| 0 <= i < |l| && l[i].version == v;
        assert l[i] in l;
      }
    }
  }

  lemma {:induction false} ListSound(w: World, name: string)
    requires Outcome(w, name).Chosen? && Sound(Start(w, name))
    ensures Sound(Outcome(w, name).list)
  {
    hide AddAll, Sound;
    if w.getPkt.Some? {
      AddAllSound(Start(w, name), w.getPkt.value(name).offers);
    }
  }

  /** The chosen version is one of those offered, and when all of them are regular no offered version is greater. */
  lemma {:induction false} ChosenIsMaximum(w: World, name: string)
    requires Outcome(w, name).Chosen? && Sound(Start(w, name))
    ensures var chosen := Outcome(w, name).list[0].version;
            && Offered(w, name, chosen)
            && ((forall v :: Offered(w, name, v) ==> Regular(v)) ==>
                  forall v :: Offered(w, name, v) ==> v == chosen || Compare(chosen, v) == GT)
  {
    hide Regular, Compare, Offered, Outcome, Start, Distinct;
    ListSound(w, name);
    var l := Outcome(w, name).list;
    forall i | 0 <= i < |l| ensures Offered(w, name, l[i].version) {
      OfferedIsListed(w, name, l[i].version);
    }
    if forall v :: Offered(w, name, v) ==> Regular(v) {
      HeadIsMaximum(l);
      forall v | Offered(w, name, v) ensures v == l[0].version || Compare(l[0].version, v) == GT {
        OfferedIsListed(w, name, v);
      }
    }
  }
}
