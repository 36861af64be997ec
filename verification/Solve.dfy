/** The dependency solver of tools/solve.c. The linked list of packages and the lists of versions are sequences;
    packages are objects that are updated while the list that holds them grows. */
module Solve {
  import opened Chars
  import opened CNumber
  import opened VersionOrder
  import opened VersionLoops
  import opened Available
  import opened Discovery

  class Package {
    const name: string
    var available: seq<Version>
    var chosen: Option<Version>

    constructor (name: string)
      ensures this.name == name && available == [] && chosen == None
    {
      this.name := name;
      available, chosen := [], None;
    }
  }

  /** Returning 0, returning -1, and calling abort. */
  datatype Status = Ok | Err | Abort

  function StatusOf(r: Insertion): Status
  {
    match r
    case Inserted(_) => Ok
    case Invalid => Err
    case Clash => Abort
  }

  /** A run succeeds exactly when every reachable name has a version to choose. It fails, or aborts, exactly when
      visiting the first package in discovery order without one does. */
  ghost predicate RunReturns(w: World, roots: seq<string>, r: Status)
  {
    && (r == Ok <==> AllChosen(w, roots))
    && (r == Err <==> exists k :: StopsAt(w, roots, k, Refused))
    && (r == Abort <==> exists k :: StopsAt(w, roots, k, Aborted))
  }

  lemma {:induction false} ReturnsOk(w: World, roots: seq<string>)
    requires AllChosen(w, roots)
    ensures RunReturns(w, roots, Ok)
  {
    hide StopsAt, AllChosen;
    forall k, v ensures !StopsAt(w, roots, k, v) {
      if StopsAt(w, roots, k, v) {
        StopsReachable(w, roots, k, v);
      }
    }
  }

  lemma {:induction false} ReturnsAt(w: World, roots: seq<string>, k: nat, r: Status)
    requires r != Ok && StopsAt(w, roots, k, if r == Err then Refused else Aborted)
    ensures RunReturns(w, roots, r)
  {
    hide StopsAt, AllChosen;
    var v := if r == Err then Refused else Aborted;
    StopsReachable(w, roots, k, v);
    forall k', v' ensures StopsAt(w, roots, k', v') ==> v' == v {
      if StopsAt(w, roots, k', v') {
        StopsOnce(w, roots, k, v, k', v');
      }
    }
  }

  class SolveProblem {
    const getPkt: Option<string -> Answer>
    var packages: seq<Package>
    var solved: int

    ghost function Names(): (names: seq<string>)
      reads this`packages
      ensures |names| == |packages| && forall i :: 0 <= i < |names| ==> names[i] == packages[i].name
    {
      var list := packages;
      seq(|list|, i requires 0 <= i < |list| => list[i].name)
    }

    /** Names are unique, lists are descending without repeats, and what is chosen is available. */
    ghost predicate Consistent()
      reads this`packages, packages
    {
      && NoRepeats(Names())
      && (forall p :: p in packages ==> Sound(p.available))
      && (forall p :: p in packages && p.chosen.Some? ==> p.chosen.value in p.available)
    }

    ghost predicate NothingChosen()
      reads this`packages, packages
    {
      forall p :: p in packages ==> p.chosen == None
    }

    /** Between calls, nothing is chosen before the run. */
    ghost predicate Valid()
      reads this, packages
    {
      Consistent() && (solved == 0 ==> NothingChosen())
    }

    constructor (getPkt: Option<string -> Answer>)
      ensures Valid() && packages == [] && solved == 0 && this.getPkt == getPkt
    {
      this.getPkt := getPkt;
      packages, solved := [], 0;
    }

    /** The callback and the lists of versions, by name. */
    ghost function TheWorld(): World
      reads this`packages, packages
    {
      World(getPkt, map n | n in Names() :: packages[Index(Names(), n)].available)
    }

    method PkgLookup(name: string) returns (pkg: Package?)
      ensures pkg == null ==> name !in Names()
      ensures pkg != null ==> pkg in packages && pkg.name == name
    {
      var i := 0;
      while i < |packages|
        invariant 0 <= i <= |packages|
        invariant name !in Names()[..i]
      {
        if packages[i].name == name {
          return packages[i];
        }
        i := i + 1;
      }
      assert Names()[..i] == Names();
      return null;
    }

    method PkgAdd(name: string) returns (pkg: Package)
      requires Consistent()
      modifies this`packages
      ensures Consistent() && (old(Valid()) ==> Valid()) && pkg in packages && pkg.name == name
      ensures name in old(Names()) ==> packages == old(packages)
      ensures name !in old(Names()) ==>
                fresh(pkg) && packages == old(packages) + [pkg] && pkg.available == [] && pkg.chosen == None
      ensures Names() == AddNames(old(Names()), [name])
    {
      hide Names;
      var found := PkgLookup(name);
      if found != null {
        return found;
      }
      pkg := new Package(name);
      packages := packages + [pkg];
      assert Names() == old(Names()) + [name];
    }

    method ConstraintAdd(constraint: string) returns (r: Status)
      requires Consistent()
      modifies this`packages
      ensures r == Ok && Consistent() && (old(Valid()) ==> Valid())
      ensures old(packages) <= packages
      ensures forall p :: p in packages && p !in old(packages) ==> fresh(p) && p.available == [] && p.chosen == None
      ensures Names() == AddNames(old(Names()), [constraint])
    {
      var _ := PkgAdd(constraint);
      return Ok;
    }

    /** The walk over the list of a package that inserts a version not in it yet. */
    method InsertVersion(pkg: Package, version: CString, deps: seq<string>) returns (r: Status)
      modifies pkg`available
      ensures var result := Insert(old(pkg.available), Made(Version(version, deps)));
              r == StatusOf(result) && pkg.available == if result.Inserted? then result.list else old(pkg.available)
      ensures r == Ok ==>
                exists x :: x in pkg.available && x.version == version && InReverse(x.deps, deps)
    {
      hide Compare, InReverse;
      var dependencies := [];
      for i := 0 to |deps|
        invariant pkg.available == old(pkg.available) && dependencies == Reversed(deps[..i])
      {
        dependencies := [deps[i]] + dependencies;
        ReversedSnoc(deps[..i], deps[i]);
        assert deps[..i + 1] == deps[..i] + [deps[i]];
      }
      assert deps[..|deps|] == deps;
      var ver := Version(version, dependencies);
      var l := pkg.available;
      var k := 0;
      while k < |l|
        invariant 0 <= k <= |l|
        invariant pkg.available == l && Insert(l, ver) == Behind(l[..k], Insert(l[k..], ver))
      {
        WalkAt(l, k, ver);
        var cmpres := VersionCmp(version, l[k].version);
        match cmpres {
          case FAILED => return Err;
          case EQ => return Abort;
          case GT => break;
          case LT =>
        }
        k := k + 1;
      }
      WalkAt(l, k, ver);
      pkg.available := l[..k] + ([ver] + l[k..]);
      ReversedIs(deps);
      assert pkg.available[k] == ver;
      return Ok;
    }

    /** The scan for a version string that is in the list already. */
    method HasVersion(pkg: Package, version: CString) returns (found: bool)
      ensures found <==> Holds(pkg.available, version)
    {
      var i := 0;
      while i < |pkg.available|
        invariant 0 <= i <= |pkg.available|
        invariant forall j :: 0 <= j < i ==> pkg.available[j].version != version
      {
        if pkg.available[i].version == version {
          return true;
        }
        i := i + 1;
      }
      return false;
    }

    method PackageVersionAdd(name: string, version: CString, deps: seq<string>) returns (r: Status, pkg: Package)
      requires Consistent()
      modifies this`packages, packages
      ensures pkg in packages && pkg.name == name
      ensures Consistent() && (old(Valid()) ==> Valid())
      ensures Names() == AddNames(old(Names()), [name]) && old(packages) <= packages
      ensures pkg in old(packages) || fresh(pkg)
      ensures forall p :: p in old(packages) ==>
                p.chosen == old(p.chosen) && (p != pkg ==> p.available == old(p.available))
      ensures var was := if name in old(Names()) then old(pkg.available) else [];
              var result := Add(was, Version(version, deps));
              r == StatusOf(result) && pkg.available == if result.Inserted? then result.list else was
    {
      hide Compare, Insert, Sound, Names;
      pkg := PkgAdd(name);
      ghost var was := pkg.available;
      var found := HasVersion(pkg, version);
      if found {
        return Ok, pkg;
      }
      r := InsertVersion(pkg, version, deps);
      if r == Ok {
        AddSound(was, Version(version, deps));
      }
    }

    lemma {:induction false} KnownName(k: nat)
      requires Consistent() && k < |packages|
      ensures packages[k].name in Names() && AddNames(Names(), [packages[k].name]) == Names()
      ensures forall p :: p in packages && p.name == packages[k].name ==> p == packages[k]
    {
      assert Names()[k] == packages[k].name;
    }

    /** The callback of package `pkg`: its answer is added version by version. */
    method GetPkt(f: string -> Answer, k: nat) returns (r: Status)
      requires Consistent() && k < |packages|
      modifies this`packages, packages
      ensures Consistent() && packages == old(packages)
      ensures forall p :: p in packages ==>
                p.chosen == old(p.chosen) && (p != packages[k] ==> p.available == old(p.available))
      ensures var pkg := packages[k];
              var result := AddAll(old(pkg.available), f(pkg.name).offers);
              && (r == Abort <==> result == Clash)
              && (r == Ok <==> result.Inserted? && f(pkg.name).ok)
              && (result.Inserted? ==> pkg.available == result.list)
    {
      hide Compare, Insert, Sound, Add, Consistent, AddNames, NoRepeats;
      var pkg := packages[k];
      var answer := f(pkg.name);
      var i := 0;
      while i < |answer.offers|
        invariant 0 <= i <= |answer.offers|
        invariant Consistent() && packages == old(packages)
        invariant forall p :: p in packages ==>
                    p.chosen == old(p.chosen) && (p != pkg ==> p.available == old(p.available))
        invariant AddAll(old(pkg.available), answer.offers) == AddAll(pkg.available, answer.offers[i..])
      {
        var offer := answer.offers[i];
        assert answer.offers[i..][0] == offer && answer.offers[i..][1..] == answer.offers[i + 1..];
        KnownName(k);
        var status, p := PackageVersionAdd(pkg.name, offer.version, offer.deps);
        if status != Ok {
          return status;
        }
        i := i + 1;
      }
      return if answer.ok then Ok else Err;
    }

    /** Package `j` has been visited: its list is final and its head is chosen. */
    ghost predicate IsVisited(w: World, j: nat)
      requires j < |packages|
      reads this`packages, packages
    {
      var v := Outcome(w, packages[j].name);
      v.Chosen? && packages[j].available == v.list && packages[j].chosen == Some(v.list[0])
    }

    ghost predicate IsUntouched(w: World, j: nat)
      requires j < |packages|
      reads this`packages, packages
    {
      packages[j].available == Start(w, packages[j].name) && packages[j].chosen == None
    }

    lemma {:induction false} NoNames()
      ensures AddNames(Names(), []) == Names()
    {
    }

    /** The constraints of the chosen version are added to the list that is being walked. */
    method AddDependencies(deps: seq<string>)
      requires Consistent()
      modifies this`packages
      ensures Consistent() && old(packages) <= packages
      ensures forall p :: p in packages && p !in old(packages) ==> fresh(p) && p.available == [] && p.chosen == None
      ensures Names() == AddNames(old(Names()), deps)
    {
      hide Consistent, NothingChosen, AddNames;
      assert deps[..0] == [];
      NoNames();
      var k := 0;
      while k < |deps|
        invariant 0 <= k <= |deps|
        invariant Consistent() && old(packages) <= packages
        invariant forall p :: p in packages && p !in old(packages) ==> fresh(p) && p.available == [] && p.chosen == None
        invariant Names() == AddNames(old(Names()), deps[..k])
      {
        AddNamesSnoc(old(Names()), deps[..k], deps[k]);
        assert deps[..k + 1] == deps[..k] + [deps[k]];
        AddOne(Names(), deps[k]);
        var _ := ConstraintAdd(deps[k]);
        k := k + 1;
      }
      assert deps[..k] == deps;
    }

    lemma {:induction false} ValidStart()
      requires Valid()
      ensures Consistent()
    {
    }

    /** One round of the run, at package `i` of the list. */
    method VisitPackage(i: nat, ghost w: World) returns (r: Status)
      requires Consistent() && i < |packages| && w.getPkt == getPkt
      requires IsUntouched(w, i)
      modifies this`packages, packages
      ensures Consistent() && old(packages) <= packages
      ensures r == match Outcome(w, packages[i].name) case Chosen(_) => Ok case Refused => Err case Aborted => Abort
      ensures r == Ok ==> IsVisited(w, i) && Names() == AddNames(old(Names()), Deps(w, packages[i].name))
      ensures r != Ok ==> packages == old(packages) && packages[i].chosen == None
      ensures forall p :: p in old(packages) && p != packages[i] ==>
                p.available == old(p.available) && p.chosen == old(p.chosen)
      ensures forall p :: p in packages && p !in old(packages) ==> fresh(p) && p.available == [] && p.chosen == None
    {
      hide Compare, Insert, Sound, AddAll, NoRepeats;
      var pkg := packages[i];
      if getPkt.Some? {
        var status := GetPkt(getPkt.value, i);
        if status != Ok {
          return status;
        }
      }
      if pkg.available == [] {
        return Err;
      }
      pkg.chosen := Some(pkg.available[0]);
      AddDependencies(pkg.available[0].deps);
      return Ok;
    }

    /** The list during the run: discovered so far by visiting `i` packages, the others as they were. */
    ghost predicate Progress(w: World, roots: seq<string>, i: nat)
      reads this`packages, packages
    {
      && i <= |packages|
      && Names() == Frontier(w, roots, i)
      && (forall j :: 0 <= j < i ==> IsVisited(w, j))
      && (forall j :: i <= j < |packages| ==> IsUntouched(w, j))
    }

    /** The final list: exactly the reachable names, each once and in discovery order, each with the list of all
        versions added for it and its head chosen. */
    ghost predicate Complete(w: World, roots: seq<string>)
      reads this`packages, packages
    {
      && Names() == Frontier(w, roots, |packages|)
      && NoRepeats(Names())
      && (forall n :: n in Names() <==> Reachable(w, roots, n))
      && (forall j :: 0 <= j < |packages| ==> IsVisited(w, j))
    }

    /** Every dependency of a chosen version is a package of the list. */
    ghost predicate DependenciesHeld()
      reads this`packages, packages
    {
      forall p, d :: p in packages && p.chosen.Some? && d in p.chosen.value.deps ==> d in Names()
    }

    lemma {:induction false} CompleteIsClosed(w: World, roots: seq<string>)
      requires Complete(w, roots)
      ensures DependenciesHeld() && forall p :: p in packages ==> p.chosen.Some?
    {
      hide Reachable, Outcome, NoRepeats;
      forall p, d | p in packages && p.chosen.Some? && d in p.chosen.value.deps ensures d in Names() {
        var j :| 0 <= j < |packages| && packages[j] == p;
        assert IsVisited(w, j) && Names()[j] in Names();
        DepReachable(w, roots, p.name, d);
      }
      forall p | p in packages ensures p.chosen.Some? {
        var j :| 0 <= j < |packages| && packages[j] == p;
        assert IsVisited(w, j);
      }
    }

    lemma {:induction false} StartIsUntouched()
      requires Valid() && solved == 0
      ensures Consistent() && NoRepeats(Names()) && Progress(TheWorld(), Names(), 0)
      ensures TheWorld().getPkt == getPkt && forall n :: n in Names() <==> n in TheWorld().start
    {
      forall j | 0 <= j < |packages| ensures IsUntouched(TheWorld(), j) {
        assert Names()[j] in Names();
      }
    }

    lemma {:induction false} OnlyOnce(i: nat)
      requires Consistent() && i < |packages|
      ensures forall j :: 0 <= j < |packages| && j != i ==> packages[j] != packages[i]
    {
      forall j | 0 <= j < |packages| && j != i ensures packages[j] != packages[i] {
        assert Names()[j] != Names()[i];
      }
    }

    lemma {:induction false} NewIsNoRoot(w: World, roots: seq<string>, i: nat, j: nat)
      requires Consistent() && |roots| <= j < |packages|
      requires forall k :: 0 <= k < |roots| ==> roots[k] == packages[k].name
      requires forall n :: n in roots <==> n in w.start
      ensures Start(w, packages[j].name) == []
    {
      assert packages[j].name == Names()[j];
      forall k | 0 <= k < |roots| ensures roots[k] != packages[j].name { assert roots[k] == Names()[k]; }
    }

    /** Visiting the next package either makes progress or shows where the run stops. */
    method Advance(i: nat, ghost w: World, ghost roots: seq<string>) returns (r: Status)
      requires Consistent() && Progress(w, roots, i) && i < |packages| && w.getPkt == getPkt
      requires forall n :: n in roots <==> n in w.start
      modifies this`packages, packages
      ensures Consistent() && (r != Ok ==> packages == old(packages))
      ensures forall k :: 0 <= k < |packages| ==> packages[k] in old(packages) || fresh(packages[k])
      ensures r == Ok ==> Progress(w, roots, i + 1) && i < |packages|
      ensures r == Err ==> StopsAt(w, roots, i, Refused)
      ensures r == Abort ==> StopsAt(w, roots, i, Aborted)
    {
      hide Outcome, Deps, AddNames, Sound, Consistent, NoRepeats, Reachable, Start;
      FrontierSound(w, roots, i);
      KnownName(i);
      OnlyOnce(i);
      ghost var names := Names();
      forall j | 0 <= j < i ensures Outcome(w, names[j]).Chosen? { assert IsVisited(w, j); }
      r := VisitPackage(i, w);
      if r == Ok {
        assert Names()[i] == Frontier(w, roots, i)[i];
        forall j | i + 1 <= j < |packages| ensures IsUntouched(w, j) {
          if j < |old(packages)| {
            assert old(IsUntouched(w, j));
          } else {
            OnlyOnce(j);
            NewIsNoRoot(w, roots, i, j);
          }
        }
        forall j | 0 <= j < i ensures IsVisited(w, j) {
          assert old(IsVisited(w, j));
        }
      }
    }

    lemma {:induction false} ProgressBounded(w: World, roots: seq<string>, i: nat, universe: set<string>)
      requires Consistent() && NoRepeats(roots) && Progress(w, roots, i) && Bounds(w, roots, universe)
      ensures |packages| <= |universe|
    {
      FrontierBounded(w, roots, i, universe);
    }

    lemma {:induction false} AllVisited(w: World, roots: seq<string>)
      requires Consistent() && Progress(w, roots, |packages|)
      ensures Complete(w, roots) && AllChosen(w, roots)
    {
      FrontierComplete(w, roots, |packages|);
      forall n | Reachable(w, roots, n) ensures Outcome(w, n).Chosen? {
        var j := Index(Names(), n);
        assert IsVisited(w, j);
      }
    }

    /** The loop over the list that grows while it is walked; a finite set of names bounds it. */
    method Walk(ghost w: World, ghost roots: seq<string>, ghost universe: set<string>) returns (r: Status)
      requires Consistent() && Progress(w, roots, 0) && w.getPkt == getPkt
      requires forall n :: n in roots <==> n in w.start
      requires NoRepeats(roots) && Bounds(w, roots, universe)
      modifies this`packages, packages
      ensures Consistent()
      ensures r == Ok ==> Complete(w, roots)
      ensures RunReturns(w, roots, r)
    {
      hide Progress, AllChosen, StopsAt, RunReturns, Complete, Bounds, Consistent, Names, NoRepeats;
      var i := 0;
      while i < |packages|
        invariant Consistent() && Progress(w, roots, i)
        invariant i <= |packages|
        invariant forall k :: 0 <= k < |packages| ==> packages[k] in old(packages) || fresh(packages[k])
        decreases |universe| - i
      {
        ProgressBounded(w, roots, i, universe);
        ghost var before := packages;
        r := Advance(i, w, roots);
        if r != Ok {
          ReturnsAt(w, roots, i, r);
          return;
        }
        forall k | 0 <= k < |packages| ensures packages[k] in old(packages) || fresh(packages[k]) {
          if packages[k] in before {
            var j :| 0 <= j < |before| && before[j] == packages[k];
          }
        }
        i := i + 1;
      }
      AllVisited(w, roots);
      ReturnsOk(w, roots);
      return Ok;
    }

    method SolveRun(ghost universe: set<string>) returns (r: Status)
      requires Valid()
      requires solved == 0 ==> Bounds(TheWorld(), Names(), universe)
      modifies this, packages
      ensures r != Abort ==> Valid()
      ensures old(solved) != 0 ==> r == Err && packages == old(packages) && solved == old(solved)
      ensures old(solved) != 0 ==> forall p :: p in packages ==> unchanged(p)
      ensures old(solved) == 0 && r != Abort ==> solved == if r == Ok then 1 else -1
      ensures old(solved) == 0 && r == Ok ==> Complete(old(TheWorld()), old(Names()))
      ensures old(solved) == 0 && r == Ok ==> DependenciesHeld() && forall p :: p in packages ==> p.chosen.Some?
      ensures old(solved) == 0 ==> RunReturns(old(TheWorld()), old(Names()), r)
    {
      hide Progress, RunReturns, Complete, Bounds, Consistent, NothingChosen, Names, NoRepeats, TheWorld;
      hide DependenciesHeld;
      if solved != 0 {
        return Err;
      }
      StartIsUntouched();
      ghost var w, roots := TheWorld(), Names();
      r := Walk(w, roots, universe);
      if r == Ok {
        CompleteIsClosed(w, roots);
        solved := 1;
      } else if r == Err {
        solved := -1;
      }
    }

    // ---------- The result ----------

    /** The packages with a chosen version from position `j` on, with that version. */
    ghost function Picks(j: nat): seq<(string, string)>
      requires j <= |packages|
      reads this`packages, packages
      decreases |packages| - j
    {
      if j == |packages| then []
      else
        var p := packages[j];
        (if p.chosen.Some? then [(p.name, p.chosen.value.version)] else []) + Picks(j + 1)
    }

    /** The walk to the n-th package with a chosen version. If packages without one end the list,
        the C code follows a null pointer unless `n` is at most the number of chosen ones. */
    method ResultPackage(n: nat) returns (r: Option<(string, string)>)
      requires n <= |Picks(0)| || packages == [] || packages[|packages| - 1].chosen.Some?
      ensures r == if n < |Picks(0)| then Some(Picks(0)[n]) else None
    {
      var j, i := 0, 0;
      while j < |packages|
        invariant 0 <= j <= |packages| && 0 <= i <= n
        invariant i <= |Picks(0)| && Picks(0)[i..] == Picks(j)
        invariant j == |packages| ==> i == |Picks(0)|
      {
        while j < |packages| && packages[j].chosen == None
          invariant 0 <= j <= |packages|
          invariant Picks(0)[i..] == Picks(j)
          invariant j == |packages| ==> packages[|packages| - 1].chosen == None
        {
          j := j + 1;
        }
        if i == n {
          break;
        }
        assert j < |packages|;
        assert Picks(j)[1..] == Picks(j + 1);
        j, i := j + 1, i + 1;
      }
      if j == |packages| {
        return None;
      }
      return Some((packages[j].name, packages[j].chosen.value.version));
    }

    /** When every package has a chosen version, the picks enumerate the packages in order, each once. */
    lemma {:induction false} PicksAll(j: nat)
      requires j <= |packages| && forall p :: p in packages ==> p.chosen.Some?
      ensures |Picks(j)| == |packages| - j
      ensures forall x :: 0 <= x < |Picks(j)| ==>
                Picks(j)[x] == (packages[j + x].name, packages[j + x].chosen.value.version)
      decreases |packages| - j
    {
      if j == |packages| {
      } else {
        PicksAll(j + 1);
      }
    }
  }
}
