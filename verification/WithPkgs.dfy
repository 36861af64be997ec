/** The solver's callback and its result in tools/withpkgs.c. */
module WithPkgs {
  import opened Chars
  import opened Available
  import opened Discovery
  import opened Solve

  /** What the repository holds of a package: never an empty list (the C code does not check for one). */
  type Versions = l: seq<Version> | l != [] witness [Version("", [])]

  type Repo = map<string, Versions>

  /** The loop of get_pkg steps through the loaded packages instead of the versions: it offers the first version
      once for each of the `more + 1` packages behind this one in the repository's list. */
  function RepoAnswer(repo: Repo, more: string -> nat): string -> Answer
  {
    name => if name in repo then Answer(seq(more(name) + 1, _ => repo[name][0]), true) else Answer([], false)
  }

  /** The callback answers from the repository, and nothing but names is added before the run. */
  ghost predicate FromRepo(w: World, repo: Repo, more: string -> nat)
  {
    w.getPkt == Some(RepoAnswer(repo, more)) && forall n :: n in w.start ==> w.start[n] == []
  }

  /** Exactly the packages of the repository can be chosen, in the first version listed for each of them;
      visiting one never aborts. */
  lemma {:induction false} RepoOutcome(w: World, repo: Repo, more: string -> nat, name: string)
    requires FromRepo(w, repo, more)
    ensures Outcome(w, name) == if name in repo then Chosen([Made(repo[name][0])]) else Refused
  {
    assert Start(w, name) == [];
    if name in repo {
      RepeatedOffer([], repo[name][0], more(name));
    }
  }

  lemma {:induction false} SameMembers(a: seq<string>, b: seq<string>)
    requires InReverse(a, b)
    ensures forall x :: x in a <==> x in b
  {
    forall i | 0 <= i < |b| ensures b[i] in a {
      assert b[i] == a[|b| - 1 - i];
    }
  }

  /** The dependencies that a run on a repository follows from a name: those of the first version listed, in reverse. */
  lemma {:induction false} RepoDeps(w: World, repo: Repo, more: string -> nat, name: string)
    requires FromRepo(w, repo, more)
    ensures if name in repo then InReverse(Deps(w, name), repo[name][0].deps) else Deps(w, name) == []
    ensures forall d :: d in Deps(w, name) <==> name in repo && d in repo[name][0].deps
  {
    hide Outcome, Made;
    RepoOutcome(w, repo, more, name);
    if name in repo {
      MadeIs(repo[name][0]);
      SameMembers(Deps(w, name), repo[name][0].deps);
    }
  }

  /** The initial names and all dependencies of the first versions. */
  function RepoNames(repo: Repo, roots: seq<string>): set<string>
  {
    (set n | n in roots) + (set n, d | n in repo && d in repo[n][0].deps :: d)
  }

  /** A repository is finite, so a run that asks it for packages is bounded. */
  lemma {:induction false} RepoBounds(w: World, repo: Repo, more: string -> nat, roots: seq<string>)
    requires FromRepo(w, repo, more)
    ensures Bounds(w, roots, RepoNames(repo, roots))
  {
    hide Deps;
    forall n, d | d in Deps(w, n) ensures d in RepoNames(repo, roots) {
      RepoDeps(w, repo, more, n);
    }
  }

  /** A run can only succeed or fail, and succeeds exactly if every reachable name is in the repository. */
  lemma {:induction false} RepoReturns(w: World, repo: Repo, more: string -> nat, roots: seq<string>, r: Status)
    requires FromRepo(w, repo, more) && RunReturns(w, roots, r)
    ensures r != Abort
    ensures r == Ok <==> forall n :: Reachable(w, roots, n) ==> n in repo
  {
    hide Outcome, Reachable;
    forall n ensures Outcome(w, n).Chosen? <==> n in repo
             ensures Outcome(w, n) != Aborted {
      RepoOutcome(w, repo, more, n);
    }
  }

  /** Running a solver whose callback reads a repository, with any packages but no versions added before.
      It needs no bound from the caller: the names of the repository and the added ones are one. */
  method SolveFromRepo(p: SolveProblem, repo: Repo, more: string -> nat) returns (r: Status)
    requires p.Valid() && p.solved == 0 && p.getPkt == Some(RepoAnswer(repo, more))
    requires forall x :: x in p.packages ==> x.available == []
    modifies p, p.packages
    ensures p.Valid() && r != Abort
    ensures var w, roots := old(p.TheWorld()), old(p.Names());
            && FromRepo(w, repo, more)
            && (r == Ok <==> forall n :: Reachable(w, roots, n) ==> n in repo)
            && (r == Ok ==> p.Complete(w, roots))
  {
    hide RunReturns, SolveProblem.Complete, SolveProblem.Valid, Bounds, Reachable, RepoAnswer;
    ghost var w, roots := p.TheWorld(), p.Names();
    RepoBounds(w, repo, more, roots);
    r := p.SolveRun(RepoNames(repo, roots));
    RepoReturns(w, repo, more, roots, r);
  }

  /** The loop that fills the array of dependencies of one version. */
  method DependencyArray(list: seq<string>) returns (deps: array<string>)
    ensures fresh(deps) && deps[..] == list
  {
    deps := new string[|list|](_ => "");
    var n := 0;
    while n < |list|
      invariant 0 <= n <= |list| && deps[..n] == list[..n]
    {
      deps[n] := list[n];
      n := n + 1;
    }
  }

  /** get_pkg, called for a package of the list: the dependency array is built anew for every round, and the first
      version is added again and again. It does to the solver what RepoAnswer says. */
  method GetPkg(p: SolveProblem, repo: Repo, more: string -> nat, k: nat) returns (r: Status)
    requires p.Consistent() && k < |p.packages|
    modifies p`packages, p.packages
    ensures p.Consistent() && p.packages == old(p.packages)
    ensures forall x :: x in p.packages ==>
              x.chosen == old(x.chosen) && (x != p.packages[k] ==> x.available == old(x.available))
    ensures var pkg := p.packages[k];
            var answer := RepoAnswer(repo, more)(pkg.name);
            var result := AddAll(old(pkg.available), answer.offers);
            && (r == Abort <==> result == Clash)
            && (r == Ok <==> result.Inserted? && answer.ok)
            && (result.Inserted? ==> pkg.available == result.list)
  {
    hide Insert, Sound, SolveProblem.Consistent, AddNames, NoRepeats;
    var pkg := p.packages[k];
    if pkg.name !in repo {
      return Err;
    }
    ghost var was := pkg.available;
    var ver := repo[pkg.name][0];
    RepeatedOffer(was, ver, more(pkg.name));
    var round := 0;
    while round <= more(pkg.name)
      invariant p.Consistent() && p.packages == old(p.packages)
      invariant forall x :: x in p.packages ==>
                  x.chosen == old(x.chosen) && (x != pkg ==> x.available == old(x.available))
      invariant if round == 0 then pkg.available == was else Add(was, ver) == Inserted(pkg.available)
      decreases more(pkg.name) + 1 - round
    {
      var deps := DependencyArray(ver.deps);
      if round > 0 {
        AddMembers(was, ver);
      }
      p.KnownName(k);
      var added;
      r, added := p.PackageVersionAdd(pkg.name, ver.version, deps[..]);
      if r != Ok {
        return;
      }
      round := round + 1;
    }
    return Ok;
  }

  function Pair(pick: (string, string)): string { pick.0 + "," + pick.1 }

  function PickArgs(picks: seq<(string, string)>): seq<Option<string>>
  {
    if picks == [] then []
    else PickArgs(picks[..|picks| - 1]) + [Some("-p"), Some(Pair(picks[|picks| - 1]))]
  }

  function Args(argv: seq<string>): seq<Option<string>> { seq(|argv|, i requires 0 <= i < |argv| => Some(argv[i])) }

  /** The command line of withenv: the package directory, every chosen package, the old arguments,
      and the terminating NULL. */
  function Command(packagedir: string, picks: seq<(string, string)>, argv: seq<string>): seq<Option<string>>
    requires argv != []
  {
    [Some("withenv"), Some("-d"), Some(packagedir)] + PickArgs(picks) + Args(argv[1..]) + [None]
  }

  /** The argument for a package is its name, a comma and its version: cut at its first comma, as withenv does,
      it yields the two again if the name has no comma. */
  lemma {:induction false} PairCuts(name: string, version: string)
    requires ',' !in name
    ensures Find(Pair((name, version)), ',') == |name| < |Pair((name, version))|
    ensures Pair((name, version))[..|name|] == name && Pair((name, version))[|name| + 1..] == version
  {
    var t := Pair((name, version));
    assert t[..|name|] == name && t[|name|] == ',';
    FindUnique(t, ',', |name|);
  }

  lemma {:induction false} PickArgsLength(picks: seq<(string, string)>)
    ensures |PickArgs(picks)| == 2 * |picks|
  {
    if picks == [] {
    } else {
      PickArgsLength(picks[..|picks| - 1]);
    }
  }

  lemma {:induction false} PickArgsAt(picks: seq<(string, string)>, i: nat)
    requires i < |picks|
    ensures |PickArgs(picks)| == 2 * |picks|
    ensures PickArgs(picks)[2 * i] == Some("-p") && PickArgs(picks)[2 * i + 1] == Some(picks[i].0 + "," + picks[i].1)
  {
    var k := |picks| - 1;
    PickArgsLength(picks);
    PickArgsLength(picks[..k]);
    if i == k {
    } else {
      PickArgsAt(picks[..k], i);
    }
  }

  lemma {:induction false} PiecesAt<T>(a: seq<T>, b: seq<T>, c: seq<T>, d: seq<T>, k: nat)
    requires k < |b|
    ensures (a + b + c + d)[|a| + k] == b[k]
  {
  }

  /** The command line, place by place. */
  lemma {:induction false} CommandAt(packagedir: string, picks: seq<(string, string)>, argv: seq<string>)
    requires argv != []
    ensures var cmd, n := Command(packagedir, picks, argv), |picks|;
            && |cmd| == 3 + 2 * n + |argv|
            && cmd[..3] == [Some("withenv"), Some("-d"), Some(packagedir)]
            && (forall i :: 0 <= i < n ==>
                  cmd[3 + 2 * i] == Some("-p") && cmd[4 + 2 * i] == Some(picks[i].0 + "," + picks[i].1))
            && (forall i :: 1 <= i < |argv| ==> cmd[2 + 2 * n + i] == Some(argv[i]))
            && cmd[|cmd| - 1] == None
  {
    hide PickArgs, Pair;
    PickArgsLength(picks);
    var cmd, n := Command(packagedir, picks, argv), |picks|;
    var a, b, c := [Some("withenv"), Some("-d"), Some(packagedir)], PickArgs(picks), Args(argv[1..]);
    forall i | 0 <= i < n
      ensures cmd[3 + 2 * i] == Some("-p") && cmd[4 + 2 * i] == Some(picks[i].0 + "," + picks[i].1)
    {
      PickArgsAt(picks, i);
      PiecesAt(a, b, c, [None], 2 * i);
      PiecesAt(a, b, c, [None], 2 * i + 1);
    }
    forall i | 1 <= i < |argv| ensures cmd[2 + 2 * n + i] == Some(argv[i]) {
      assert c[i - 1] == Some(argv[i]);
      PiecesAt(a + b, c, [None], [], i - 1);
    }
  }

  /** The first pass: count the packages of the result. */
  method CountResult(sp: SolveProblem) returns (count: nat)
    requires forall p :: p in sp.packages ==> p.chosen.Some?
    ensures count == |sp.Picks(0)|
  {
    count := 0;
    var pick := sp.ResultPackage(count);
    while pick.Some?
      invariant count <= |sp.Picks(0)|
      invariant pick.Some? <==> count < |sp.Picks(0)|
      decreases |sp.Picks(0)| - count
    {
      count := count + 1;
      pick := sp.ResultPackage(count);
    }
  }

  method AddPick(nargv: array<Option<string>>, n: nat, pick: (string, string))
    requires n + 2 <= nargv.Length
    modifies nargv
    ensures nargv[..n + 2] == old(nargv[..n]) + [Some("-p"), Some(Pair(pick))]
    ensures nargv[n + 2..] == old(nargv[n + 2..])
  {
    nargv[n], nargv[n + 1] := Some("-p"), Some(Pair(pick));
  }

  lemma {:induction false} NoPicks()
    ensures PickArgs([]) == []
  {
  }

  lemma {:induction false} AppendTwice<T>(a: seq<T>, b: seq<T>, c: seq<T>)
    ensures (a + b) + c == a + (b + c)
  {
  }

  lemma {:induction false} PickArgsSnoc(picks: seq<(string, string)>, i: nat)
    requires i < |picks|
    ensures PickArgs(picks[..i + 1]) == PickArgs(picks[..i]) + [Some("-p"), Some(Pair(picks[i]))]
  {
    assert picks[..i + 1][..i] == picks[..i];
  }

  /** The second pass: two arguments for each package of the result. */
  method AddResult(sp: SolveProblem, nargv: array<Option<string>>, from: nat) returns (n: nat)
    requires forall p :: p in sp.packages ==> p.chosen.Some?
    requires from + 2 * |sp.Picks(0)| <= nargv.Length
    modifies nargv
    ensures n == from + 2 * |sp.Picks(0)|
    ensures nargv[..n] == old(nargv[..from]) + PickArgs(sp.Picks(0))
    ensures nargv[n..] == old(nargv[..])[n..]
  {
    hide SolveProblem.Picks, PickArgs, Pair;
    NoPicks();
    ghost var picks, was := sp.Picks(0), nargv[..];
    n := from;
    var i := 0;
    var pick := sp.ResultPackage(i);
    while pick.Some?
      invariant i <= |picks| && sp.Picks(0) == picks
      invariant pick == if i < |picks| then Some(picks[i]) else None
      invariant n == from + 2 * i && nargv[..n] == was[..from] + PickArgs(picks[..i])
      invariant nargv[n..] == was[n..]
      decreases |picks| - i
    {
      ghost var rest := nargv[n..];
      assert rest[2..] == nargv[n + 2..] && was[n..][2..] == was[n + 2..];
      AddPick(nargv, n, pick.value);
      PickArgsSnoc(picks, i);
      AppendTwice(was[..from], PickArgs(picks[..i]), [Some("-p"), Some(Pair(pick.value))]);
      n := n + 2;
      i := i + 1;
      pick := sp.ResultPackage(i);
    }
    assert picks[..i] == picks;
  }

  /** The old arguments behind the command name. */
  method CopyArgs(argv: seq<string>, nargv: array<Option<string>>, from: nat)
    requires argv != [] && from + |argv| <= nargv.Length + 1
    modifies nargv
    ensures nargv[..from + |argv| - 1] == old(nargv[..from]) + Args(argv[1..])
    ensures nargv[from + |argv| - 1..] == old(nargv[from + |argv| - 1..])
  {
    var n, i := from, 1;
    while i < |argv|
      invariant 1 <= i <= |argv| && n == from + i - 1
      invariant nargv[..n] == old(nargv[..from]) + Args(argv[1..i])
      invariant nargv[n..] == old(nargv[n..])
    {
      nargv[n] := Some(argv[i]);
      assert argv[1..i + 1] == argv[1..i] + [argv[i]];
      assert nargv[..n + 1] == nargv[..n] + [Some(argv[i])];
      n, i := n + 1, i + 1;
    }
    assert argv[1..i] == argv[1..];
  }

  /** A zeroed array with the first three arguments filled in. */
  method NewArgs(nargc: nat, packagedir: string) returns (nargv: array<Option<string>>)
    requires nargc >= 3
    ensures fresh(nargv) && nargv.Length == nargc + 1 && nargv[nargc] == None
    ensures nargv[..3] == [Some("withenv"), Some("-d"), Some(packagedir)]
  {
    nargv := new Option<string>[nargc + 1](_ => None);
    nargv[0], nargv[1], nargv[2] := Some("withenv"), Some("-d"), Some(packagedir);
  }

  /** build_args: both passes see the same packages, so the array is filled exactly up to the terminating NULL. */
  method BuildArgs(sp: SolveProblem, argv: seq<string>, packagedir: string) returns (nargv: array<Option<string>>)
    requires argv != [] && forall p :: p in sp.packages ==> p.chosen.Some?
    ensures fresh(nargv) && nargv.Length == |argv| + 2 + 2 * |sp.packages| + 1
    ensures nargv[..] == Command(packagedir, sp.Picks(0), argv)
  {
    hide SolveProblem.Picks, PickArgs, Args;
    sp.PicksAll(0);
    PickArgsLength(sp.Picks(0));
    var count := CountResult(sp);
    var nargc := |argv| + 2 + 2 * count;
    nargv := NewArgs(nargc, packagedir);
    var n := AddResult(sp, nargv, 3);
    assert nargv[nargc] == nargv[n..][nargc - n];
    CopyArgs(argv, nargv, n);
    assert nargv[nargc..] == [None];
    assert nargv[..] == nargv[..nargc] + nargv[nargc..];
  }

  // ---------- The program ----------

  /** The first version that the repository lists for `name` depends on `dep`. */
  predicate NeededBy(repo: Repo, name: string, dep: string) { name in repo && dep in repo[name][0].deps }

  /** The path starts with a constraint, and each name needs the next one. */
  predicate IsNeedPath(repo: Repo, constraints: seq<string>, path: seq<string>)
  {
    && path != [] && path[0] in constraints
    && forall i :: 0 <= i < |path| - 1 ==> NeededBy(repo, path[i], path[i + 1])
  }

  ghost predicate Needed(repo: Repo, constraints: seq<string>, name: string)
  {
    exists path :: IsNeedPath(repo, constraints, path) && path[|path| - 1] == name
  }

  lemma {:induction false} PathSnoc(w: World, roots: seq<string>, path: seq<string>)
    requires |path| > 1
    ensures var k := |path| - 1;
            IsPath(w, roots, path) <==> IsPath(w, roots, path[..k]) && path[k] in Deps(w, path[k - 1])
  {
    hide Deps;
    var init := path[..|path| - 1];
    assert forall i :: 0 <= i < |init| ==> init[i] == path[i];
  }

  lemma {:induction false} NeedPathSnoc(repo: Repo, constraints: seq<string>, path: seq<string>)
    requires |path| > 1
    ensures var k := |path| - 1;
            IsNeedPath(repo, constraints, path) <==>
              IsNeedPath(repo, constraints, path[..k]) && NeededBy(repo, path[k - 1], path[k])
  {
    hide NeededBy;
    var k := |path| - 1;
    var init := path[..k];
    assert forall i :: 0 <= i < k ==> init[i] == path[i];
    assert path[k - 1 + 1] == path[k];
  }

  lemma {:induction false} SamePath(w: World, repo: Repo, more: string -> nat, roots: seq<string>,
                                    constraints: seq<string>, path: seq<string>)
    requires FromRepo(w, repo, more) && forall n :: n in roots <==> n in constraints
    ensures IsPath(w, roots, path) <==> IsNeedPath(repo, constraints, path)
  {
    hide Deps, FromRepo;
    var k := |path| - 1;
    if |path| <= 1 {
    } else {
      RepoDeps(w, repo, more, path[k - 1]);
      SamePath(w, repo, more, roots, constraints, path[..k]);
      PathSnoc(w, roots, path);
      NeedPathSnoc(repo, constraints, path);
    }
  }

  /** The names that a run on the repository can reach are those that are needed. */
  lemma {:induction false} NeededIsReachable(w: World, repo: Repo, more: string -> nat, roots: seq<string>,
                                             constraints: seq<string>)
    requires FromRepo(w, repo, more) && forall n :: n in roots <==> n in constraints
    ensures forall n :: Reachable(w, roots, n) <==> Needed(repo, constraints, n)
  {
    hide Deps, FromRepo;
    forall path ensures IsPath(w, roots, path) <==> IsNeedPath(repo, constraints, path) {
      SamePath(w, repo, more, roots, constraints, path);
    }
  }

  /** The needed names, each once, in the order in which a run discovers them. */
  ghost predicate InOrder(w: World, repo: Repo, constraints: seq<string>, names: seq<string>)
  {
    && NoRepeats(names) && (forall n :: n in names <==> Needed(repo, constraints, n))
    && names == Frontier(w, AddNames([], constraints), |names|)
  }

  /** Each name with the first version that the repository lists for it. */
  function FirstVersions(repo: Repo, names: seq<string>): seq<(string, string)>
    requires forall n :: n in names ==> n in repo
  {
    seq(|names|, i requires 0 <= i < |names| => (names[i], repo[names[i]][0].version))
  }

  /** After a successful run the picks are the first versions of the packages in the list. */
  lemma {:induction false} PicksAreFirst(p: SolveProblem, w: World, roots: seq<string>, repo: Repo, more: string -> nat)
    requires FromRepo(w, repo, more) && p.Complete(w, roots)
    ensures forall x :: x in p.packages ==> x.chosen.Some?
    ensures forall n :: n in p.Names() ==> n in repo
    ensures p.Picks(0) == FirstVersions(repo, p.Names())
  {
    hide Outcome, SolveProblem.Picks, SolveProblem.Names, Reachable, NoRepeats;
    var list := p.packages;
    forall i | 0 <= i < |list|
      ensures list[i].name in repo && list[i].chosen == Some(Made(repo[list[i].name][0]))
    {
      assert p.IsVisited(w, i);
      RepoOutcome(w, repo, more, list[i].name);
    }
    p.PicksAll(0);
  }

  /** add_constraints. */
  method AddConstraints(p: SolveProblem, constraints: seq<string>)
    requires p.Valid() && p.packages == [] && p.solved == 0
    modifies p`packages
    ensures p.Valid() && p.Names() == AddNames([], constraints)
    ensures forall x :: x in p.packages ==> fresh(x) && x.available == []
  {
    hide AddNames, SolveProblem.Valid, SolveProblem.Consistent;
    p.ValidStart();
    assert constraints[..0] == [];
    p.NoNames();
    var k := 0;
    while k < |constraints|
      invariant 0 <= k <= |constraints| && p.Consistent() && p.Valid()
      invariant forall x :: x in p.packages ==> fresh(x) && x.available == []
      invariant p.Names() == AddNames([], constraints[..k])
    {
      AddNamesSnoc([], constraints[..k], constraints[k]);
      assert constraints[..k + 1] == constraints[..k] + [constraints[k]];
      AddOne(p.Names(), constraints[k]);
      var _ := p.ConstraintAdd(constraints[k]);
      k := k + 1;
    }
    assert constraints[..k] == constraints;
  }

  /** main behind its option parsing: the command line holds the packages that the constraints need, each once, in
      discovery order and in the first version of the repository; there is one exactly if the repository has all
      of them. */
  method BuildCommand(repo: Repo, more: string -> nat, constraints: seq<string>, argv: seq<string>, packagedir: string)
    returns (nargv: Option<array<Option<string>>>)
    requires argv != []
    ensures nargv.Some? <==> forall n :: Needed(repo, constraints, n) ==> n in repo
    ensures nargv.Some? ==>
              exists w, names ::
                && FromRepo(w, repo, more) && InOrder(w, repo, constraints, names)
                && (forall n :: n in names ==> n in repo)
                && nargv.value[..] == Command(packagedir, FirstVersions(repo, names), argv)
  {
    hide Needed, Reachable, FirstVersions, Command, AddNames, FromRepo, RepoAnswer;
    hide SolveProblem.Names, SolveProblem.Picks, SolveProblem.Valid;
    var p := new SolveProblem(Some(RepoAnswer(repo, more)));
    AddConstraints(p, constraints);
    forall i | 0 <= i < |p.packages| ensures fresh(p.packages[i]) {
      assert p.packages[i] in p.packages;
    }
    ghost var w, roots := p.TheWorld(), p.Names();
    AddNamesKeeps([], constraints);
    var r := SolveFromRepo(p, repo, more);
    NeededIsReachable(w, repo, more, roots, constraints);
    if r != Ok {
      return None;
    }
    PicksAreFirst(p, w, roots, repo, more);
    var args := BuildArgs(p, argv, packagedir);
    ghost var names := p.Names();
    assert InOrder(w, repo, constraints, names);
    return Some(args);
  }
}
