/** Names that start with a dot are left out of every merge, and the condition for success and the result of
    link_packages said of the entries of the package trees themselves (tools/withenv.c, link_tree, link_packages). */
module Dots {
  import opened Chars
  import opened FileTree
  import opened Overlay

  // ---------- Plain paths ----------

  /** What the tree holds at a path, whatever its names are. */
  function Entry(t: Node, p: Path): Option<Node>
    decreases |p|
  {
    if p == [] then Some(t)
    else if t.Dir? && p[0] in t.entries then Entry(t.entries[p[0]], p[1..])
    else None
  }

  /** None of the names starts with a dot. */
  predicate NoDots(p: Path)
  {
    forall i :: 0 <= i < |p| ==> p[i] == "" || p[i][0] != '.'
  }

  lemma {:induction false} LookupMeans(t: Node, p: Path)
    ensures Lookup(t, p) == if NoDots(p) then Entry(t, p) else None
    decreases |p|
  {
    if p == [] {
    } else {
      assert NoDots(p) <==> (p[0] == "" || p[0][0] != '.') && NoDots(p[1..]) by {
        assert forall i :: 0 <= i < |p[1..]| ==> p[1..][i] == p[i + 1];
      }
      if t.Dir? && p[0] in t.entries {
        LookupMeans(t.entries[p[0]], p[1..]);
      }
    }
  }

  /** Nothing that linking a tree adds has a name with a dot in front behind the destination directory. */
  lemma {:induction false} NothingHidden(was: Dest, now: Dest, job: Job, q: Path)
    requires Get(now, q) == After(was, job, q) && q in now && q !in was
    ensures |job.dst| < |q| && q[..|job.dst|] == job.dst && NoDots(q[|job.dst|..])
  {
    LookupMeans(job.tree, q[|job.dst|..]);
  }

  /** All paths that are new lie behind `dst` on names without a dot in front. */
  ghost predicate NewVisible(was: Dest, now: Dest, dst: Path)
  {
    forall q :: q in now && q !in was ==> |dst| < |q| && q[..|dst|] == dst && NoDots(q[|dst|..])
  }

  lemma {:induction false} LinkedVisible(was: Dest, now: Dest, job: Job)
    requires Linked(was, now, job) || Between(was, now, job)
    ensures NewVisible(was, now, job.dst)
  {
    hide At, NoDots;
    forall q | q in now && q !in was
      ensures |job.dst| < |q| && q[..|job.dst|] == job.dst && NoDots(q[|job.dst|..])
    {
      assert Get(now, q) == After(was, job, q);
      NothingHidden(was, now, job, q);
    }
  }

  /** Every entry of the tree on a path without such names is in the result: a directory as a directory, and a file
      as a symbolic link to root, slash and relative path. */
  lemma {:induction false} EverythingElse(was: Dest, now: Dest, job: Job, p: Path)
    requires Linked(was, now, job) && p != [] && NoDots(p) && Entry(job.tree, p).Some? && job.dst + p !in was
    ensures Get(now, job.dst + p)
         == Some(if Entry(job.tree, p).value.Dir? then Directory else Symlink(Joined(job.root, p)))
  {
    var q := job.dst + p;
    assert q[..|job.dst|] == job.dst && q[|job.dst|..] == p;
    LookupMeans(job.tree, p);
    assert Get(now, q) == After(was, job, q);
  }

  // ---------- Removing such names ----------

  /** The tree without all entries whose names start with a dot. */
  function Stripped(t: Node): Node
  {
    if t.File? then File
    else Dir(map n | n in t.entries && (n == "" || n[0] != '.') :: Stripped(t.entries[n]))
  }

  lemma {:induction false} EntryStripped(t: Node, p: Path)
    ensures Entry(Stripped(t), p) ==
            if NoDots(p) && Entry(t, p).Some? then Some(Stripped(Entry(t, p).value)) else None
    decreases |p|
  {
    if p == [] {
    } else {
      assert NoDots(p) <==> (p[0] == "" || p[0][0] != '.') && NoDots(p[1..]) by {
        assert forall i :: 0 <= i < |p[1..]| ==> p[1..][i] == p[i + 1];
      }
      if t.Dir? && p[0] in t.entries {
        EntryStripped(t.entries[p[0]], p[1..]);
      }
    }
  }

  lemma {:induction false} AtStripped(job: Job, q: Path)
    ensures At(Job(Stripped(job.tree), job.root, job.dst), q) == At(job, q)
  {
    var p := q[if |job.dst| < |q| then |job.dst| else |q|..];
    LookupMeans(job.tree, p);
    LookupMeans(Stripped(job.tree), p);
    EntryStripped(job.tree, p);
  }

  /** Without them a tree can be linked exactly if it can be with them, and the results are the same. */
  lemma {:induction false} StrippedLinks(was: Dest, now: Dest, job: Job)
    ensures var stripped := Job(Stripped(job.tree), job.root, job.dst);
            && (Fits(stripped) <==> Fits(job))
            && (NoClash(was, stripped) <==> NoClash(was, job))
            && (Linked(was, now, stripped) <==> Linked(was, now, job))
  {
    hide At;
    var stripped := Job(Stripped(job.tree), job.root, job.dst);
    forall q ensures At(stripped, q) == At(job, q) {
      AtStripped(job, q);
    }
    forall p: Path ensures Lookup(stripped.tree, p).Some? <==> Lookup(job.tree, p).Some? {
      LookupMeans(job.tree, p);
      LookupMeans(stripped.tree, p);
      EntryStripped(job.tree, p);
    }
  }

  // ---------- Packages ----------

  function StrippedPackage(pkg: Package): Package { pkg.(root := Stripped(pkg.root)) }

  function StrippedPackages(pkgs: seq<Package>): seq<Package>
  {
    seq(|pkgs|, i requires 0 <= i < |pkgs| => StrippedPackage(pkgs[i]))
  }

  lemma {:induction false} StrippedJob(pkg: Package)
    ensures var job := PackageJob(pkg);
            PackageJob(StrippedPackage(pkg)) == Job(Stripped(job.tree), job.root, job.dst)
  {
    if pkg.root.Dir? {
      var a, b := PackageJob(StrippedPackage(pkg)).tree.entries, Stripped(PackageJob(pkg).tree).entries;
      forall n ensures n in a <==> n in b
               ensures n in a ==> a[n] == b[n] {
      }
      assert a == b;
    }
  }

  lemma {:induction false} StrippedUnion(pkgs: seq<Package>, q: Path)
    ensures Union(StrippedPackages(pkgs), q) == Union(pkgs, q)
  {
    hide At, PackageJob, StrippedPackage, Stripped;
    if pkgs == [] {
    } else {
      var k := |pkgs| - 1;
      assert StrippedPackages(pkgs)[..k] == StrippedPackages(pkgs[..k]);
      StrippedUnion(pkgs[..k], q);
      StrippedJob(pkgs[k]);
      AtStripped(PackageJob(pkgs[k]), q);
    }
  }

  /** Without such names packages can be merged exactly if they can be with them, and the results are the same. */
  lemma {:induction false} StrippedMerge(was: Dest, now: Dest, pkgs: seq<Package>)
    ensures Mergeable(StrippedPackages(pkgs)) <==> Mergeable(pkgs)
    ensures MergedWith(was, now, StrippedPackages(pkgs)) <==> MergedWith(was, now, pkgs)
  {
    hide At, PackageJob, Fits, Stripped;
    var some := StrippedPackages(pkgs);
    forall i | 0 <= i < |pkgs|
      ensures Fits(PackageJob(some[i])) <==> Fits(PackageJob(pkgs[i]))
      ensures forall q :: At(PackageJob(some[i]), q) == At(PackageJob(pkgs[i]), q)
    {
      StrippedJob(pkgs[i]);
      StrippedLinks(map[], map[], PackageJob(pkgs[i]));
      forall q ensures At(PackageJob(some[i]), q) == At(PackageJob(pkgs[i]), q) {
        AtStripped(PackageJob(pkgs[i]), q);
      }
    }
    forall i, j | 0 <= i < |pkgs| && 0 <= j < |pkgs|
      ensures Meet(PackageJob(some[i]), PackageJob(some[j])) <==> Meet(PackageJob(pkgs[i]), PackageJob(pkgs[j]))
    {
    }
    forall i | 0 <= i < |pkgs| ensures TreesAreDirs(PackageJob(some[i])) <==> TreesAreDirs(PackageJob(pkgs[i])) {
    }
    forall q ensures Union(some, q) == Union(pkgs, q) {
      StrippedUnion(pkgs, q);
    }
  }

  // ---------- The condition and the result, said of the package trees ----------

  predicate InTrees(p: Path) { p != [] && p[0] in {"bin", "lib", "include"} }

  /** The path of an entry of a mounted package. */
  function PathOf(pkg: Package, p: Path): string { Joined("/packages/" + pkg.name + "/" + pkg.version, p) }

  /** No package has a file in place of a tree, all paths fit the buffer, and no path is a file in one package and
      anything at all in another; names with a dot in front do not count. */
  ghost predicate CanMerge(pkgs: seq<Package>)
  {
    && (forall i, t :: 0 <= i < |pkgs| && t in {"bin", "lib", "include"} ==> Entry(pkgs[i].root, [t]) != Some(File))
    && (forall i, p :: 0 <= i < |pkgs| && InTrees(p) && NoDots(p) && Entry(pkgs[i].root, p).Some? ==>
          |PathOf(pkgs[i], p)| <= 4096)
    && (forall i, j, p ::
          0 <= i < |pkgs| && 0 <= j < |pkgs| && i != j && InTrees(p) && NoDots(p)
          && Entry(pkgs[i].root, p) == Some(File)
          ==> Entry(pkgs[j].root, p) == None)
  }

  /** What was there is kept, the three trees are directories, every entry of a package is there, and nothing else. */
  ghost predicate Merged(was: Dest, now: Dest, pkgs: seq<Package>)
  {
    && (forall q :: q in was ==> Get(now, q) == Some(was[q]))
    && (forall t :: t in {"bin", "lib", "include"} ==> Get(now, [t]) == Some(Directory))
    && (forall i, p :: 0 <= i < |pkgs| && InTrees(p) && NoDots(p) && Entry(pkgs[i].root, p).Some? ==>
          Get(now, p) == Some(if Entry(pkgs[i].root, p).value.Dir? then Directory else Symlink(PathOf(pkgs[i], p))))
    && (forall q :: q in now && q !in was ==>
          InTrees(q) && NoDots(q) && (|q| == 1 || exists i :: 0 <= i < |pkgs| && Entry(pkgs[i].root, q).Some?))
  }

  lemma {:induction false} PackageRoot(pkg: Package)
    ensures PackageJob(pkg).root == "/packages/" + pkg.name + "/" + pkg.version
  {
    var p := [pkg.name, pkg.version];
    assert p[1..] == [pkg.version] && [pkg.version][1..] == [];
    assert Joined("/packages", p) == Joined("/packages" + "/" + pkg.name, [pkg.version]);
    assert Joined("/packages" + "/" + pkg.name, [pkg.version])
        == Joined("/packages" + "/" + pkg.name + "/" + pkg.version, []);
    assert "/packages" + "/" == "/packages/";
  }

  lemma {:induction false} PackageEntry(pkg: Package, p: Path)
    requires pkg.root.Dir? && p != []
    ensures Lookup(PackageJob(pkg).tree, p) == if InTrees(p) && NoDots(p) then Entry(pkg.root, p) else None
    ensures At(PackageJob(pkg), p) ==
            if InTrees(p) && NoDots(p) && Entry(pkg.root, p).Some? then
              Some(if Entry(pkg.root, p).value.Dir? then Directory else Symlink(PathOf(pkg, p)))
            else None
  {
    var job := PackageJob(pkg);
    LookupMeans(job.tree, p);
    assert p[..0] == [] && p[0..] == p;
    PackageRoot(pkg);
    assert Entry(job.tree, p) == if InTrees(p) then Entry(pkg.root, p) else None;
  }

  lemma {:induction false} TreesMean(pkg: Package)
    requires pkg.root.Dir?
    ensures TreesAreDirs(PackageJob(pkg)) <==>
            forall t :: t in {"bin", "lib", "include"} ==> Entry(pkg.root, [t]) != Some(File)
  {
    hide Entry, Lookup, At, PackageJob;
    forall t | t in TREES
      ensures At(PackageJob(pkg), [t]) in {None, Some(Directory)} <==> Entry(pkg.root, [t]) != Some(File)
    {
      PackageEntry(pkg, [t]);
    }
  }

  lemma {:induction false} FitsMeans(pkg: Package)
    requires pkg.root.Dir?
    ensures Fits(PackageJob(pkg)) <==>
            forall p :: InTrees(p) && NoDots(p) && Entry(pkg.root, p).Some? ==> |PathOf(pkg, p)| <= 4096
  {
    hide Entry, Lookup, At;
    forall p: Path | p != []
      ensures Lookup(PackageJob(pkg).tree, p).Some? <==> InTrees(p) && NoDots(p) && Entry(pkg.root, p).Some?
    {
      PackageEntry(pkg, p);
    }
    PackageRoot(pkg);
  }

  lemma {:induction false} MeetMeans(a: Package, b: Package)
    requires a.root.Dir? && b.root.Dir?
    ensures Meet(PackageJob(a), PackageJob(b)) <==>
            forall p :: InTrees(p) && NoDots(p) ==>
              (Entry(a.root, p) == Some(File) ==> Entry(b.root, p) == None)
              && (Entry(b.root, p) == Some(File) ==> Entry(a.root, p) == None)
  {
    hide Entry, NoDots, Lookup, PackageJob, PathOf;
    forall p: Path | p != []
      ensures At(PackageJob(a), p).Some? <==> InTrees(p) && NoDots(p) && Entry(a.root, p).Some?
      ensures At(PackageJob(b), p).Some? <==> InTrees(p) && NoDots(p) && Entry(b.root, p).Some?
      ensures At(PackageJob(a), p).Some? ==>
                (At(PackageJob(a), p) == Some(Directory) <==> Entry(a.root, p) != Some(File))
      ensures At(PackageJob(b), p).Some? ==>
                (At(PackageJob(b), p) == Some(Directory) <==> Entry(b.root, p) != Some(File))
    {
      PackageEntry(a, p);
      PackageEntry(b, p);
    }
  }

  /** Packages can be merged exactly if they can in these terms. */
  lemma {:induction false} MergeableMeans(pkgs: seq<Package>)
    requires forall i :: 0 <= i < |pkgs| ==> pkgs[i].root.Dir?
    ensures Mergeable(pkgs) <==> CanMerge(pkgs)
  {
    hide Entry, NoDots, Lookup, At, PackageJob, PathOf;
    forall i | 0 <= i < |pkgs|
      ensures TreesAreDirs(PackageJob(pkgs[i])) <==>
              forall t :: t in {"bin", "lib", "include"} ==> Entry(pkgs[i].root, [t]) != Some(File)
    {
      TreesMean(pkgs[i]);
    }
    forall i | 0 <= i < |pkgs|
      ensures Fits(PackageJob(pkgs[i])) <==>
              forall p :: InTrees(p) && NoDots(p) && Entry(pkgs[i].root, p).Some? ==> |PathOf(pkgs[i], p)| <= 4096
    {
      FitsMeans(pkgs[i]);
    }
    forall i, j | 0 <= i < |pkgs| && 0 <= j < |pkgs| && i != j
      ensures Meet(PackageJob(pkgs[i]), PackageJob(pkgs[j])) <==>
              forall p :: InTrees(p) && NoDots(p) ==>
                (Entry(pkgs[i].root, p) == Some(File) ==> Entry(pkgs[j].root, p) == None)
                && (Entry(pkgs[j].root, p) == Some(File) ==> Entry(pkgs[i].root, p) == None)
    {
      MeetMeans(pkgs[i], pkgs[j]);
    }
  }

  lemma {:induction false} PreparedIs(was: Dest)
    ensures forall q :: q in Prepared(was) <==> q in was || q in {["bin"], ["lib"], ["include"]}
    ensures forall q :: q in {["bin"], ["lib"], ["include"]} ==> Prepared(was)[q] == Directory
    ensures forall q :: q in was && q !in {["bin"], ["lib"], ["include"]} ==> Prepared(was)[q] == was[q]
  {
  }

  lemma {:induction false} MergedEntry(was: Dest, now: Dest, pkgs: seq<Package>, i: nat, p: Path)
    requires Closed(was) && (forall t :: t in TREES ==> [t] !in was) && i < |pkgs| && pkgs[i].root.Dir?
    requires Mergeable(pkgs) && MergedWith(Prepared(was), now, pkgs)
    requires InTrees(p) && NoDots(p) && Entry(pkgs[i].root, p).Some?
    ensures Get(now, p) == Some(if Entry(pkgs[i].root, p).value.Dir? then Directory else Symlink(PathOf(pkgs[i], p)))
  {
    hide Entry, NoDots, Lookup, At, PackageJob, PathOf, Union, Prepared, Closed;
    PreparedIs(was);
    PackageEntry(pkgs[i], p);
    NothingBelow(was, p[0], p);
    if p in Prepared(was) {
      assert p == [p[0]];
      assert Fits(PackageJob(pkgs[i])) && TreesAreDirs(PackageJob(pkgs[i]));
      assert At(PackageJob(pkgs[i]), [p[0]]) in {None, Some(Directory)};
      assert Get(now, p) == Some(Prepared(was)[p]);
    } else {
      assert Get(now, p) == Union(pkgs, p);
      UnionAny(pkgs, p, i);
    }
  }

  lemma {:induction false} MergedOrigin(was: Dest, now: Dest, pkgs: seq<Package>, q: Path)
    requires forall i :: 0 <= i < |pkgs| ==> pkgs[i].root.Dir?
    requires MergedWith(Prepared(was), now, pkgs) && q in now && q !in was
    ensures InTrees(q) && NoDots(q) && (|q| == 1 || exists i :: 0 <= i < |pkgs| && Entry(pkgs[i].root, q).Some?)
  {
    hide Entry, Lookup, At, PackageJob, Union, Prepared;
    PreparedIs(was);
    assert Get(now, q) == if q in Prepared(was) then Some(Prepared(was)[q]) else Union(pkgs, q);
    if q !in Prepared(was) {
      var i := UnionFrom(pkgs, q);
      InsideTrees(pkgs[i], q);
      PackageEntry(pkgs[i], q);
    }
  }

  lemma {:induction false} TreesKept(was: Dest, now: Dest, pkgs: seq<Package>)
    requires MergedWith(Prepared(was), now, pkgs) && forall t :: t in TREES ==> [t] !in was
    ensures forall q :: q in was ==> Get(now, q) == Some(was[q])
    ensures forall t :: t in {"bin", "lib", "include"} ==> Get(now, [t]) == Some(Directory)
  {
    hide Union, Prepared;
    PreparedIs(was);
    forall q | q in Prepared(was) ensures Get(now, q) == Some(Prepared(was)[q]) {
    }
  }

  /** What merging leaves is what it should in these terms. */
  lemma {:induction false} MergedMeans(was: Dest, now: Dest, pkgs: seq<Package>)
    requires Closed(was) && (forall t :: t in TREES ==> [t] !in was)
    requires forall i :: 0 <= i < |pkgs| ==> pkgs[i].root.Dir?
    requires Mergeable(pkgs) && MergedWith(Prepared(was), now, pkgs)
    ensures Merged(was, now, pkgs)
  {
    hide Entry, NoDots, Lookup, At, PackageJob, PathOf, Mergeable, Union, Prepared, Closed, InTrees, MergedWith;
    TreesKept(was, now, pkgs);
    forall i, p | 0 <= i < |pkgs| && InTrees(p) && NoDots(p) && Entry(pkgs[i].root, p).Some?
      ensures Get(now, p) == Some(if Entry(pkgs[i].root, p).value.Dir? then Directory else Symlink(PathOf(pkgs[i], p)))
    {
      MergedEntry(was, now, pkgs, i, p);
    }
    forall q | q in now && q !in was
      ensures InTrees(q) && NoDots(q) && (|q| == 1 || exists i :: 0 <= i < |pkgs| && Entry(pkgs[i].root, q).Some?)
    {
      MergedOrigin(was, now, pkgs, q);
    }
  }

  /** While packages are being merged, and after, all new paths consist of names without a dot in front. */
  lemma {:induction false} MergingVisible(was: Dest, now: Dest, then': Dest, pkgs: seq<Package>, job: Job)
    requires forall i :: 0 <= i < |pkgs| ==> pkgs[i].root.Dir?
    requires MergedWith(Prepared(was), now, pkgs) && (then' == now || Between(now, then', job)) && job.dst == []
    ensures forall q :: q in then' && q !in was ==> NoDots(q)
  {
    hide NoDots, MergedWith, Between, Prepared;
    if then' != now {
      LinkedVisible(now, then', job);
    }
    forall q | q in then' && q !in was ensures NoDots(q) {
      if q in now {
        MergedOrigin(was, now, pkgs, q);
      } else {
        assert q[0..] == q;
      }
    }
  }
}
