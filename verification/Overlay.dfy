/** Merging package trees: when it succeeds, what results, and why neither the order of the packages
    nor the order of directory entries matters (tools/withenv.c, link_packages). */
module Overlay {
  import opened Chars
  import opened FileTree

  datatype Package = Package(name: string, version: string, root: Node)

  const TREES: set<string> := {"bin", "lib", "include"}

  /** Linking the three trees of a package is linking a directory that holds just those. */
  function PackageJob(pkg: Package): Job
  {
    Job(if pkg.root.Dir? then Dir(map t | t in pkg.root.entries && t in TREES :: pkg.root.entries[t]) else Dir(map[]),
        Joined("/packages", [pkg.name, pkg.version]), [])
  }

  /** Two packages put nothing but directories at the same path. */
  ghost predicate Meet(a: Job, b: Job)
  {
    forall q :: At(a, q).Some? && At(b, q).Some? ==> At(a, q) == Some(Directory) && At(b, q) == Some(Directory)
  }

  ghost predicate TreesAreDirs(job: Job)
  {
    forall t :: t in TREES ==> At(job, [t]) in {None, Some(Directory)}
  }

  /** Every path fits the buffer, no package has a file in place of one of the trees, and no path is a file
      in one package and anything at all in another. */
  ghost predicate Mergeable(pkgs: seq<Package>)
  {
    && (forall i :: 0 <= i < |pkgs| ==> Fits(PackageJob(pkgs[i])) && TreesAreDirs(PackageJob(pkgs[i])))
    && (forall i, j :: 0 <= i < |pkgs| && 0 <= j < |pkgs| && i != j ==> Meet(PackageJob(pkgs[i]), PackageJob(pkgs[j])))
  }

  /** What the packages together put at a path: the entry of the first one that has any. */
  function Union(pkgs: seq<Package>, q: Path): Option<DstNode>
  {
    if pkgs == [] then None else
    var at := Union(pkgs[..|pkgs| - 1], q);
    if at.Some? then at else At(PackageJob(pkgs[|pkgs| - 1]), q)
  }

  /** The destination after the three empty trees have been made. */
  function Prepared(was: Dest): Dest
  {
    was[["bin"] := Directory][["lib"] := Directory][["include"] := Directory]
  }

  /** Every entry lies in a directory. */
  ghost predicate Closed(m: Dest)
  {
    forall q :: q in m && q != [] ==> Get(m, q[..|q| - 1]) == Some(Directory)
  }

  lemma {:induction false} NothingBelow(m: Dest, t: string, q: Path)
    requires Closed(m) && [t] !in m && q != [] && q[0] == t
    ensures q !in m
  {
    if |q| == 1 {
      assert q == [t];
    } else if q in m {
      NothingBelow(m, t, q[..|q| - 1]);
    }
  }

  lemma {:induction false} InsideTrees(pkg: Package, q: Path)
    requires At(PackageJob(pkg), q).Some?
    ensures q != [] && q[0] in TREES
  {
    assert q[..0] == [] && q[0..] == q;
  }

  /** On the prepared destination a package alone clashes only with a file in place of a tree. */
  lemma {:induction false} PreparedClash(was: Dest, pkg: Package)
    requires Closed(was) && forall t :: t in TREES ==> [t] !in was
    ensures NoClash(Prepared(was), PackageJob(pkg)) <==> TreesAreDirs(PackageJob(pkg))
  {
    hide At, PackageJob;
    var job, now := PackageJob(pkg), Prepared(was);
    forall q | At(job, q).Some? ensures q != [] && q !in was && q[0] in TREES {
      InsideTrees(pkg, q);
      NothingBelow(was, q[0], q);
    }
    if TreesAreDirs(job) {
      forall q | q in now && At(job, q).Some? ensures now[q] == Directory && At(job, q) == Some(Directory) {
        assert q == [q[0]];
      }
    }
    if NoClash(now, job) {
      forall t | t in TREES ensures At(job, [t]) in {None, Some(Directory)} {
        assert [t] in now;
      }
    }
  }

  ghost predicate MergedWith(was: Dest, now: Dest, pkgs: seq<Package>)
  {
    forall q :: Get(now, q) == if q in was then Some(was[q]) else Union(pkgs, q)
  }

  lemma {:induction false} UnionFrom(pkgs: seq<Package>, q: Path) returns (i: nat)
    requires Union(pkgs, q).Some?
    ensures i < |pkgs| && Union(pkgs, q) == At(PackageJob(pkgs[i]), q)
  {
    var init := pkgs[..|pkgs| - 1];
    if Union(init, q).Some? {
      i := UnionFrom(init, q);
    } else {
      i := |pkgs| - 1;
    }
  }

  lemma {:induction false} UnionHas(pkgs: seq<Package>, q: Path, i: nat)
    requires i < |pkgs| && At(PackageJob(pkgs[i]), q).Some?
    ensures Union(pkgs, q).Some?
  {
    if i == |pkgs| - 1 {
    } else {
      UnionHas(pkgs[..|pkgs| - 1], q, i);
    }
  }

  lemma {:induction false} MeetsLinked(was: Dest, now: Dest, pkgs: seq<Package>, job: Job, i: nat)
    requires Closed(was) && forall t :: t in TREES ==> [t] !in was
    requires Mergeable(pkgs) && MergedWith(Prepared(was), now, pkgs) && NoClash(now, job) && i < |pkgs|
    ensures Meet(PackageJob(pkgs[i]), job)
  {
    var base, job' := Prepared(was), PackageJob(pkgs[i]);
    PreparedClash(was, pkgs[i]);
    forall q | At(job', q).Some? && At(job, q).Some?
      ensures At(job', q) == Some(Directory) && At(job, q) == Some(Directory)
    {
      assert Get(now, q) == if q in base then Some(base[q]) else Union(pkgs, q);
      if q !in base {
        UnionHas(pkgs, q, i);
        var f := UnionFrom(pkgs, q);
        assert f != i ==> Meet(PackageJob(pkgs[f]), job');
      }
    }
  }

  lemma {:induction false} NextClash(was: Dest, now: Dest, pkgs: seq<Package>, pkg: Package)
    requires Closed(was) && forall t :: t in TREES ==> [t] !in was
    requires Mergeable(pkgs) && MergedWith(Prepared(was), now, pkgs)
    ensures NoClash(now, PackageJob(pkg)) <==>
            NoClash(Prepared(was), PackageJob(pkg)) &&
            forall i :: 0 <= i < |pkgs| ==> Meet(PackageJob(pkgs[i]), PackageJob(pkg))
  {
    hide Closed, Mergeable;
    var base, job := Prepared(was), PackageJob(pkg);
    forall q ensures Get(now, q) == if q in base then Some(base[q]) else Union(pkgs, q) {
    }
    if NoClash(now, job) {
      forall q | q in base && At(job, q).Some? ensures base[q] == Directory && At(job, q) == Some(Directory) {
        assert Get(now, q) == Some(base[q]);
      }
      forall i | 0 <= i < |pkgs| ensures Meet(PackageJob(pkgs[i]), job) {
        MeetsLinked(was, now, pkgs, job, i);
      }
    }
    if NoClash(base, job) && forall i :: 0 <= i < |pkgs| ==> Meet(PackageJob(pkgs[i]), job) {
      forall q | q in now && At(job, q).Some? ensures now[q] == Directory && At(job, q) == Some(Directory) {
        assert Get(now, q) == if q in base then Some(base[q]) else Union(pkgs, q);
        if q !in base {
          var i := UnionFrom(pkgs, q);
          assert Meet(PackageJob(pkgs[i]), job);
        }
      }
    }
  }

  /** One more package: it can be linked on top of the earlier ones exactly if all of them together are mergeable. */
  lemma {:induction false} NextPackage(was: Dest, now: Dest, pkgs: seq<Package>, pkg: Package)
    requires Closed(was) && forall t :: t in TREES ==> [t] !in was
    requires Mergeable(pkgs) && MergedWith(Prepared(was), now, pkgs)
    ensures Mergeable(pkgs + [pkg]) <==> Fits(PackageJob(pkg)) && NoClash(now, PackageJob(pkg))
  {
    hide At, PackageJob, Prepared, MergedWith, Closed;
    var all, job, k := pkgs + [pkg], PackageJob(pkg), |pkgs|;
    assert all[k] == pkg && forall i :: 0 <= i < k ==> all[i] == pkgs[i];
    NextClash(was, now, pkgs, pkg);
    PreparedClash(was, pkg);
    if Mergeable(all) {
      assert Fits(PackageJob(all[k])) && TreesAreDirs(PackageJob(all[k]));
      forall i | 0 <= i < k ensures Meet(PackageJob(pkgs[i]), job) {
        assert Meet(PackageJob(all[i]), PackageJob(all[k]));
      }
    }
    if Fits(job) && NoClash(now, job) {
      forall i, j | 0 <= i < |all| && 0 <= j < |all| && i != j ensures Meet(PackageJob(all[i]), PackageJob(all[j])) {
        if i < k && j < k {
          assert Meet(PackageJob(pkgs[i]), PackageJob(pkgs[j]));
        } else {
          assert Meet(PackageJob(pkgs[if i < j then i else j]), job);
        }
      }
    }
  }

  lemma {:induction false} NextMerged(was: Dest, now: Dest, then': Dest, pkgs: seq<Package>, pkg: Package)
    requires MergedWith(was, now, pkgs) && Linked(now, then', PackageJob(pkg))
    ensures MergedWith(was, then', pkgs + [pkg])
  {
    assert (pkgs + [pkg])[..|pkgs|] == pkgs;
    forall q ensures Get(then', q) == if q in was then Some(was[q]) else Union(pkgs + [pkg], q) {
      assert Get(then', q) == After(now, PackageJob(pkg), q);
      assert Get(now, q) == if q in was then Some(was[q]) else Union(pkgs, q);
    }
  }

  /** Packages in front can be merged if all can. */
  lemma {:induction false} PrefixMergeable(pkgs: seq<Package>, k: nat)
    requires k <= |pkgs| && Mergeable(pkgs)
    ensures Mergeable(pkgs[..k])
  {
    var some := pkgs[..k];
    forall i, j | 0 <= i < k && 0 <= j < k && i != j ensures Meet(PackageJob(some[i]), PackageJob(some[j])) {
      assert Meet(PackageJob(pkgs[i]), PackageJob(pkgs[j]));
    }
  }

  // ---------- Confluence ----------

  lemma {:induction false} TwoPlaces(pkgs: seq<Package>, a: Package) returns (i: nat, j: nat)
    requires multiset(pkgs)[a] >= 2
    ensures i < j < |pkgs| && pkgs[i] == a && pkgs[j] == a
  {
    var k := |pkgs| - 1;
    assert pkgs == pkgs[..k] + [pkgs[k]];
    if pkgs[k] == a {
      assert a in multiset(pkgs[..k]);
      i :| 0 <= i < k && pkgs[..k][i] == a;
      j := k;
    } else {
      i, j := TwoPlaces(pkgs[..k], a);
    }
  }

  lemma {:induction false} PairTwice(pkgs: seq<Package>, i: nat, j: nat)
    requires i < j < |pkgs| && pkgs[i] == pkgs[j]
    ensures multiset(pkgs)[pkgs[i]] >= 2
  {
    assert pkgs == pkgs[..j] + [pkgs[j]] + pkgs[j + 1..];
    assert pkgs[..j][i] == pkgs[i];
  }

  lemma {:induction false} MeetFlip(a: Job, b: Job)
    requires Meet(a, b)
    ensures Meet(b, a)
  {
  }

  /** Two packages at different places of one list are at different places of the other. */
  lemma {:induction false} OtherPair(pkgs: seq<Package>, pkgs': seq<Package>, i: nat, j: nat)
    requires Mergeable(pkgs) && multiset(pkgs) == multiset(pkgs') && i < j < |pkgs'|
    ensures Meet(PackageJob(pkgs'[i]), PackageJob(pkgs'[j]))
  {
    var a, b := pkgs'[i], pkgs'[j];
    assert a in multiset(pkgs') && b in multiset(pkgs');
    if a == b {
      PairTwice(pkgs', i, j);
      var x, y := TwoPlaces(pkgs, a);
      assert Meet(PackageJob(pkgs[x]), PackageJob(pkgs[y]));
    } else {
      var x :| 0 <= x < |pkgs| && pkgs[x] == a;
      var y :| 0 <= y < |pkgs| && pkgs[y] == b;
      assert Meet(PackageJob(pkgs[x]), PackageJob(pkgs[y]));
    }
  }

  lemma {:induction false} MergeableAnyOrder(pkgs: seq<Package>, pkgs': seq<Package>)
    requires multiset(pkgs) == multiset(pkgs') && Mergeable(pkgs)
    ensures Mergeable(pkgs')
  {
    forall i | 0 <= i < |pkgs'| ensures Fits(PackageJob(pkgs'[i])) && TreesAreDirs(PackageJob(pkgs'[i])) {
      assert pkgs'[i] in multiset(pkgs);
      var x :| 0 <= x < |pkgs| && pkgs[x] == pkgs'[i];
    }
    forall i, j | 0 <= i < |pkgs'| && 0 <= j < |pkgs'| && i != j
      ensures Meet(PackageJob(pkgs'[i]), PackageJob(pkgs'[j]))
    {
      if i < j {
        OtherPair(pkgs, pkgs', i, j);
      } else {
        OtherPair(pkgs, pkgs', j, i);
        MeetFlip(PackageJob(pkgs'[j]), PackageJob(pkgs'[i]));
      }
    }
  }

  /** Of mergeable packages, any one that has an entry at a path determines what the union has there. */
  lemma {:induction false} UnionAny(pkgs: seq<Package>, q: Path, i: nat)
    requires Mergeable(pkgs) && i < |pkgs| && At(PackageJob(pkgs[i]), q).Some?
    ensures Union(pkgs, q) == At(PackageJob(pkgs[i]), q)
  {
    UnionHas(pkgs, q, i);
    var f := UnionFrom(pkgs, q);
    assert f != i ==> Meet(PackageJob(pkgs[f]), PackageJob(pkgs[i]));
  }

  lemma {:induction false} SameEntry(pkgs: seq<Package>, pkgs': seq<Package>, q: Path)
    requires multiset(pkgs) == multiset(pkgs') && Mergeable(pkgs') && Union(pkgs, q).Some?
    ensures Union(pkgs, q) == Union(pkgs', q)
  {
    var i := UnionFrom(pkgs, q);
    assert pkgs[i] in multiset(pkgs');
    var x :| 0 <= x < |pkgs'| && pkgs'[x] == pkgs[i];
    UnionAny(pkgs', q, x);
  }

  /** Success and the resulting tree do not depend on the order of the packages. */
  lemma {:induction false} Confluent(pkgs: seq<Package>, pkgs': seq<Package>)
    requires multiset(pkgs) == multiset(pkgs')
    ensures Mergeable(pkgs) <==> Mergeable(pkgs')
    ensures Mergeable(pkgs) ==> forall q :: Union(pkgs, q) == Union(pkgs', q)
  {
    if Mergeable(pkgs) {
      MergeableAnyOrder(pkgs, pkgs');
      forall q ensures Union(pkgs, q) == Union(pkgs', q) {
        if Union(pkgs, q).Some? {
          SameEntry(pkgs, pkgs', q);
        } else if Union(pkgs', q).Some? {
          SameEntry(pkgs', pkgs, q);
        }
      }
    } else if Mergeable(pkgs') {
      MergeableAnyOrder(pkgs', pkgs);
    }
  }

  /** Two destinations that started alike and got the same packages, in whatever orders, are the same. */
  lemma {:induction false} SameResult(was: Dest, a: Dest, b: Dest, pkgs: seq<Package>, pkgs': seq<Package>)
    requires multiset(pkgs) == multiset(pkgs') && Mergeable(pkgs)
    requires MergedWith(was, a, pkgs) && MergedWith(was, b, pkgs')
    ensures a == b
  {
    hide Mergeable, Union;
    Confluent(pkgs, pkgs');
    forall q ensures Get(a, q) == Get(b, q) {
    }
    assert forall q :: (q in a <==> Get(a, q).Some?) && (q in b <==> Get(b, q).Some?);
  }

  // ---------- What the union consists of ----------

  /** A path below a root is the root, a slash and the relative path. */
  lemma {:induction false} JoinedRelative(root: string, p: Path)
    ensures Joined(root, p) == root + Joined("", p)
    decreases |p|
  {
    if p == [] {
    } else {
      JoinedRelative(root + "/" + p[0], p[1..]);
      JoinedRelative("" + "/" + p[0], p[1..]);
      assert root + "/" + p[0] == root + ("" + "/" + p[0]);
    }
  }

  lemma {:induction false} JoinedConcat(root: string, p: Path, p': Path)
    ensures Joined(root, p + p') == Joined(Joined(root, p), p')
    decreases |p|
  {
    if p == [] {
      assert [] + p' == p';
    } else {
      assert (p + p')[1..] == p[1..] + p';
      JoinedConcat(root + "/" + p[0], p[1..], p');
    }
  }

  /** In mergeable packages a file has its path for itself, and the destination has there the symlink to it;
      the directories of the destination are those of the packages. */
  lemma {:induction false} UnionMeans(pkgs: seq<Package>, q: Path, i: nat)
    requires Mergeable(pkgs) && i < |pkgs| && q != [] && Lookup(PackageJob(pkgs[i]).tree, q).Some?
    ensures var found := Lookup(PackageJob(pkgs[i]).tree, q).value;
            if found.File? then
              && Union(pkgs, q) == Some(Symlink("/packages" + Joined("", [pkgs[i].name, pkgs[i].version] + q)))
              && forall j :: 0 <= j < |pkgs| && j != i ==> Lookup(PackageJob(pkgs[j]).tree, q) == None
            else
              && Union(pkgs, q) == Some(Directory)
              && forall j :: 0 <= j < |pkgs| && Lookup(PackageJob(pkgs[j]).tree, q).Some?
                             ==> Lookup(PackageJob(pkgs[j]).tree, q).value.Dir?
  {
    assert q[..0] == [] && q[0..] == q;
    var job := PackageJob(pkgs[i]);
    UnionAny(pkgs, q, i);
    forall j | 0 <= j < |pkgs| && j != i ensures Meet(job, PackageJob(pkgs[j])) {
    }
    forall j | 0 <= j < |pkgs|
      ensures At(PackageJob(pkgs[j]), q) == Leaf(Lookup(PackageJob(pkgs[j]).tree, q), PackageJob(pkgs[j]).root, q)
    {
    }
    JoinedConcat("/packages", [pkgs[i].name, pkgs[i].version], q);
    JoinedRelative("/packages", [pkgs[i].name, pkgs[i].version] + q);
  }
}
