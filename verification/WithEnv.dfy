/** link_tree, link_package_tree and link_packages (tools/withenv.c) on a destination that they change step by step,
    with one path buffer that every call extends and restores in place. */
module WithEnv {
  import opened Chars
  import opened FileTree
  import opened Overlay
  import opened Dots

  /** The C string at the start of a buffer. */
  function CStr(s: seq<char>): string { s[..Find(s, '\0')] }

  lemma {:induction false} CStrIs(s: seq<char>, n: nat)
    requires n < |s| && s[n] == '\0' && '\0' !in s[..n]
    ensures CStr(s) == s[..n]
  {
    FindUnique(s, '\0', n);
  }

  /** A path buffer that holds `path` and its terminating NUL. */
  ghost predicate HoldsPath(buf: array<char>, path: string)
    reads buf
  {
    && buf.Length == PATH_MAX + 1 && |path| <= PATH_MAX
    && buf[..|path|] == path && buf[|path|] == '\0' && '\0' !in path
  }

  /** No part is longer than the buffer with the slash in front of it. */
  predicate AllPartsFit(parts: seq<string>)
  {
    forall i :: 0 <= i < |parts| ==> |parts[i]| + (if i == 0 then 0 else 1) <= PATH_MAX
  }

  /** The first parts with slashes between them. */
  function FirstParts(parts: seq<string>, k: nat): string
    requires k <= |parts|
  {
    if k == 0 then "" else Joined(parts[0], parts[1..k])
  }

  /** What the paths of the mounted packages must satisfy. */
  ghost predicate Mounted(pkg: Package)
  {
    && pkg.root.Dir? && WellNamed(pkg.root)
    && '\0' !in pkg.name && '\0' !in pkg.version
    && forall t :: t in TREES ==> |Joined("/packages", [pkg.name, pkg.version, t])| <= PATH_MAX
  }

  /** The destination directories; a directory descriptor is the path of its directory. */
  class FileSystem {
    var nodes: Dest
    /** mkdir fails on an existing entry. */
    method Mkdirat(path: Path) returns (ok: bool)
      modifies this
      ensures ok <==> path !in old(nodes)
      ensures nodes == if ok then old(nodes)[path := Directory] else old(nodes)
    {
      ok := path !in nodes;
      if ok {
        nodes := nodes[path := Directory];
      }
    }

    /** symlink fails on an existing entry; the target is the C string in the buffer. */
    method Symlinkat(target: array<char>, path: Path) returns (ok: bool)
      modifies this
      ensures ok <==> path !in old(nodes)
      ensures nodes == if ok then old(nodes)[path := Symlink(CStr(target[..]))] else old(nodes)
    {
      ok := path !in nodes;
      if ok {
        nodes := nodes[path := Symlink(CStr(target[..]))];
      }
    }

    /** memcpy of a string behind the first `cur` bytes. */
    method Copy(path: array<char>, cur: nat, part: string)
      requires cur + |part| <= path.Length
      modifies path
      ensures path[..cur + |part|] == old(path[..cur]) + part
    {
      forall i | 0 <= i < |part| {
        path[cur + i] := part[i];
      }
      assert path[..cur] == old(path[..cur]) && path[cur..cur + |part|] == part;
      assert path[..cur + |part|] == path[..cur] + path[cur..cur + |part|];
    }

    /** Appending a slash and a name, with its NUL, behind the first `len` bytes. */
    method Append(srcPath: array<char>, len: nat, name: string)
      requires srcPath.Length == PATH_MAX + 1 && len + 1 + |name| <= PATH_MAX
      requires '\0' !in srcPath[..len] && '\0' !in name
      modifies srcPath
      ensures HoldsPath(srcPath, old(srcPath[..len]) + "/" + name)
    {
      srcPath[len] := '/';
      assert srcPath[..len + 1] == old(srcPath[..len]) + "/";
      Copy(srcPath, len + 1, name);
      srcPath[len + 1 + |name|] := '\0';
    }

    /** The body of the loop over the directory: one entry, in whatever order the entries come. */
    method LinkEntry(src: Node, srcPath: array<char>, len: nat, dst: Path, name: string,
                     ghost was: Dest, ghost done: set<string>) returns (ok: bool)
      requires src.Dir? && WellNamed(src) && name in src.entries && name !in done
      requires len <= PATH_MAX && srcPath.Length == PATH_MAX + 1 && '\0' !in srcPath[..len]
      requires Get(nodes, dst) == Some(Directory)
      requires LinkedSoFar(was, nodes, Job(src, srcPath[..len], dst), done)
      modifies this, srcPath
      ensures srcPath[..len] == old(srcPath[..len])
      ensures var job := Job(src, old(srcPath[..len]), dst);
              if ok then LinkedSoFar(was, nodes, job, done + {name})
              else Between(was, nodes, job) && (!Fits(job) || !NoClash(was, job))
      decreases src, 0
    {
      hide Linked, NoClash, Fits, Between, LinkedSoFar, NewVisible, CStr;
      ghost var root := srcPath[..len];
      ghost var job := Job(src, root, dst);
      SoFarBetween(was, nodes, job, done);
      if name[0] == '.' {
        SkipHidden(was, nodes, job, done, name);
        return true;
      }
      var entry := src.entries[name];
      if len + 1 + |name| > PATH_MAX {
        TooLong(job, name);
        return false;
      }
      Append(srcPath, len, name);
      var q := dst + [name];
      if entry.Dir? {
        if q in nodes && nodes[q] != Directory {
          StepDirBlocked(was, nodes, job, done, name);
          return false;
        }
        ghost var now := nodes;
        if q !in nodes {
          var _ := Mkdirat(q);
        }
        ok := LinkTree(entry, srcPath, len + 1 + |name|, q);
        if ok {
          StepDir(was, now, nodes, job, done, name);
        } else {
          StepDirFails(was, now, job, done, name);
          ChildBetween(was, now, nodes, job, done, name);
        }
      } else {
        StepFile(was, nodes, job, done, name);
        CStrIs(srcPath[..], len + 1 + |name|);
        ok := Symlinkat(srcPath, q);
      }
    }

    method LinkTree(src: Node, srcPath: array<char>, len: nat, dst: Path) returns (ok: bool)
      requires src.Dir? && WellNamed(src)
      requires len <= PATH_MAX && srcPath.Length == PATH_MAX + 1 && HoldsPath(srcPath, srcPath[..len])
      requires Get(nodes, dst) == Some(Directory)
      modifies this, srcPath
      ensures HoldsPath(srcPath, old(srcPath[..len]))
      ensures var job := Job(src, old(srcPath[..len]), dst);
              && (ok <==> Fits(job) && NoClash(old(nodes), job))
              && (if ok then Linked(old(nodes), nodes, job) else Between(old(nodes), nodes, job))
      ensures NewVisible(old(nodes), nodes, dst)
      decreases src
    {
      hide NewVisible;
      ghost var was, root := nodes, srcPath[..len];
      ghost var job := Job(src, root, dst);
      ghost var done: set<string> := {};
      NothingLinked(was, job);
      var entries := src.entries.Keys;
      ok := true;
      while ok && entries != {}
        invariant srcPath[..len] == root
        invariant done + entries == src.entries.Keys && done !! entries
        invariant ok ==> LinkedSoFar(was, nodes, job, done)
        invariant !ok ==> Between(was, nodes, job) && (!Fits(job) || !NoClash(was, job))
        decreases entries
      {
        var name :| name in entries;
        ok := LinkEntry(src, srcPath, len, dst, name, was, done);
        entries := entries - {name};
        done := done + {name};
      }
      srcPath[len] := '\0';
      if ok {
        AllLinked(was, nodes, job, done);
      }
      LinkedVisible(was, nodes, job);
    }

    /** What the parts come to with one more of them. */
    lemma {:induction false} NoParts(parts: seq<string>)
      requires parts != []
      ensures AllPartsFit(parts[..0]) && FirstParts(parts, 0) == ""
    {
    }

    lemma {:induction false} FirstPartsIs(parts: seq<string>, k: nat)
      requires 0 < k <= |parts|
      ensures FirstParts(parts, k) == Joined(parts[0], parts[1..k])
    {
    }

    lemma {:induction false} NextPart(parts: seq<string>, k: nat)
      requires k < |parts|
      ensures AllPartsFit(parts[..k]) && |parts[k]| + (if k == 0 then 0 else 1) <= PATH_MAX
              ==> AllPartsFit(parts[..k + 1])
      ensures |parts[k]| + (if k == 0 then 0 else 1) > PATH_MAX ==> !AllPartsFit(parts)
      ensures FirstParts(parts, k + 1) == FirstParts(parts, k) + (if k == 0 then "" else "/") + parts[k]
    {
      if k > 0 {
        assert parts[1..k + 1] == parts[1..k] + [parts[k]];
        JoinedSnoc(parts[0], parts[1..k], parts[k]);
      }
    }

    /** One more part, with a slash in front of it unless it is the first. */
    method AddPart(path: array<char>, len: nat, part: string, prev: nat) returns (end: nat)
      requires prev <= 1 && len + prev + |part| <= path.Length
      requires '\0' !in path[..len] && '\0' !in part
      modifies path
      ensures end == len + prev + |part| && '\0' !in path[..end]
      ensures path[..end] == old(path[..len]) + (if prev == 0 then "" else "/") + part
    {
      end := len;
      if prev != 0 {
        path[end] := '/';
        assert path[..end + 1] == path[..end] + "/";
        end := end + 1;
      }
      Copy(path, end, part);
      end := end + |part|;
    }

    /** path_parts: a fresh buffer with the parts separated by slashes, or null if a part with the slash in front of
        it is longer than the whole buffer. The C code compares each part alone with the space of the whole buffer, so
        the total length of the parts that it copies is the caller's concern. */
    method PathParts(parts: seq<string>) returns (path: array?<char>, len: nat)
      requires parts != [] && (forall i :: 0 <= i < |parts| ==> '\0' !in parts[i])
      requires forall k :: 0 < k <= |parts| && AllPartsFit(parts[..k]) ==> |Joined(parts[0], parts[1..k])| <= PATH_MAX
      ensures path == null <==> !AllPartsFit(parts)
      ensures path != null ==>
                fresh(path) && len == |Joined(parts[0], parts[1..])| && HoldsPath(path, Joined(parts[0], parts[1..]))
    {
      hide Joined, AllPartsFit, FirstParts;
      path, len := new char[PATH_MAX + 1], 0;
      NoParts(parts);
      var k, prev := 0, 0;
      while k < |parts|
        invariant 0 <= k <= |parts| && prev == (if k == 0 then 0 else 1)
        invariant path != null && fresh(path) && path.Length == PATH_MAX + 1
        invariant AllPartsFit(parts[..k]) && len <= PATH_MAX
        invariant path[..len] == FirstParts(parts, k) && '\0' !in path[..len]
      {
        NextPart(parts, k);
        if |parts[k]| + prev > PATH_MAX {
          return null, 0;
        }
        FirstPartsIs(parts, k + 1);
        len := AddPart(path, len, parts[k], prev);
        prev := 1;
        k := k + 1;
      }
      assert parts[..k] == parts && parts[1..k] == parts[1..];
      FirstPartsIs(parts, k);
      path[len] := '\0';
    }

    /** If all parts together fit the buffer, so do the first ones, and each part alone. */
    lemma {:induction false} PrefixFits(parts: seq<string>, k: nat)
      requires 0 < k <= |parts| && |Joined(parts[0], parts[1..])| <= PATH_MAX
      ensures |Joined(parts[0], parts[1..k])| <= PATH_MAX
      ensures |parts[k - 1]| + (if k == 1 then 0 else 1) <= PATH_MAX
      decreases |parts| - k
    {
      if k < |parts| {
        PrefixFits(parts, k + 1);
        NextPart(parts, k);
      } else {
        assert parts[1..k] == parts[1..];
      }
      NextPart(parts, k - 1);
    }

    lemma {:induction false} WholeFits(parts: seq<string>)
      requires parts != [] && |Joined(parts[0], parts[1..])| <= PATH_MAX
      ensures AllPartsFit(parts)
      ensures forall k :: 0 < k <= |parts| ==> |Joined(parts[0], parts[1..k])| <= PATH_MAX
    {
      forall k | 0 < k <= |parts|
        ensures |Joined(parts[0], parts[1..k])| <= PATH_MAX
        ensures |parts[k - 1]| + (if k == 1 then 0 else 1) <= PATH_MAX
      {
        PrefixFits(parts, k);
      }
      forall i | 0 <= i < |parts| ensures |parts[i]| + (if i == 0 then 0 else 1) <= PATH_MAX {
        PrefixFits(parts, i + 1);
      }
    }

    lemma {:induction false} TreePath(pkg: Package, tree: string)
      requires pkg.root.Dir? && tree in TREES
      ensures var parts := ["/packages", pkg.name, pkg.version, tree];
              Joined(parts[0], parts[1..]) == PackageJob(pkg).root + "/" + tree
      ensures !Hidden(tree)
      ensures tree in pkg.root.entries <==> tree in PackageJob(pkg).tree.entries
      ensures tree in pkg.root.entries ==> PackageJob(pkg).tree.entries[tree] == pkg.root.entries[tree]
    {
      JoinedSnoc("/packages", [pkg.name, pkg.version], tree);
      assert [pkg.name, pkg.version] + [tree] == ["/packages", pkg.name, pkg.version, tree][1..];
    }

    /** One tree of a package; a package without it is skipped. */
    method LinkPackageTree(pkg: Package, tree: string, ghost was: Dest, ghost done: set<string>) returns (ok: bool)
      requires Mounted(pkg) && tree in TREES && tree !in done
      requires Get(nodes, [tree]) == Some(Directory) && LinkedSoFar(was, nodes, PackageJob(pkg), done)
      modifies this
      ensures ok ==> LinkedSoFar(was, nodes, PackageJob(pkg), done + {tree})
      ensures !ok ==> Between(was, nodes, PackageJob(pkg))
      ensures !ok ==> !Fits(PackageJob(pkg)) || !NoClash(was, PackageJob(pkg))
    {
      hide Linked, NoClash, Fits, Between, LinkedSoFar;
      ghost var job, now := PackageJob(pkg), nodes;
      SoFarBetween(was, nodes, job, done);
      var parts := ["/packages", pkg.name, pkg.version, tree];
      WholeFits(parts);
      var path, len := PathParts(parts);
      TreePath(pkg, tree);
      assert [] + [tree] == [tree];
      if tree !in pkg.root.entries {
        SkipAbsent(was, nodes, job, done, tree);
        return true;
      }
      if pkg.root.entries[tree].File? {
        StepFile(was, nodes, job, done, tree);
        return false;
      }
      ok := LinkTree(pkg.root.entries[tree], path, len, [tree]);
      if ok {
        StepDir(was, now, nodes, job, done, tree);
      } else {
        StepDirFails(was, now, job, done, tree);
        ChildBetween(was, now, nodes, job, done, tree);
      }
    }

    /** The round of link_packages for one package. */
    method LinkPackage(pkg: Package) returns (ok: bool)
      requires Mounted(pkg) && forall t :: t in TREES ==> Get(nodes, [t]) == Some(Directory)
      modifies this
      ensures ok <==> Fits(PackageJob(pkg)) && NoClash(old(nodes), PackageJob(pkg))
      ensures if ok then Linked(old(nodes), nodes, PackageJob(pkg)) else Between(old(nodes), nodes, PackageJob(pkg))
    {
      hide Linked, NoClash, Fits;
      ghost var was, job := nodes, PackageJob(pkg);
      NothingLinked(was, job);
      ok := LinkPackageTree(pkg, "bin", was, {});
      if ok {
        SoFarBetween(was, nodes, job, {} + {"bin"});
        ok := LinkPackageTree(pkg, "lib", was, {} + {"bin"});
      }
      if ok {
        SoFarBetween(was, nodes, job, {} + {"bin"} + {"lib"});
        ok := LinkPackageTree(pkg, "include", was, {} + {"bin"} + {"lib"});
      }
      if ok {
        AllLinked(was, nodes, job, {} + {"bin"} + {"lib"} + {"include"});
      }
    }

    /** The three directories that must not exist yet. */
    method MakeTrees() returns (ok: bool)
      modifies this
      ensures ok <==> forall t :: t in TREES ==> [t] !in old(nodes)
      ensures ok ==> nodes == Prepared(old(nodes))
      ensures forall q :: q in old(nodes) ==> Get(nodes, q) == Get(old(nodes), q)
      ensures forall q :: q in nodes && q !in old(nodes) ==> q in {["bin"], ["lib"], ["include"]}
    {
      ok := Mkdirat(["bin"]);
      if ok {
        ok := Mkdirat(["lib"]);
      }
      if ok {
        ok := Mkdirat(["include"]);
      }
    }

    lemma {:induction false} AreDirs(pkgs: seq<Package>)
      requires forall i :: 0 <= i < |pkgs| ==> Mounted(pkgs[i])
      ensures forall i :: 0 <= i < |pkgs| ==> pkgs[i].root.Dir?
    {
    }

    lemma {:induction false} AtRoot(pkg: Package)
      ensures PackageJob(pkg).dst == []
    {
    }

    lemma {:induction false} BetweenKeeps(was: Dest, now: Dest, job: Job)
      requires Between(was, now, job)
      ensures forall q :: q in was ==> Get(now, q) == Get(was, q)
    {
    }

    lemma {:induction false} NothingMerged(was: Dest)
      ensures Mergeable([]) && MergedWith(Prepared(was), Prepared(was), [])
    {
    }

    lemma {:induction false} TreesStay(was: Dest, now: Dest, pkgs: seq<Package>)
      requires MergedWith(Prepared(was), now, pkgs) && forall t :: t in TREES ==> [t] !in was
      ensures forall t :: t in TREES ==> Get(now, [t]) == Some(Directory)
      ensures forall q :: q in was ==> Get(now, q) == Get(was, q)
    {
      forall q | q in Prepared(was) ensures Get(now, q) == Some(Prepared(was)[q]) {
      }
      forall t | t in TREES ensures [t] in Prepared(was) && Prepared(was)[[t]] == Directory {
      }
    }

    /** The loop over the packages. */
    method LinkAll(pkgs: seq<Package>, ghost was: Dest) returns (ok: bool)
      requires Closed(was) && (forall t :: t in TREES ==> [t] !in was) && nodes == Prepared(was)
      requires forall i :: 0 <= i < |pkgs| ==> Mounted(pkgs[i])
      modifies this
      ensures ok <==> Mergeable(pkgs)
      ensures ok ==> MergedWith(Prepared(was), nodes, pkgs)
      ensures forall q :: q in was ==> Get(nodes, q) == Get(was, q)
      ensures forall q :: q in nodes && q !in was ==> NoDots(q)
    {
      hide Mergeable, NoClash, Fits, Prepared, Linked, MergedWith, Between, Closed, PackageJob, Mounted, Union, NoDots;
      AreDirs(pkgs);
      NothingMerged(was);
      var k := 0;
      while k < |pkgs|
        invariant 0 <= k <= |pkgs|
        invariant Mergeable(pkgs[..k]) && MergedWith(Prepared(was), nodes, pkgs[..k])
      {
        assert pkgs[..k + 1] == pkgs[..k] + [pkgs[k]];
        NextPackage(was, nodes, pkgs[..k], pkgs[k]);
        TreesStay(was, nodes, pkgs[..k]);
        ghost var now := nodes;
        ok := LinkPackage(pkgs[k]);
        if !ok {
          BetweenKeeps(now, nodes, PackageJob(pkgs[k]));
          AtRoot(pkgs[k]);
          MergingVisible(was, now, nodes, pkgs[..k], PackageJob(pkgs[k]));
          if Mergeable(pkgs) {
            PrefixMergeable(pkgs, k + 1);
          }
          return;
        }
        NextMerged(Prepared(was), now, nodes, pkgs[..k], pkgs[k]);
        k := k + 1;
      }
      assert pkgs[..k] == pkgs;
      TreesStay(was, nodes, pkgs);
      MergingVisible(was, nodes, nodes, pkgs, Job(File, "", []));
      return true;
    }

    /** Merging all packages into fresh trees succeeds exactly when they are mergeable, and then the destination
        holds what they put there together, and what it held before. */
    method LinkPackages(pkgs: seq<Package>) returns (ok: bool)
      requires Closed(nodes) && forall i :: 0 <= i < |pkgs| ==> Mounted(pkgs[i])
      modifies this
      ensures ok <==> (forall t :: t in {"bin", "lib", "include"} ==> [t] !in old(nodes)) && CanMerge(pkgs)
      ensures ok ==> Merged(old(nodes), nodes, pkgs) && MergedWith(Prepared(old(nodes)), nodes, pkgs)
      ensures forall q :: q in old(nodes) ==> Get(nodes, q) == Get(old(nodes), q)
      ensures forall q :: q in nodes && q !in old(nodes) ==> NoDots(q)
    {
      hide Mergeable, CanMerge, Merged, MergedWith, Prepared, Closed, Mounted;
      ghost var was := nodes;
      AreDirs(pkgs);
      MergeableMeans(pkgs);
      ok := MakeTrees();
      if ok {
        ok := LinkAll(pkgs, was);
        if ok {
          MergedMeans(was, nodes, pkgs);
        }
      }
    }
  }
}
