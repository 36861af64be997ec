/** Package trees, the directory they are linked into, and what linking means (tools/withenv.c, link_tree). */
module FileTree {
  import opened Chars

  const PATH_MAX: nat := 4096

  type Path = seq<string>

  /** A source tree of plain files and directories. */
  datatype Node = File | Dir(entries: map<string, Node>)

  predicate IsName(name: string) { name != "" && '/' !in name && '\0' !in name }

  ghost predicate WellNamed(t: Node)
  {
    t.Dir? ==> forall n :: n in t.entries ==> IsName(n) && WellNamed(t.entries[n])
  }

  predicate Hidden(name: string) { name != "" && name[0] == '.' }

  /** What the tree holds at a path none of whose names is hidden. */
  function Lookup(t: Node, p: Path): Option<Node>
    decreases |p|
  {
    if p == [] then Some(t)
    else if t.Dir? && p[0] in t.entries && !Hidden(p[0]) then Lookup(t.entries[p[0]], p[1..])
    else None
  }

  function Joined(root: string, p: Path): string
    decreases |p|
  {
    if p == [] then root else Joined(root + "/" + p[0], p[1..])
  }

  datatype DstNode = Directory | Symlink(target: string)

  /** The directory tree that is linked into, as a map from paths. */
  type Dest = map<Path, DstNode>

  function Get(m: Dest, q: Path): Option<DstNode> { if q in m then Some(m[q]) else None }

  /** One call of link_tree: a source directory, its path, and the destination directory. */
  datatype Job = Job(tree: Node, root: string, dst: Path)

  function Leaf(found: Option<Node>, root: string, p: Path): Option<DstNode>
  {
    if found.None? then None
    else if found.value.File? then Some(Symlink(Joined(root, p)))
    else Some(Directory)
  }

  /** What the job alone puts at `q`: directories become directories, files become symlinks to their source. */
  function At(job: Job, q: Path): Option<DstNode>
  {
    if |job.dst| < |q| && q[..|job.dst|] == job.dst then
      Leaf(Lookup(job.tree, q[|job.dst|..]), job.root, q[|job.dst|..])
    else None
  }

  /** What is at `q` after the job has been linked on top of `was`. */
  function After(was: Dest, job: Job, q: Path): Option<DstNode>
  {
    if q in was then Some(was[q]) else At(job, q)
  }

  ghost predicate Linked(was: Dest, now: Dest, job: Job)
  {
    forall q :: Get(now, q) == After(was, job, q)
  }

  /** Nothing is lost, and everything new is what the job puts there. */
  ghost predicate Between(was: Dest, now: Dest, job: Job)
  {
    && (forall q :: q in was ==> Get(now, q) == Some(was[q]))
    && (forall q :: q in now ==> Get(now, q) == After(was, job, q))
  }

  /** Every path of the source tree fits the path buffer. */
  ghost predicate Fits(job: Job)
  {
    forall p :: p != [] && Lookup(job.tree, p).Some? ==> |Joined(job.root, p)| <= PATH_MAX
  }

  /** Only directories meet. */
  ghost predicate NoClash(was: Dest, job: Job)
  {
    forall q :: q in was && At(job, q).Some? ==> was[q] == Directory && At(job, q) == Some(Directory)
  }

  // ---------- A directory entry by entry ----------

  /** The job for only some entries of the directory. */
  function Part(job: Job, done: set<string>): Job
    requires job.tree.Dir?
  {
    Job(Dir(map n | n in job.tree.entries && n in done :: job.tree.entries[n]), job.root, job.dst)
  }

  /** The job of the recursive call for one entry. */
  function Child(job: Job, name: string): Job
    requires job.tree.Dir? && name in job.tree.entries
  {
    Job(job.tree.entries[name], job.root + "/" + name, job.dst + [name])
  }

  predicate Below(dst: Path, q: Path) { |dst| <= |q| && q[..|dst|] == dst }

  lemma {:induction false} BelowSnoc(dst: Path, name: string, q: Path)
    ensures Below(dst + [name], q) <==> |dst| < |q| && q[..|dst|] == dst && q[|dst|] == name
    ensures Below(dst + [name], q) && |q| == |dst| + 1 ==> q == dst + [name]
  {
    if |dst| < |q| {
      assert q[..|dst| + 1] == q[..|dst|] + [q[|dst|]];
    }
  }

  /** An entry adds itself and, behind it, what its own job puts there. */
  lemma {:induction false} AtPart(job: Job, done: set<string>, name: string, q: Path)
    requires job.tree.Dir? && name in job.tree.entries && name !in done && !Hidden(name)
    ensures Below(job.dst + [name], q) ==> At(Part(job, done), q) == None
    ensures At(Part(job, done + {name}), q) ==
            if q == job.dst + [name] then Leaf(Some(job.tree.entries[name]), job.root, [name])
            else if Below(job.dst + [name], q) then At(Child(job, name), q)
            else At(Part(job, done), q)
  {
    var d := |job.dst|;
    BelowSnoc(job.dst, name, q);
    if Below(job.dst + [name], q) {
      var p := q[d..];
      var t := Part(job, done + {name}).tree;
      assert p[1..] == q[d + 1..] && t.entries[name] == job.tree.entries[name];
      assert Lookup(t, p) == Lookup(job.tree.entries[name], p[1..]);
      assert |q| == d + 1 ==> p == [name] && p[1..] == [];
    }
  }

  /** A part of the directory puts nothing anywhere that the whole does not. */
  lemma {:induction false} PartOfWhole(job: Job, done: set<string>, q: Path)
    requires job.tree.Dir? && At(Part(job, done), q).Some?
    ensures At(job, q) == At(Part(job, done), q)
  {
  }

  // ---------- The steps of the loop over the entries ----------

  /** What has been linked so far, together with the conditions that made it possible. */
  ghost predicate LinkedSoFar(was: Dest, now: Dest, job: Job, done: set<string>)
    requires job.tree.Dir?
  {
    var part := Part(job, done);
    Linked(was, now, part) && NoClash(was, part) && Fits(part)
  }

  lemma {:induction false} NothingLinked(was: Dest, job: Job)
    requires job.tree.Dir?
    ensures LinkedSoFar(was, was, job, {})
  {
    assert forall p: Path :: p != [] ==> Lookup(Part(job, {}).tree, p) == None;
  }

  /** Skipping an entry that is hidden. */
  lemma {:induction false} SkipHidden(was: Dest, now: Dest, job: Job, done: set<string>, name: string)
    requires job.tree.Dir? && Hidden(name) && LinkedSoFar(was, now, job, done)
    ensures LinkedSoFar(was, now, job, done + {name})
  {
    var a, b := Part(job, done), Part(job, done + {name});
    forall p: Path | p != [] ensures Lookup(b.tree, p) == Lookup(a.tree, p) {
    }
    forall q ensures At(b, q) == At(a, q) {
    }
  }

  lemma {:induction false} FitsPart(job: Job, done: set<string>, name: string)
    requires job.tree.Dir? && name in job.tree.entries && name !in done && !Hidden(name)
    ensures Fits(Part(job, done + {name})) <==>
            Fits(Part(job, done)) && |job.root| + 1 + |name| <= PATH_MAX && Fits(Child(job, name))
  {
    var a, b, child := Part(job, done), Part(job, done + {name}), Child(job, name);
    assert b.tree.entries[name] == child.tree;
    forall p: Path | p != []
      ensures p[0] == name ==>
                Lookup(b.tree, p) == Lookup(child.tree, p[1..]) && Joined(b.root, p) == Joined(child.root, p[1..])
      ensures p[0] == name ==> Lookup(a.tree, p) == None
      ensures p[0] != name ==> Lookup(b.tree, p) == Lookup(a.tree, p)
    {
    }
    if Fits(b) {
      assert Lookup(b.tree, [name]).Some? && Joined(b.root, [name]) == Joined(child.root, []);
      forall p: Path | p != [] && Lookup(child.tree, p).Some? ensures |Joined(child.root, p)| <= PATH_MAX {
        assert ([name] + p)[1..] == p;
        assert Lookup(b.tree, [name] + p).Some?;
      }
      forall p: Path | p != [] && Lookup(a.tree, p).Some? ensures |Joined(a.root, p)| <= PATH_MAX {
        assert Lookup(b.tree, p).Some?;
      }
    }
    if Fits(a) && |job.root| + 1 + |name| <= PATH_MAX && Fits(child) {
      forall p: Path | p != [] && Lookup(b.tree, p).Some? ensures |Joined(b.root, p)| <= PATH_MAX {
        if p[0] == name {
          assert p[1..] == [] ==> Joined(child.root, p[1..]) == child.root;
        } else {
          assert Lookup(a.tree, p).Some?;
        }
      }
    }
  }

  /** A file entry: it is linked exactly when nothing is there yet. */
  lemma {:induction false} StepFile(was: Dest, now: Dest, job: Job, done: set<string>, name: string)
    requires job.tree.Dir? && name in job.tree.entries && name !in done && !Hidden(name)
    requires job.tree.entries[name].File? && LinkedSoFar(was, now, job, done)
    requires |job.root| + 1 + |name| <= PATH_MAX
    ensures var q := job.dst + [name];
            if q in now then !NoClash(was, job)
            else LinkedSoFar(was, now[q := Symlink(job.root + "/" + name)], job, done + {name})
  {
    var part, q := Part(job, done + {name}), job.dst + [name];
    var link := Symlink(job.root + "/" + name);
    assert Joined(job.root, [name]) == link.target;
    forall x
      ensures At(part, x) == if x == q then Some(link) else At(Part(job, done), x)
    {
      AtPart(job, done, name, x);
    }
    AtPart(job, done, name, q);
    assert Get(now, q) == After(was, Part(job, done), q);
    if q in now {
      PartOfWhole(job, done + {name}, q);
      assert q in was;
    } else {
      FitsPart(job, done, name);
      var now' := now[q := link];
      forall x ensures Get(now', x) == After(was, part, x) {
        assert Get(now, x) == After(was, Part(job, done), x);
      }
    }
  }

  /** A path that does not fit the buffer. */
  lemma {:induction false} TooLong(job: Job, name: string)
    requires job.tree.Dir? && name in job.tree.entries && !Hidden(name)
    requires |job.root| + 1 + |name| > PATH_MAX
    ensures !Fits(job)
  {
    assert Lookup(job.tree, [name]).Some?;
    assert Joined(job.root, [name]) == job.root + "/" + name;
  }

  /** The destination in which the recursive call for a directory entry starts. */
  function WithDir(now: Dest, q: Path): Dest { if q in now then now else now[q := Directory] }

  /** At or behind a new entry nothing has been linked yet. */
  lemma {:induction false} UntouchedEntry(was: Dest, now: Dest, job: Job, done: set<string>, name: string, x: Path)
    requires job.tree.Dir? && name in job.tree.entries && name !in done && !Hidden(name)
    requires Linked(was, now, Part(job, done)) && Below(job.dst + [name], x)
    ensures Get(now, x) == Get(was, x)
  {
    AtPart(job, done, name, x);
    assert Get(now, x) == After(was, Part(job, done), x);
  }

  /** A directory entry that meets something else. */
  lemma {:induction false} StepDirBlocked(was: Dest, now: Dest, job: Job, done: set<string>, name: string)
    requires job.tree.Dir? && name in job.tree.entries && name !in done && !Hidden(name)
    requires job.tree.entries[name].Dir? && LinkedSoFar(was, now, job, done)
    requires var q := job.dst + [name]; q in now && now[q] != Directory
    ensures !NoClash(was, job)
  {
    var q := job.dst + [name];
    UntouchedEntry(was, now, job, done, name, q);
    AtPart(job, done, name, q);
    PartOfWhole(job, done + {name}, q);
    assert q in was && At(job, q) == Some(Directory);
  }

  /** The recursive call meets the conditions of its entry. */
  lemma {:induction false} ChildClash(was: Dest, now: Dest, job: Job, done: set<string>, name: string)
    requires job.tree.Dir? && name in job.tree.entries && name !in done && !Hidden(name)
    requires job.tree.entries[name].Dir? && LinkedSoFar(was, now, job, done)
    requires var q := job.dst + [name]; q in now ==> now[q] == Directory
    ensures NoClash(was, Part(job, done + {name})) <==> NoClash(WithDir(now, job.dst + [name]), Child(job, name))
  {
    var q, part, child := job.dst + [name], Part(job, done + {name}), Child(job, name);
    var mid := WithDir(now, q);
    forall x
      ensures Below(q, x) && x != q ==> At(part, x) == At(child, x) && Get(mid, x) == Get(was, x)
      ensures Below(q, x) && x in was ==> Get(now, x) == Get(was, x)
      ensures x == q ==> At(part, x) == Some(Directory)
      ensures !Below(q, x) ==> At(part, x) == At(Part(job, done), x) && At(child, x) == None
      ensures x == q ==> At(child, x) == None
    {
      AtPart(job, done, name, x);
      if Below(q, x) {
        UntouchedEntry(was, now, job, done, name, x);
      }
    }
    if NoClash(was, part) {
      forall x | x in mid && At(child, x).Some? ensures mid[x] == Directory && At(child, x) == Some(Directory) {
        assert Get(mid, x) == Get(was, x);
      }
    }
    if NoClash(mid, child) {
      forall x | x in was && At(part, x).Some? ensures was[x] == Directory && At(part, x) == Some(Directory) {
        assert Get(now, x) == After(was, Part(job, done), x);
        if Below(q, x) && x != q {
          assert Get(mid, x) == Get(was, x);
        }
      }
    }
  }

  /** A directory entry that was linked by the recursive call. */
  lemma {:induction false} StepDir(was: Dest, now: Dest, then': Dest, job: Job, done: set<string>, name: string)
    requires job.tree.Dir? && name in job.tree.entries && name !in done && !Hidden(name)
    requires job.tree.entries[name].Dir? && LinkedSoFar(was, now, job, done)
    requires var q := job.dst + [name]; q in now ==> now[q] == Directory
    requires |job.root| + 1 + |name| <= PATH_MAX
    requires var child, mid := Child(job, name), WithDir(now, job.dst + [name]);
             Linked(mid, then', child) && Fits(child) && NoClash(mid, child)
    ensures LinkedSoFar(was, then', job, done + {name})
  {
    var q, part, child := job.dst + [name], Part(job, done + {name}), Child(job, name);
    var mid := WithDir(now, q);
    FitsPart(job, done, name);
    ChildClash(was, now, job, done, name);
    forall x ensures Get(then', x) == After(was, part, x) {
      AtPart(job, done, name, x);
      assert Get(then', x) == After(mid, child, x);
      assert Get(now, x) == After(was, Part(job, done), x);
    }
  }

  lemma {:induction false} WholeConditions(was: Dest, job: Job, done: set<string>)
    requires job.tree.Dir?
    ensures Fits(job) ==> Fits(Part(job, done))
    ensures NoClash(was, job) ==> NoClash(was, Part(job, done))
  {
    var part := Part(job, done);
    forall p: Path | p != [] && Lookup(part.tree, p).Some? ensures Lookup(job.tree, p) == Lookup(part.tree, p) {
    }
    forall q | At(part, q).Some? ensures At(job, q) == At(part, q) {
      PartOfWhole(job, done, q);
    }
  }

  /** A recursive call that fails. */
  lemma {:induction false} StepDirFails(was: Dest, now: Dest, job: Job, done: set<string>, name: string)
    requires job.tree.Dir? && name in job.tree.entries && name !in done && !Hidden(name)
    requires job.tree.entries[name].Dir? && LinkedSoFar(was, now, job, done)
    requires var q := job.dst + [name]; q in now ==> now[q] == Directory
    requires var child := Child(job, name);
             !Fits(child) || !NoClash(WithDir(now, job.dst + [name]), child)
    ensures !Fits(job) || !NoClash(was, job)
  {
    FitsPart(job, done, name);
    ChildClash(was, now, job, done, name);
    WholeConditions(was, job, done + {name});
  }

  lemma {:induction false} AllLinked(was: Dest, now: Dest, job: Job, done: set<string>)
    requires job.tree.Dir? && job.tree.entries.Keys <= done && LinkedSoFar(was, now, job, done)
    ensures Linked(was, now, job) && Fits(job) && NoClash(was, job)
  {
    assert Part(job, done).tree.entries == job.tree.entries;
  }

  /** A name that is not in the directory. */
  lemma {:induction false} SkipAbsent(was: Dest, now: Dest, job: Job, done: set<string>, name: string)
    requires job.tree.Dir? && name !in job.tree.entries && LinkedSoFar(was, now, job, done)
    ensures LinkedSoFar(was, now, job, done + {name})
  {
    assert Part(job, done + {name}).tree.entries == Part(job, done).tree.entries;
  }

  lemma {:induction false} JoinedSnoc(root: string, p: Path, name: string)
    ensures Joined(root, p + [name]) == Joined(root, p) + "/" + name
    decreases |p|
  {
    if p == [] {
      assert ([] + [name])[1..] == [];
    } else {
      assert (p + [name])[1..] == p[1..] + [name];
      JoinedSnoc(root + "/" + p[0], p[1..], name);
    }
  }

  /** Stopping early leaves only what the job would have put there. */
  lemma {:induction false} SoFarBetween(was: Dest, now: Dest, job: Job, done: set<string>)
    requires job.tree.Dir? && LinkedSoFar(was, now, job, done)
    ensures Between(was, now, job)
  {
    var part := Part(job, done);
    forall q ensures q in was ==> Get(now, q) == Some(was[q])
             ensures q in now ==> Get(now, q) == After(was, job, q)
    {
      assert Get(now, q) == After(was, part, q);
      if At(part, q).Some? {
        PartOfWhole(job, done, q);
      }
    }
  }

  lemma {:induction false} ChildBetween(was: Dest, now: Dest, then': Dest, job: Job, done: set<string>, name: string)
    requires job.tree.Dir? && name in job.tree.entries && name !in done && !Hidden(name)
    requires job.tree.entries[name].Dir? && LinkedSoFar(was, now, job, done)
    requires Between(WithDir(now, job.dst + [name]), then', Child(job, name))
    ensures Between(was, then', job)
  {
    var q, child := job.dst + [name], Child(job, name);
    var mid := WithDir(now, q);
    SoFarBetween(was, now, job, done);
    forall x ensures x in was ==> Get(then', x) == Some(was[x])
             ensures x in then' ==> Get(then', x) == After(was, job, x)
    {
      AtPart(job, done, name, x);
      if At(Part(job, done + {name}), x).Some? {
        PartOfWhole(job, done + {name}, x);
      }
      assert x in mid ==> Get(then', x) == Some(mid[x]);
      assert x in then' ==> Get(then', x) == After(mid, child, x);
      assert Get(now, x) == After(was, Part(job, done), x);
    }
  }
}
