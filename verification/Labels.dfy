/**
 The paths under which the search for alive nodes lists what it finds (diffuzzer/src/abstract_fs/fs.rs,
 alive_follow_once, and pathname.rs, join): exactly when they lead there.
 */
module Labels {
  import opened Wrappers
  import opened Pathname
  import opened Nodes
  import opened Resolution
  import opened Forest
  import opened Operations
  import opened Invariants
  import opened Discipline
  import opened Trails
  import opened Rounds

  // ----- names hold no slashes

  predicate SlashFree(ns: Namespace) {
    forall d, n :: 0 <= d < |ns.dirs| && n in ns.dirs[d] ==> '/' !in n
  }

  /** No call, with whatever success, brings in a name but the last of its new path. */
  lemma NamesFrom(s: State, op: Operation, d: nat, n: Name)
    requires d < |Exec(s, op).state.ns.dirs| && n in Exec(s, op).state.ns.dirs[d]
    ensures (d < |s.ns.dirs| && n in s.ns.dirs[d]) || Introduced(op) == Some(n)
  {
    match op
    case MkDir(path, mode) => MkDirNamesFrom(s, path, mode, d, n);
    case Create(path, mode) => CreateNamesFrom(s, path, mode, d, n);
    case MakeSymlink(target, linkPath) => SymlinkNamesFrom(s, target, linkPath, d, n);
    case Rename(oldPath, newPath) => RenameNamesFrom(s, oldPath, newPath, d, n);
    case Hardlink(oldPath, newPath) => HardlinkNamesFrom(s, oldPath, newPath, d, n);
    case Remove(path) => RemoveNamesFrom(s, path, d, n);
    case _ => NsUntouched(s, op);
  }

  lemma MkDirNamesFrom(s: State, path: string, mode: Mode, d: nat, n: Name)
    requires var t := ExecMkDir(s, path, mode).state.ns; d < |t.dirs| && n in t.dirs[d]
    ensures (d < |s.ns.dirs| && n in s.ns.dirs[d]) || ('/' in path && Split(path).1 == n)
  {
  }

  lemma CreateNamesFrom(s: State, path: string, mode: Mode, d: nat, n: Name)
    requires var t := ExecCreate(s, path, mode).state.ns; d < |t.dirs| && n in t.dirs[d]
    ensures (d < |s.ns.dirs| && n in s.ns.dirs[d]) || ('/' in path && Split(path).1 == n)
  {
  }

  lemma SymlinkNamesFrom(s: State, target: string, linkPath: string, d: nat, n: Name)
    requires var t := ExecSymlink(s, target, linkPath).state.ns; d < |t.dirs| && n in t.dirs[d]
    ensures (d < |s.ns.dirs| && n in s.ns.dirs[d]) || ('/' in linkPath && Split(linkPath).1 == n)
  {
  }

  lemma RemoveNamesFrom(s: State, path: string, d: nat, n: Name)
    requires var t := ExecRemove(s, path).state.ns; d < |t.dirs| && n in t.dirs[d]
    ensures d < |s.ns.dirs| && n in s.ns.dirs[d]
  {
  }

  lemma RenameNamesFrom(s: State, oldPath: string, newPath: string, d: nat, n: Name)
    requires var t := ExecRename(s, oldPath, newPath).state.ns; d < |t.dirs| && n in t.dirs[d]
    ensures (d < |s.ns.dirs| && n in s.ns.dirs[d]) || ('/' in newPath && Split(newPath).1 == n)
  {
  }

  lemma HardlinkNamesFrom(s: State, oldPath: string, newPath: string, d: nat, n: Name)
    requires var t := ExecHardlink(s, oldPath, newPath).state.ns; d < |t.dirs| && n in t.dirs[d]
    ensures (d < |s.ns.dirs| && n in s.ns.dirs[d]) || ('/' in newPath && Split(newPath).1 == n)
  {
  }

  lemma SlashFreeStep(s: State, op: Operation)
    requires SlashFree(s.ns)
    ensures SlashFree(Exec(s, op).state.ns)
  {
    var t := Exec(s, op).state;
    forall d, n | 0 <= d < |t.ns.dirs| && n in t.ns.dirs[d]
      ensures '/' !in n
    {
      NamesFrom(s, op, d, n);
    }
  }

  /** In every run, whatever is called, no name holds a slash. */
  lemma {:induction false} RunSlashFree(s: State, calls: seq<Operation>)
    requires SlashFree(s.ns)
    ensures SlashFree(RunAll(s, calls).ns)
    decreases |calls|
  {
    if calls != [] {
      SlashFreeStep(s, calls[0]);
      RunSlashFree(Exec(s, calls[0]).state, calls[1..]);
    }
  }

  // ----- one child

  /** The path joined from a directory's and a name leads to the entry of that name. */
  ghost predicate Leads(ns: Namespace, p: string, d: nat, n: Name)
    requires d < |ns.dirs| && n in ns.dirs[d]
  {
    Resolve(ns, Join(p, n), false).Ok? && Resolve(ns, Join(p, n), false).value.node == ns.dirs[d][n]
  }

  /** It does so if and only if the name is not empty. */
  lemma ChildLeads(ns: Namespace, p: string, d: nat, n: Name)
    requires Canonical(p) && ResolveDir(ns, p).Ok? && ResolveDir(ns, p).value.1 == d
    requires d < |ns.dirs| && n in ns.dirs[d] && '/' !in n && RootFree(ns)
    ensures Leads(ns, p, d, n) <==> n != ""
  {
    if n != "" {
      JoinSplit(p, n);
      JoinResolves(ns, p, Join(p, n), n);
    } else if IsRoot(p) {
      assert Join(p, n) == "/";
      SegmentsOfRoot();
      ResolveIs(ns, 0, "/", false);
      assert HasEntry(ns, d, n, ns.dirs[d][n]);
    } else {
      EmptyInvalid(ns, p);
    }
  }

  lemma EmptyInvalid(ns: Namespace, p: string)
    requires IsValid(p) && !IsRoot(p)
    ensures !Resolve(ns, Join(p, ""), false).Ok?
  {
    var x := Join(p, "");
    assert x[|x| - 1] == '/' && |x| > 1;
    ResolveIs(ns, 0, x, false);
  }

  // ----- all that the search lists

  /** Everything listed in the first m rounds is where its path leads. */
  ghost predicate AllLead(ns: Namespace, m: nat) {
    forall segs, n :: Reached(ns, segs, m) && n in ns.dirs[Trail(ns, segs).value.dir] ==>
      Leads(ns, Show(segs), Trail(ns, segs).value.dir, n)
  }

  /** The names lead to a directory that is visited in the first m rounds. */
  ghost predicate Reached(ns: Namespace, segs: seq<Name>, m: nat) {
    Trail(ns, segs).Some? && Trail(ns, segs).value.level < m && Trail(ns, segs).value.dir < |ns.dirs|
  }

  ghost predicate NoEmptyNames(ns: Namespace, m: nat) {
    forall segs :: Reached(ns, segs, m) ==> "" !in ns.dirs[Trail(ns, segs).value.dir]
  }

  lemma ReachedBefore(ns: Namespace, segs: seq<Name>, m: nat)
    requires Reached(ns, segs, m) && segs != []
    ensures Reached(ns, segs[..|segs| - 1], m)
    ensures segs[|segs| - 1] in ns.dirs[Trail(ns, segs[..|segs| - 1]).value.dir]
  {
  }

  /** A sequence of names from visited directories is proper, or an empty name was seen on the way along proper ones. */
  lemma {:induction false} ProperOrEmpty(ns: Namespace, segs: seq<Name>, m: nat) returns (i: nat)
    requires SlashFree(ns) && Reached(ns, segs, m)
    ensures i <= |segs| && Reached(ns, segs[..i], m) && AllProper(segs[..i])
    ensures i < |segs| ==> "" in ns.dirs[Trail(ns, segs[..i]).value.dir]
    decreases |segs|
  {
    if segs == [] {
      i := 0;
    } else {
      var init, n := segs[..|segs| - 1], segs[|segs| - 1];
      ReachedBefore(ns, segs, m);
      i := ProperOrEmpty(ns, init, m);
      assert init[..i] == segs[..i];
      if i == |init| {
        assert init[..i] == init && segs == init + [n];
        if n != "" {
          i := |segs|;
          assert segs[..i] == segs;
        }
      }
    }
  }

  /** Where the names on the way are proper, what a path leads to is decided by the last name. */
  lemma ProperLeads(ns: Namespace, segs: seq<Name>, m: nat, n: Name)
    requires Ranged(ns) && RootFree(ns) && SlashFree(ns) && Reached(ns, segs, m) && AllProper(segs)
    requires n in ns.dirs[Trail(ns, segs).value.dir]
    ensures Leads(ns, Show(segs), Trail(ns, segs).value.dir, n) <==> n != ""
  {
    var files :| InRange(ns, files);
    ShowSegments(segs);
    TrailIsResolution(ns, Show(segs));
    ChildLeads(ns, Show(segs), Trail(ns, segs).value.dir, n);
  }

  /** Everything the search lists is where its path leads if and only if no directory that it visits has an empty name. */
  lemma AllLeadExactly(ns: Namespace, m: nat)
    requires Ranged(ns) && RootFree(ns) && SlashFree(ns)
    ensures AllLead(ns, m) <==> NoEmptyNames(ns, m)
  {
    if !NoEmptyNames(ns, m) {
      var segs :| Reached(ns, segs, m) && "" in ns.dirs[Trail(ns, segs).value.dir];
      var i := ProperOrEmpty(ns, segs, m);
      assert segs[..|segs|] == segs;
      ProperLeads(ns, segs[..i], m, "");
    } else {
      forall segs, n | Reached(ns, segs, m) && n in ns.dirs[Trail(ns, segs).value.dir]
        ensures Leads(ns, Show(segs), Trail(ns, segs).value.dir, n)
      {
        var i := ProperOrEmpty(ns, segs, m);
        assert segs[..|segs|] == segs;
        ProperLeads(ns, segs, m, n);
      }
    }
  }
}
