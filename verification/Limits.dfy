/**
 Inputs on which diffuzzer/src/abstract_fs/fs.rs does not do what one would hope: the reasons for the
 conditions elsewhere.
 */
module Limits {
  import opened Wrappers
  import opened Pathname
  import opened Nodes
  import opened Resolution
  import opened Forest
  import opened Contents
  import opened Operations
  import opened Renaming
  import opened Invariants
  import opened Visibility
  import opened Discipline
  import opened Trails
  import opened Descent
  import opened Workloads

  // ----- short paths

  lemma OneName(p: string, n: Name)
    requires Proper(n) && p == "/" + n
    ensures IsValid(p) && p != "/" && Split(p) == ("/", n) && Segments(p) == [n]
  {
    JoinSplit("/", n);
    SegmentsOfRoot();
  }

  lemma TwoNames(p: string, n: Name, m: Name)
    requires Proper(n) && Proper(m) && p == "/" + n + "/" + m
    ensures IsValid(p) && p != "/" && Split(p) == ("/" + n, m) && Segments(p) == [n, m]
  {
    OneName("/" + n, n);
    JoinSplit("/" + n, m);
  }

  lemma WalkOne(ns: Namespace, fuel: nat, n: Name)
    requires |ns.dirs| > 0
    ensures Walk(ns, fuel, [n]) == if n in ns.dirs[ROOT] then Ok(Found([ROOT], ns.dirs[ROOT][n])) else Err(NotFound)
  {
    assert [n][..0] == [];
    assert Walk(ns, fuel, []) == Ok(Found([], Dir(ROOT)));
    assert Enter(ns, fuel, Dir(ROOT)) == Ok(([], ROOT));
    assert [] + [] + [ROOT] == [ROOT];
  }

  lemma WalkTwo(ns: Namespace, fuel: nat, n: Name, m: Name)
    requires |ns.dirs| > 0 && n in ns.dirs[ROOT]
    ensures Walk(ns, fuel, [n, m]) ==
              match Enter(ns, fuel, ns.dirs[ROOT][n])
              case Ok((passed, d)) => Lookup(ns, [ROOT] + passed, d, m)
              case Err(e) => Err(e)
              case Stuck => Stuck
  {
    WalkOne(ns, fuel, n);
    assert [n, m][..1] == [n];
  }

  lemma RootResolves(ns: Namespace)
    ensures ResolveDir(ns, "/") == Ok(([], ROOT))
  {
    SegmentsOfRoot();
    ResolveIs(ns, 0, "/", true);
  }

  // ----- a symlink whose target goes through itself

  predicate Spiral(ns: Namespace) {
    |ns.dirs| > 0 && "a" in ns.dirs[ROOT] && ns.dirs[ROOT]["a"] == Symlink(0) && |ns.links| > 0 && ns.links[0] == "/a/b"
  }

  lemma {:induction false} SpiralStuck(ns: Namespace, fuel: nat, visited: set<nat>)
    requires Spiral(ns)
    ensures Follow(ns, fuel, "/a/b", true, visited) == Stuck
  {
    TwoNames("/a/b", "a", "b");
    WalkTwo(ns, fuel, "a", "b");
    if fuel > 0 { SpiralStuck(ns, fuel - 1, {}); }
  }

  lemma SpiralStuckAtEnd(ns: Namespace, fuel: nat)
    requires Spiral(ns)
    ensures Follow(ns, fuel, "/a", true, {}) == Stuck
  {
    OneName("/a", "a");
    WalkOne(ns, fuel, "a");
    if fuel > 0 { SpiralStuck(ns, fuel - 1, {} + {0}); }
  }

  /**
   The visited list is no protection where a symlink is in dirname position, since it starts afresh there:
   one symlink on a new filesystem is enough for a resolution that never ends.
   */
  lemma SpiralNeverEnds()
    ensures ExecSymlink(FRESH, "/a/b", "/a").status.Done?
    ensures var ns := ExecSymlink(FRESH, "/a/b", "/a").state.ns;
            Resolve(ns, "/a/b", true) == Stuck && Resolve(ns, "/a", true) == Stuck
  {
    OneName("/a", "a");
    RootResolves(FRESH.ns);
    assert VacantParent(FRESH.ns, "/a") == Ok(0);
    var ns := ExecSymlink(FRESH, "/a/b", "/a").state.ns;
    assert Spiral(ns);
    forall fuel: nat
      ensures Follow(ns, fuel, "/a/b", true, {}) == Stuck && Follow(ns, fuel, "/a", true, {}) == Stuck
    {
      SpiralStuck(ns, fuel, {});
      SpiralStuckAtEnd(ns, fuel);
    }
  }

  // ----- a rename that fails half way

  /** A directory "/a" with something named "b", and nothing named "c". */
  predicate EntryBelow(ns: Namespace) {
    && |ns.dirs| > 1 && "a" in ns.dirs[0] && ns.dirs[0]["a"] == Dir(1) && "c" !in ns.dirs[0]
    && "b" in ns.dirs[1] && ns.dirs[1]["b"] != Dir(ROOT)
  }

  lemma DoubledPath()
    ensures IsValid("/a//b") && Segments("/a//b") == ["a", "b"] && DoubledBeforeName("/a//b")
  {
    var p := "/a//b";
    assert Segments(p) == ["a"] + ["b"] by {
      OneName("/a", "a");
      OneName("/b", "b");
      assert p == "/a" + "/" + "/b";
      SegmentsConcat("/a", "/b");
    }
    assert p[4..] == "b";
    LastSlashAt(p, 3);
  }

  lemma DoubledResolves(ns: Namespace)
    requires EntryBelow(ns)
    ensures Resolve(ns, "/a//b", false) == Ok(Found([0, 1], ns.dirs[1]["b"]))
  {
    DoubledPath();
    WalkTwo(ns, 0, "a", "b");
    assert Enter(ns, 0, Dir(1)) == Ok(([], 1));
    assert [ROOT] + [] + [1] == [0, 1];
    ResolveIs(ns, 0, "/a//b", false);
  }

  lemma DoubledChecks(ns: Namespace)
    requires EntryBelow(ns)
    ensures RenameChecks(ns, "/a//b", "/c") == Ok((0, ns.dirs[1]["b"]))
  {
    DoubledResolves(ns);
    OneName("/c", "c");
    RootResolves(ns);
    WalkOne(ns, 0, "c");
    ResolveIs(ns, 0, "/c", true);
  }

  lemma HalfEffect(s: State)
    requires EntryBelow(s.ns) && RootFree(s.ns) && OneParent(s.ns)
    ensures ExecRename(s, "/a//b", "/c") == Effect(s.(ns := Insert(s.ns, 0, "c", s.ns.dirs[1]["b"])), Failed(InvalidPath))
  {
    DoubledChecks(s.ns);
    DoubledPath();
    OneName("/c", "c");
    RenameMoves(s, "/a//b", "/c");
  }

  /** The new entry is left behind, the error is InvalidPath, nothing is recorded, so replaying cannot rebuild it. */
  lemma RenameHalfDone(s: State)
    requires EntryBelow(s.ns) && Inv(s) && Replay(FRESH, s.recording).state == s
    ensures var e := ExecRename(s, "/a//b", "/c");
            && e == Effect(s.(ns := Insert(s.ns, 0, "c", s.ns.dirs[1]["b"])), Failed(InvalidPath))
            && Replay(FRESH, e.state.recording).state != e.state
  {
    HalfEffect(s);
    assert "c" in Insert(s.ns, 0, "c", s.ns.dirs[1]["b"]).dirs[0];
  }

  // ----- runs from a new filesystem

  const MAKE_A := MkDir("/a", [])
  const MAKE_B := Create("/a/b", [])
  const MAKE_DIR_B := MkDir("/a/b", [])
  const MAKE_S := MakeSymlink("/a", "/s")
  const RENAME_HALF := Rename("/a//b", "/c")
  const RENAME_BELOW := Rename("/a", "/c/x")

  const ONE_DIR := Namespace([map["a" := Dir(1)], map[]], [])

  lemma {:induction false} RunSnoc(s: State, calls: seq<Operation>, op: Operation)
    ensures RunAll(s, calls + [op]) == Exec(RunAll(s, calls), op).state
    decreases |calls|
  {
    if calls == [] {
      assert [op][1..] == [] && calls + [op] == [op];
    } else {
      assert (calls + [op])[1..] == calls[1..] + [op];
      RunSnoc(Exec(s, calls[0]).state, calls[1..], op);
    }
  }

  lemma RunTwo(s: State, a: Operation, b: Operation)
    ensures RunAll(s, [a, b]) == Exec(Exec(s, a).state, b).state
  {
    assert [a, b] == ([] + [a]) + [b];
    RunSnoc(s, [], a);
    RunSnoc(s, [] + [a], b);
  }

  lemma AfterMakeA()
    ensures Exec(FRESH, MAKE_A).state.ns == ONE_DIR
  {
    OneName("/a", "a");
    RootResolves(FRESH.ns);
    assert VacantParent(FRESH.ns, "/a") == Ok(0);
  }

  lemma OneDirResolves()
    ensures ResolveDir(ONE_DIR, "/a") == Ok(([ROOT], 1))
  {
    OneName("/a", "a");
    WalkOne(ONE_DIR, 0, "a");
    ResolveIs(ONE_DIR, 0, "/a", true);
  }

  lemma OneDirParent()
    ensures VacantParent(ONE_DIR, "/a/b") == Ok(1) && Split("/a/b").1 == "b"
  {
    TwoNames("/a/b", "a", "b");
    assert "/" + "a" == "/a";
    OneDirResolves();
  }

  lemma AfterMakeB(s: State)
    requires s.ns == ONE_DIR
    ensures EntryBelow(ExecCreate(s, "/a/b", []).state.ns)
  {
    OneDirParent();
  }

  lemma BothMade()
    ensures EntryBelow(RunAll(FRESH, [MAKE_A, MAKE_B]).ns)
  {
    var s := Exec(FRESH, MAKE_A).state;
    AfterMakeA();
    AfterMakeB(s);
    assert Exec(s, MAKE_B) == ExecCreate(s, "/a/b", []);
    RunTwo(FRESH, MAKE_A, MAKE_B);
  }

  lemma RunKeepsInv(calls: seq<Operation>)
    requires forall op :: op in calls ==> !op.Rename?
    ensures Inv(RunAll(FRESH, calls))
    ensures var s := RunAll(FRESH, calls); Replay(FRESH, s.recording) == Effect(s, Done)
  {
    FreshInv();
    PlainNeverHalfDone(FRESH, calls);
    HalfDoneDoubles(FRESH, calls);
    RunInv(FRESH, calls);
    ReplayRebuilds(calls);
  }

  /** Three calls on a new filesystem are enough for a state that its recording does not rebuild. */
  lemma ReplayNotRebuilt()
    ensures var t := RunAll(FRESH, [MAKE_A, MAKE_B] + [RENAME_HALF]);
            Replay(FRESH, t.recording).state != t
  {
    var s := RunAll(FRESH, [MAKE_A, MAKE_B]);
    RunKeepsInv([MAKE_A, MAKE_B]);
    BothMade();
    NotRebuilt(s);
    RunSnoc(FRESH, [MAKE_A, MAKE_B], RENAME_HALF);
  }

  lemma NotRebuilt(s: State)
    requires EntryBelow(s.ns) && Inv(s) && Replay(FRESH, s.recording).state == s
    ensures var t := Exec(s, RENAME_HALF).state; Replay(FRESH, t.recording).state != t
  {
    RenameHalfDone(s);
    ExecOfRename(s, RENAME_HALF);
  }

  // ----- a directory with two parents, and then below itself

  /** The directory "b" in "/a", and nothing else. */
  const TWO_DIRS := Namespace([map["a" := Dir(1)], map["b" := Dir(2)], map[]], [])

  lemma AfterMakeDirB(s: State)
    requires s.ns == ONE_DIR
    ensures ExecMkDir(s, "/a/b", []).state.ns == TWO_DIRS
  {
    OneDirParent();
  }

  lemma DirsMade()
    ensures RunAll(FRESH, [MAKE_A, MAKE_DIR_B]).ns == TWO_DIRS
  {
    var s := Exec(FRESH, MAKE_A).state;
    AfterMakeA();
    AfterMakeDirB(s);
    assert Exec(s, MAKE_DIR_B) == ExecMkDir(s, "/a/b", []);
    RunTwo(FRESH, MAKE_A, MAKE_DIR_B);
  }

  /** The same directory is "b" in "/a" and "c" in the root. */
  const SHARED_DIR := Namespace([map["a" := Dir(1), "c" := Dir(2)], map["b" := Dir(2)], map[]], [])

  lemma AfterHalf(s: State)
    requires s.ns == TWO_DIRS && Inv(s)
    ensures Exec(s, RENAME_HALF).state.ns == SHARED_DIR
  {
    HalfEffect(s);
    ExecOfRename(s, RENAME_HALF);
    assert Insert(TWO_DIRS, 0, "c", Dir(2)).dirs == SHARED_DIR.dirs;
  }

  /** After three calls the directories are no forest. */
  lemma ForestLost()
    ensures RunAll(FRESH, [MAKE_A, MAKE_DIR_B] + [RENAME_HALF]).ns == SHARED_DIR && !IsForest(SHARED_DIR)
  {
    var s := RunAll(FRESH, [MAKE_A, MAKE_DIR_B]);
    RunKeepsInv([MAKE_A, MAKE_DIR_B]);
    DirsMade();
    AfterHalf(s);
    RunSnoc(FRESH, [MAKE_A, MAKE_DIR_B], RENAME_HALF);
    assert HasEntry(SHARED_DIR, 0, "c", Dir(2)) && HasEntry(SHARED_DIR, 1, "b", Dir(2));
  }

  const CIRCLE := Namespace([map["c" := Dir(2)], map["b" := Dir(2)], map["x" := Dir(1)]], [])

  lemma SharedPaths()
    ensures Resolve(SHARED_DIR, "/a", false) == Ok(Found([ROOT], Dir(1)))
    ensures ResolveDir(SHARED_DIR, "/c") == Ok(([ROOT], 2))
  {
    OneName("/a", "a");
    OneName("/c", "c");
    WalkOne(SHARED_DIR, 0, "a");
    WalkOne(SHARED_DIR, 0, "c");
    ResolveIs(SHARED_DIR, 0, "/a", false);
    ResolveIs(SHARED_DIR, 0, "/c", true);
  }

  lemma BelowShared()
    ensures ResolveDir(SHARED_DIR, "/c/x") == Err(NotFound)
  {
    TwoNames("/c/x", "c", "x");
    WalkTwo(SHARED_DIR, 0, "c", "x");
    assert Enter(SHARED_DIR, 0, Dir(2)) == Ok(([], 2));
    ResolveIs(SHARED_DIR, 0, "/c/x", true);
  }

  lemma BelowChecks()
    ensures RenameChecks(SHARED_DIR, "/a", "/c/x") == Ok((2, Dir(1)))
  {
    SharedPaths();
    BelowShared();
    TwoNames("/c/x", "c", "x");
    assert "/" + "c" == "/c";
  }

  lemma AfterBelow(s: State)
    requires s.ns == SHARED_DIR
    ensures ExecRename(s, "/a", "/c/x").status.Done? && ExecRename(s, "/a", "/c/x").state.ns == CIRCLE
  {
    BelowChecks();
    TwoNames("/c/x", "c", "x");
    OneName("/a", "a");
    RootResolves(Insert(SHARED_DIR, 2, "x", Dir(1)));
    CircleIs();
  }

  lemma CircleIs()
    ensures Delete(Insert(SHARED_DIR, 2, "x", Dir(1)), 0, "a") == CIRCLE
  {
    assert "a"[0] != "c"[0];
    assert SHARED_DIR.dirs[0] - {"a"} == CIRCLE.dirs[0];
    assert SHARED_DIR.dirs[2]["x" := Dir(1)] == CIRCLE.dirs[2];
    assert Delete(Insert(SHARED_DIR, 2, "x", Dir(1)), 0, "a").dirs == CIRCLE.dirs;
  }

  /**
   A fourth call, and directories are below themselves: the check of rename looks for ancestors on the way to
   the new parent, and there are others now.
   */
  lemma CircleMade()
    ensures RunAll(FRESH, [MAKE_A, MAKE_DIR_B] + [RENAME_HALF] + [RENAME_BELOW]).ns == CIRCLE
    ensures ReachIn(CIRCLE, 1, 1, 2)
  {
    ForestLost();
    var s := RunAll(FRESH, [MAKE_A, MAKE_DIR_B] + [RENAME_HALF]);
    AfterBelow(s);
    ExecOfRename(s, RENAME_BELOW);
    RunSnoc(FRESH, [MAKE_A, MAKE_DIR_B] + [RENAME_HALF], RENAME_BELOW);
    assert HasEntry(CIRCLE, 1, "b", Dir(2)) && HasEntry(CIRCLE, 2, "x", Dir(1));
    assert Edge(CIRCLE, 1, 2) && Edge(CIRCLE, 2, 1);
    assert ReachIn(CIRCLE, 1, 1, 0);
    assert ReachIn(CIRCLE, 1, 2, 1);
  }

  /** There the search for alive nodes finds directories at paths of every length, and without a visited set never ends. */
  lemma {:induction false} CircleEndless(n: nat) returns (segs: seq<Name>)
    ensures |segs| == n + 1 && AllProper(segs)
    ensures Trail(CIRCLE, segs) == Some(Spot(if n % 2 == 0 then 2 else 1, 0))
  {
    if n == 0 {
      segs := ["c"];
      assert ["c"][..0] == [];
      assert Trail(CIRCLE, []) == Some(Spot(ROOT, 0));
    } else {
      var init := CircleEndless(n - 1);
      segs := init + [if n % 2 == 0 then "b" else "x"];
      assert segs[..|segs| - 1] == init;
    }
  }

  // ----- empty names

  /**
   Where all names are proper, a successful call keeps them so if and only if the path it adds does not end
   with a slash. The search for alive nodes, which joins names to paths, is sound only among proper names.
   */
  lemma NamesStayProper(s: State, op: Operation)
    requires |s.ns.dirs| > 0 && RootFree(s.ns) && OneParent(s.ns) && WellNamed(s.ns) && Exec(s, op).status.Done?
    ensures WellNamed(Exec(s, op).state.ns) <==> !(NewPath(op).Some? && EndsWithSlash(NewPath(op).value))
  {
    var t := Exec(s, op).state;
    if NewPath(op).Some? && EndsWithSlash(NewPath(op).value) {
      var d, node := AddedEntry(s, op);
      assert "" in t.ns.dirs[d] && !Proper("") && !ProperDir(t.ns, d);
    } else {
      forall d: nat, n | d < |t.ns.dirs| && n in t.ns.dirs[d]
        ensures Proper(n)
      {
        EntriesFrom(s, op, d, n, t.ns.dirs[d][n]);
        assert d < |s.ns.dirs| ==> ProperDir(s.ns, d);
      }
      assert forall d: nat :: d < |t.ns.dirs| ==> ProperDir(t.ns, d);
    }
  }

  /** Among other names it is not: here it lists the new directory at a path that leads to the root. */
  lemma EmptyNameMisleads()
    ensures ExecMkDir(FRESH, "/", []).status.Done?
    ensures var ns := ExecMkDir(FRESH, "/", []).state.ns;
            && |ns.dirs| == 2 && "" in ns.dirs[ROOT] && ns.dirs[ROOT][""] == Dir(1)
            && (1, "/") in Yield(ns, ROOT, "/", "").dirs && ResolveDir(ns, "/") == Ok(([], ROOT))
  {
    RootResolves(FRESH.ns);
    LastSlashAt("/", 0);
    assert Split("/") == ("/", "");
    assert VacantParent(FRESH.ns, "/") == Ok(ROOT);
    var ns := ExecMkDir(FRESH, "/", []).state.ns;
    RootResolves(ns);
    assert Join("/", "") == "/";
  }

  /** The entry that a call adds, if no empty name hides it. */
  lemma AddedEntry(s: State, op: Operation) returns (d: nat, node: Node)
    requires |s.ns.dirs| > 0 && RootFree(s.ns) && OneParent(s.ns) && WellNamed(s.ns) && Exec(s, op).status.Done?
    requires NewPath(op).Some? && EndsWithSlash(NewPath(op).value)
    ensures HasEntry(Exec(s, op).state.ns, d, "", node)
  {
    if op.Rename? {
      d, node := RenamedToEmpty(s, op.oldPath, op.newPath);
      ExecOfRename(s, op);
    } else {
      CreatedEntry(s, op);
      d, node := ParentOf(s.ns, NewPath(op).value).value, NewNode(s, op);
      assert Split(NewPath(op).value).1 == "";
    }
  }

  lemma RenamedToEmpty(s: State, oldPath: string, newPath: string) returns (d: nat, node: Node)
    requires |s.ns.dirs| > 0 && RootFree(s.ns) && OneParent(s.ns) && WellNamed(s.ns)
    requires ExecRename(s, oldPath, newPath).status.Done? && EndsWithSlash(newPath)
    ensures HasEntry(ExecRename(s, oldPath, newPath).state.ns, d, "", node)
  {
    RenameAtomic(s, oldPath, newPath);
    RenameMoves(s, oldPath, newPath);
    d, node := RenameChecks(s.ns, oldPath, newPath).value.0, RenameChecks(s.ns, oldPath, newPath).value.1;
    var q := ParentOf(s.ns, oldPath).value;
    assert ProperDir(s.ns, q);
    assert Split(oldPath).1 in s.ns.dirs[q] && Proper(Split(oldPath).1);
    assert HasEntry(Delete(Insert(s.ns, d, "", node), q, Split(oldPath).1), d, "", node);
  }

  // ----- a symlink that is moved through itself

  /** A directory "/a" with nothing in it, and a symlink "/s" to it. */
  predicate LinkBeside(ns: Namespace) {
    && |ns.dirs| > 1 && "a" in ns.dirs[0] && ns.dirs[0]["a"] == Dir(1) && ns.dirs[1] == map[]
    && "s" in ns.dirs[0] && ns.dirs[0]["s"] == Symlink(0) && |ns.links| > 0 && ns.links[0] == "/a"
  }

  lemma LinkEntered(ns: Namespace)
    requires LinkBeside(ns)
    ensures Enter(ns, 1, Symlink(0)) == Ok(([0], 1))
  {
    OneName("/a", "a");
    WalkOne(ns, 0, "a");
  }

  lemma LinkFollowed(ns: Namespace)
    requires LinkBeside(ns)
    ensures Resolve(ns, "/s", false) == Ok(Found([0], Symlink(0)))
    ensures ResolveDir(ns, "/s") == Ok(([0, 0], 1))
  {
    OneName("/s", "s");
    WalkOne(ns, 0, "s");
    ResolveIs(ns, 0, "/s", false);
    WalkOne(ns, 1, "s");
    LinkEntered(ns);
    FinishIsEnter(ns, 1, Found([0], Symlink(0)));
    assert [0] + [0] == [0, 0];
    ResolveIs(ns, 1, "/s", true);
  }

  lemma LinkChecks(ns: Namespace)
    requires LinkBeside(ns)
    ensures RenameChecks(ns, "/s", "/s/x") == Ok((1, Symlink(0)))
  {
    LinkFollowed(ns);
    TwoNames("/s/x", "s", "x");
    LinkEntered(ns);
    WalkTwo(ns, 1, "s", "x");
    ResolveIs(ns, 1, "/s/x", true);
    assert "/" + "s" == "/s";
  }

  /** The rename succeeds, and then the new path leads nowhere. */
  lemma SymlinkMovedAway(s: State)
    requires LinkBeside(s.ns) && Inv(s)
    ensures ExecRename(s, "/s", "/s/x").status.Done?
    ensures !Resolve(ExecRename(s, "/s", "/s/x").state.ns, "/s/x", false).Ok?
  {
    LinkChecks(s.ns);
    LastSlashAt("/s", 0);
    RenameAtomic(s, "/s", "/s/x");
    RenamedIsFound(s, "/s", "/s/x");
    GoneBelow(ExecRename(s, "/s", "/s/x").state.ns);
  }

  lemma AfterMakeS(s: State)
    requires s.ns == ONE_DIR
    ensures LinkBeside(ExecSymlink(s, "/a", "/s").state.ns)
  {
    OneName("/s", "s");
    RootResolves(ONE_DIR);
    assert VacantParent(ONE_DIR, "/s") == Ok(0);
  }

  lemma LinkMade()
    ensures LinkBeside(RunAll(FRESH, [MAKE_A, MAKE_S]).ns)
  {
    var s := Exec(FRESH, MAKE_A).state;
    AfterMakeA();
    AfterMakeS(s);
    assert Exec(s, MAKE_S) == ExecSymlink(s, "/a", "/s");
    RunTwo(FRESH, MAKE_A, MAKE_S);
  }

  /** Three calls on a new filesystem, all successful, and the symlink is found under neither path. */
  lemma SymlinkLost()
    ensures var s := RunAll(FRESH, [MAKE_A, MAKE_S]);
            var t := RunAll(FRESH, [MAKE_A, MAKE_S] + [Rename("/s", "/s/x")]);
            && Exec(s, Rename("/s", "/s/x")) == Effect(t, Done)
            && !Resolve(t.ns, "/s", false).Ok? && !Resolve(t.ns, "/s/x", false).Ok?
  {
    var s := RunAll(FRESH, [MAKE_A, MAKE_S]);
    RunKeepsInv([MAKE_A, MAKE_S]);
    LinkMade();
    SymlinkMovedAway(s);
    RenamedIsFound(s, "/s", "/s/x");
    ExecOfRename(s, Rename("/s", "/s/x"));
    RunSnoc(FRESH, [MAKE_A, MAKE_S], Rename("/s", "/s/x"));
  }

  lemma GoneBelow(ns: Namespace)
    requires !Resolve(ns, "/s", false).Ok?
    ensures !Resolve(ns, "/s/x", false).Ok?
  {
    TwoNames("/s/x", "s", "x");
    OneName("/s", "s");
    assert "/" + "s" == "/s";
    JoinResolves(ns, "/s", "/s/x", "x");
    if ResolveDir(ns, "/s").Ok? {
      var fuel := BudgetOf(ns, "/s", true);
      ResolveIs(ns, fuel, "/s", false);
    }
  }

  // ----- an entry renamed to itself

  lemma OneDirChecks()
    ensures RenameChecks(ONE_DIR, "/a", "/a") == Ok((0, Dir(1)))
  {
    OneName("/a", "a");
    WalkOne(ONE_DIR, 0, "a");
    ResolveIs(ONE_DIR, 0, "/a", true);
    ResolveIs(ONE_DIR, 0, "/a", false);
    RootResolves(ONE_DIR);
  }

  lemma AfterSelf(s: State)
    requires s.ns == ONE_DIR
    ensures ExecRename(s, "/a", "/a").status.Done? && ExecRename(s, "/a", "/a").state.ns.dirs == [map[], map[]]
  {
    OneDirChecks();
    OneName("/a", "a");
    var inserted := Insert(ONE_DIR, 0, "a", Dir(1));
    RootResolves(inserted);
    assert ONE_DIR.dirs[0]["a" := Dir(1)] - {"a"} == map[];
    assert Delete(inserted, 0, "a").dirs == [map[], map[]];
  }

  /** Two successful calls on a new filesystem, and the directory is gone. */
  lemma SelfRenameRemoves()
    ensures var s := RunAll(FRESH, [MAKE_A]);
            var t := RunAll(FRESH, [MAKE_A, Rename("/a", "/a")]);
            && Exec(s, Rename("/a", "/a")) == Effect(t, Done)
            && s.ns == ONE_DIR && t.ns.dirs == [map[], map[]] && !Resolve(t.ns, "/a", false).Ok?
  {
    var s := Exec(FRESH, MAKE_A).state;
    assert [MAKE_A] == [] + [MAKE_A];
    RunSnoc(FRESH, [], MAKE_A);
    RunTwo(FRESH, MAKE_A, Rename("/a", "/a"));
    AfterMakeA();
    AfterSelf(s);
    ExecOfRename(s, Rename("/a", "/a"));
    var t := Exec(s, Rename("/a", "/a")).state;
    OneName("/a", "a");
    WalkOne(t.ns, 0, "a");
    ResolveIs(t.ns, 0, "/a", false);
  }

  // ----- a use that comes to belong to another Open

  const REBOUND: seq<Operation> :=
    [Create("/a", []), Create("/b", [])] + [Open("/a", 0)] + [Open("/b", 1)] + [Write(0, 0, 1)]
  const REBOUND_CUT: seq<Operation> := [Create("/a", []), Create("/b", [])] + [Open("/b", 1)] + [Write(0, 0, 1)]

  predicate TwoFiles(s: State) {
    s.ns == Namespace([map["a" := File(0), "b" := File(1)]], []) && s.files == [FileRecord(None, []), FileRecord(None, [])] && s.descriptors == []
  }

  lemma MadeInRoot(s: State, path: string, n: Name)
    requires |s.ns.dirs| > 0 && Proper(n) && path == "/" + n && n !in s.ns.dirs[ROOT]
    ensures ExecCreate(s, path, []).status.Done?
    ensures var t := ExecCreate(s, path, []).state;
            t.ns == Insert(s.ns, ROOT, n, File(|s.files|)) && t.files == s.files + [FileRecord(None, [])] && t.descriptors == s.descriptors
  {
    OneName(path, n);
    RootResolves(s.ns);
  }

  lemma TwoFilesMade()
    ensures var e := Replay(FRESH, [Create("/a", []), Create("/b", [])]); e.status.Done? && TwoFiles(e.state)
  {
    var a, b := Create("/a", []), Create("/b", []);
    assert "a"[0] != "b"[0];
    MadeInRoot(FRESH, "/a", "a");
    var s := ExecCreate(FRESH, "/a", []).state;
    MadeInRoot(s, "/b", "b");
    var t := ExecCreate(s, "/b", []).state;
    assert [a, b][1..] == [b] && [b][1..] == [];
    assert Exec(FRESH, a) == Effect(s, Done) && Exec(s, b) == Effect(t, Done);
    assert Replay(s, [b]) == Replay(t, []);
    assert map["a" := File(0)]["b" := File(1)] == map["a" := File(0), "b" := File(1)];
  }

  lemma OpensFile(s: State, path: string, n: Name, f: nat)
    requires TwoFiles(s) && n in s.ns.dirs[0] && s.ns.dirs[0][n] == File(f) && Proper(n) && path == "/" + n && f < 2
    ensures var e := ExecOpen(s, path);
            e.status.Done? && e.state.descriptors == [Descriptor(f, 0)] && e.state.files == s.files[f := FileRecord(Some(0), [])] && e.state.ns == s.ns
  {
    OneName(path, n);
    WalkOne(s.ns, 0, n);
    ResolveIs(s.ns, 0, path, true);
  }

  /** Without the Open of "/a" the workload still replays, and what it wrote to the first file it now writes to the second. */
  lemma ReboundWrites()
    ensures REBOUND_CUT == Without(REBOUND, 2)
    ensures var e := Replay(FRESH, REBOUND_CUT);
            e.status.Done? && e.state.descriptors == [Descriptor(1, 1)]
  {
    TwoFilesMade();
    var two := [Create("/a", []), Create("/b", [])];
    var s := Replay(FRESH, two).state;
    OpensFile(s, "/b", "b", 1);
    var t := ExecOpen(s, "/b").state;
    assert Exec(s, Open("/b", 1)) == Effect(t, Done) by { assert Exec(s, Open("/b", 1)) == ExecOpen(s, "/b"); }
    ReplaySnoc(FRESH, two, Open("/b", 1));
    ReplaySnoc(FRESH, two + [Open("/b", 1)], Write(0, 0, 1));
    WritesFirst(t, 1);
  }

  lemma WritesFirst(t: State, f: nat)
    requires |t.files| == 2 && f < 2 && t.descriptors == [Descriptor(f, 0)] && t.files[f] == FileRecord(Some(0), [])
    ensures Exec(t, Write(0, 0, 1)).status.Done? && Exec(t, Write(0, 0, 1)).state.descriptors == [Descriptor(f, 1)]
  {
    WriteIsOverwrite([], 0, 0, 1);
    assert Exec(t, Write(0, 0, 1)) == ExecWrite(t, 0, 0, 1);
  }

  /** With it, the first file. */
  lemma ReboundBefore()
    ensures var e := Replay(FRESH, REBOUND);
            e.status.Done? && e.state.descriptors == [Descriptor(0, 1), Descriptor(1, 0)]
  {
    TwoFilesMade();
    var two := [Create("/a", []), Create("/b", [])];
    var s := Replay(FRESH, two).state;
    var t, u := OpenBoth(s);
    ReplaySnoc(FRESH, two, Open("/a", 0));
    ReplaySnoc(FRESH, two + [Open("/a", 0)], Open("/b", 1));
    ReplaySnoc(FRESH, two + [Open("/a", 0)] + [Open("/b", 1)], Write(0, 0, 1));
    WritesOfTwo(u);
  }

  lemma OpenBoth(s: State) returns (t: State, u: State)
    requires TwoFiles(s)
    ensures Exec(s, Open("/a", 0)) == Effect(t, Done) && Exec(t, Open("/b", 1)) == Effect(u, Done)
    ensures u.descriptors == [Descriptor(0, 0), Descriptor(1, 0)] && u.files == [FileRecord(Some(0), []), FileRecord(Some(1), [])]
  {
    OpensFile(s, "/a", "a", 0);
    t := ExecOpen(s, "/a").state;
    assert Exec(s, Open("/a", 0)) == ExecOpen(s, "/a");
    OpensSecond(t);
    u := ExecOpen(t, "/b").state;
    assert Exec(t, Open("/b", 1)) == ExecOpen(t, "/b");
  }

  lemma WritesOfTwo(u: State)
    requires u.descriptors == [Descriptor(0, 0), Descriptor(1, 0)] && u.files == [FileRecord(Some(0), []), FileRecord(Some(1), [])]
    ensures Exec(u, Write(0, 0, 1)).status.Done?
    ensures Exec(u, Write(0, 0, 1)).state.descriptors == [Descriptor(0, 1), Descriptor(1, 0)]
  {
    WriteIsOverwrite([], 0, 0, 1);
    assert Exec(u, Write(0, 0, 1)) == ExecWrite(u, 0, 0, 1);
  }

  lemma OpensSecond(t: State)
    requires t.ns == Namespace([map["a" := File(0), "b" := File(1)]], [])
    requires t.files == [FileRecord(Some(0), []), FileRecord(None, [])] && t.descriptors == [Descriptor(0, 0)]
    ensures var e := ExecOpen(t, "/b");
            e.status.Done? && e.state.descriptors == [Descriptor(0, 0), Descriptor(1, 0)]
            && e.state.files == [FileRecord(Some(0), []), FileRecord(Some(1), [])]
  {
    OneName("/b", "b");
    WalkOne(t.ns, 0, "b");
    ResolveIs(t.ns, 0, "/b", true);
  }

  // ----- the search without a forest

  /** Two parents alone do not make the search endless. */
  lemma SharedEnds()
    ensures !IsForest(SHARED_DIR) && Bounded(SHARED_DIR, 0) && Bounded(SHARED_DIR, 1)
  {
    assert HasEntry(SHARED_DIR, 0, "c", Dir(2)) && HasEntry(SHARED_DIR, 1, "b", Dir(2));
    assert Depths(SHARED_DIR, [0, 1, 2]);
    AcyclicBounded(SHARED_DIR, 0);
  }

  /** A circle does. */
  lemma CircleUnbounded()
    ensures Circular(CIRCLE, ROOT) && !Bounded(CIRCLE, 0)
  {
    CircleReached();
    SearchEnds(CIRCLE, 0);
  }

  lemma CircleReached()
    ensures Circular(CIRCLE, ROOT)
  {
    var segs := ["c"] + ["x"];
    assert ["c"][..0] == [] && segs[..1] == ["c"];
    assert Descend(CIRCLE, ROOT, ["c"]) == Some(2);
    assert Descend(CIRCLE, ROOT, segs) == Some(1);
    DescendReaches(CIRCLE, ROOT, segs);
    var loop := ["b"] + ["x"];
    assert ["b"][..0] == [] && loop[..1] == ["b"];
    assert Descend(CIRCLE, 1, ["b"]) == Some(2);
    assert Descend(CIRCLE, 1, loop) == Some(1);
    DescendReaches(CIRCLE, 1, loop);
    assert Reach(CIRCLE, ROOT, 1);
  }
}
