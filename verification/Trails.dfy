/**
 Which paths count as alive (diffuzzer/src/abstract_fs/fs.rs, alive and alive_follow_once): a path is
 followed name by name from the root, and its level is the number of symlinks to directories crossed.
 `Trail` is independent of path resolution; `TrailIsResolution` says that the two agree.
 */
module Trails {
  import opened Wrappers
  import opened Pathname
  import opened Nodes
  import opened Resolution

  datatype Spot = Spot(dir: nat, level: nat)

  /** One name further. */
  ghost function Onward(ns: Namespace, t: Spot, n: Name): Option<Spot> {
    if t.dir >= |ns.dirs| || n !in ns.dirs[t.dir] then None
    else
      match ns.dirs[t.dir][n]
      case File(_) => None
      case Dir(c) => Some(Spot(c, t.level))
      case Symlink(i) =>
        if i < |ns.links| && ResolveDir(ns, ns.links[i]).Ok?
        then Some(Spot(ResolveDir(ns, ns.links[i]).value.1, t.level + 1))
        else None
  }

  ghost function Trail(ns: Namespace, segs: seq<Name>): Option<Spot> {
    if segs == [] then Some(Spot(ROOT, 0))
    else
      var t := Trail(ns, segs[..|segs| - 1]);
      if t.None? then None else Onward(ns, t.value, segs[|segs| - 1])
  }

  /** The directory at a path, and its level. */
  ghost function At(ns: Namespace, p: string): Option<Spot> {
    Trail(ns, Segments(p))
  }

  /** The spot of the directory that holds the last name. */
  ghost function Above(ns: Namespace, p: string): Option<Spot>
    requires '/' in p
  {
    At(ns, Split(p).0)
  }

  /** A canonical path below the root: what its split looks like. */
  lemma BelowRoot(p: string)
    requires Canonical(p) && !IsRoot(p)
    ensures '/' in p && Canonical(Split(p).0) && Proper(Split(p).1)
    ensures Join(Split(p).0, Split(p).1) == p
    ensures Segments(p) == Segments(Split(p).0) + [Split(p).1]
  {
    assert p[0] == '/';
    SplitJoin(p);
    SplitSegments(p);
  }

  lemma AtRoot(ns: Namespace)
    ensures At(ns, "/") == Some(Spot(ROOT, 0))
  {
    SegmentsOfRoot();
  }

  lemma AtJoin(ns: Namespace, p: string, n: Name)
    requires Canonical(p) && Proper(n)
    ensures Canonical(Join(p, n)) && !IsRoot(Join(p, n)) && '/' in Join(p, n) && Split(Join(p, n)) == (p, n)
    ensures At(ns, Join(p, n)) == if At(ns, p).None? then None else Onward(ns, At(ns, p).value, n)
  {
    JoinSplit(p, n);
    JoinCanonical(p, n);
    assert (Segments(p) + [n])[..|Segments(p)|] == Segments(p);
  }

  lemma AtSplit(ns: Namespace, p: string)
    requires Canonical(p) && !IsRoot(p)
    ensures '/' in p
    ensures At(ns, p) == if Above(ns, p).None? then None else Onward(ns, Above(ns, p).value, Split(p).1)
  {
    BelowRoot(p);
    AtJoin(ns, Split(p).0, Split(p).1);
  }

  // ----- trails are resolution

  /** A canonical path has a trail to a directory exactly when it resolves to that directory. */
  lemma {:induction false} TrailIsResolution(ns: Namespace, p: string)
    requires Canonical(p)
    requires forall d: nat, n, i: nat :: HasEntry(ns, d, n, Symlink(i)) ==> i < |ns.links|
    ensures At(ns, p).Some? <==> ResolveDir(ns, p).Ok?
    ensures At(ns, p).Some? ==> At(ns, p).value.dir == ResolveDir(ns, p).value.1
    decreases |p|
  {
    if IsRoot(p) {
      AtRoot(ns);
      SegmentsOfRoot();
      ResolveIs(ns, 0, p, true);
    } else {
      BelowRoot(p);
      var (q, n) := Split(p);
      TrailIsResolution(ns, q);
      AtSplit(ns, p);
      EntryResolves(ns, p);
      if Resolve(ns, p, false).Ok? {
        var f := Resolve(ns, p, false).value;
        if f.node.Symlink? {
          assert HasEntry(ns, ResolveDir(ns, q).value.1, n, Symlink(f.node.link));
          LinkResolves(ns, p, f.passed, f.node.link);
        } else {
          PlainResolves(ns, p);
        }
      } else {
        FollowedIsFound(ns, p);
      }
    }
  }

  /** What resolves followed also resolves unfollowed. */
  lemma FollowedIsFound(ns: Namespace, p: string)
    ensures Resolve(ns, p, true).Ok? ==> Resolve(ns, p, false).Ok?
  {
    if Resolve(ns, p, true).Ok? {
      var fuel := BudgetOf(ns, p, true);
      ResolveIs(ns, fuel, p, false);
    }
  }

  /** Unfollowed, a path resolves to the entry of its last name in the directory that its parent resolves to. */
  lemma EntryResolves(ns: Namespace, p: string)
    requires Canonical(p) && !IsRoot(p)
    ensures '/' in p
    ensures Resolve(ns, p, false).Ok? <==>
              ResolveDir(ns, Split(p).0).Ok? && var d := ResolveDir(ns, Split(p).0).value.1; d < |ns.dirs| && Split(p).1 in ns.dirs[d]
    ensures Resolve(ns, p, false).Ok? ==>
              Resolve(ns, p, false).value.node == ns.dirs[ResolveDir(ns, Split(p).0).value.1][Split(p).1]
  {
    BelowRoot(p);
    JoinResolves(ns, Split(p).0, p, Split(p).1);
  }

  // ----- what a search lists

  /** An index and the path it was found under. */
  type Item = (nat, string)

  /** The lists a search adds to; `subs` and `follow` are the directories to search next, in this round and in the next. */
  datatype Visit = Visit(
    dirs: seq<Item>,
    files: seq<Item>,
    fileLinks: seq<Item>,
    links: seq<Item>,
    subs: seq<Item>,
    follow: seq<Item>)

  datatype Kind = Dirs | Files | FileLinks | Links | Subs | Follows

  function Pick(v: Visit, kind: Kind): seq<Item> {
    match kind
    case Dirs => v.dirs
    case Files => v.files
    case FileLinks => v.fileLinks
    case Links => v.links
    case Subs => v.subs
    case Follows => v.follow
  }

  const NOTHING := Visit([], [], [], [], [], [])

  function Plus(v: Visit, w: Visit): Visit {
    Visit(v.dirs + w.dirs, v.files + w.files, v.fileLinks + w.fileLinks, v.links + w.links, v.subs + w.subs, v.follow + w.follow)
  }

  /** What one child of the directory d at path p adds. */
  ghost function Yield(ns: Namespace, d: nat, p: string, n: Name): Visit
    requires d < |ns.dirs| && n in ns.dirs[d]
  {
    var x := Join(p, n);
    match ns.dirs[d][n]
    case Dir(c) => NOTHING.(dirs := [(c, x)], subs := [(c, x)])
    case File(f) => NOTHING.(files := [(f, x)])
    case Symlink(i) =>
      var v := NOTHING.(links := [(i, x)]);
      if i >= |ns.links| || !Resolve(ns, ns.links[i], true).Ok? then v
      else
        match Resolve(ns, ns.links[i], true).value.node
        case File(f) => v.(fileLinks := [(f, x)])
        case Dir(c) => v.(dirs := [(c, x)], follow := [(c, x)])
        case Symlink(_) => v
  }

  ghost function Gather(ns: Namespace, d: nat, p: string, names: seq<Name>): Visit
    requires d < |ns.dirs| && forall n :: n in names ==> n in ns.dirs[d]
  {
    if names == [] then NOTHING
    else Plus(Gather(ns, d, p, names[..|names| - 1]), Yield(ns, d, p, names[|names| - 1]))
  }

  /** A path that names an existing entry of a directory on a trail. */
  ghost predicate Exists(ns: Namespace, x: string) {
    && Canonical(x) && !IsRoot(x) && '/' in x
    && Above(ns, x).Some?
    && Above(ns, x).value.dir < |ns.dirs|
    && Split(x).1 in ns.dirs[Above(ns, x).value.dir]
  }

  ghost function NodeAt(ns: Namespace, x: string): Node
    requires Exists(ns, x)
  {
    ns.dirs[Above(ns, x).value.dir][Split(x).1]
  }

  /** What a search adds for one path. */
  ghost function YieldAt(ns: Namespace, x: string): Visit
    requires Exists(ns, x)
  {
    Yield(ns, Above(ns, x).value.dir, Split(x).0, Split(x).1)
  }

  predicate Distinct(items: seq<Item>) {
    forall i, j :: 0 <= i < j < |items| ==> items[i].1 != items[j].1
  }

  ghost predicate WellNamed(ns: Namespace) {
    forall d: nat :: d < |ns.dirs| ==> ProperDir(ns, d)
  }

  /** The names in a directory are proper. */
  ghost predicate ProperDir(ns: Namespace, d: nat) {
    d < |ns.dirs| && forall n :: n in ns.dirs[d] ==> Proper(n)
  }

  lemma YieldPaths(ns: Namespace, d: nat, p: string, n: Name, kind: Kind)
    requires d < |ns.dirs| && n in ns.dirs[d]
    ensures var l := Pick(Yield(ns, d, p, n), kind); |l| <= 1 && forall e :: e in l ==> e.1 == Join(p, n)
  {
  }

  lemma PickPlus(v: Visit, w: Visit, kind: Kind)
    ensures Pick(Plus(v, w), kind) == Pick(v, kind) + Pick(w, kind)
  {
  }

  /** One child, seen as a path. */
  lemma YieldMember(ns: Namespace, p: string, t: Spot, n: Name, kind: Kind, e: Item)
    requires Canonical(p) && At(ns, p) == Some(t) && ProperDir(ns, t.dir) && n in ns.dirs[t.dir]
    ensures e in Pick(Yield(ns, t.dir, p, n), kind) <==>
              Exists(ns, e.1) && Split(e.1) == (p, n) && e in Pick(YieldAt(ns, e.1), kind)
  {
    YieldPaths(ns, t.dir, p, n, kind);
    var x := Join(p, n);
    JoinYields(ns, p, t, n);
    if Exists(ns, e.1) && Split(e.1) == (p, n) {
      assert e.1 == x by { BelowRoot(e.1); }
    }
  }

  lemma JoinYields(ns: Namespace, p: string, t: Spot, n: Name)
    requires Canonical(p) && At(ns, p) == Some(t) && ProperDir(ns, t.dir) && n in ns.dirs[t.dir]
    ensures var x := Join(p, n);
            Exists(ns, x) && Split(x) == (p, n) && YieldAt(ns, x) == Yield(ns, t.dir, p, n)
  {
    AtJoin(ns, p, n);
  }

  /** The children gathered from one directory, seen as paths. */
  lemma {:induction false} GatherMember(ns: Namespace, p: string, t: Spot, names: seq<Name>, kind: Kind, e: Item)
    requires Canonical(p) && At(ns, p) == Some(t) && ProperDir(ns, t.dir)
    requires forall n :: n in names ==> n in ns.dirs[t.dir]
    ensures e in Pick(Gather(ns, t.dir, p, names), kind) <==>
              Exists(ns, e.1) && Split(e.1).0 == p && Split(e.1).1 in names && e in Pick(YieldAt(ns, e.1), kind)
    decreases |names|
  {
    if names != [] {
      var init, n := names[..|names| - 1], names[|names| - 1];
      assert names == init + [n];
      assert n in names;
      GatherMember(ns, p, t, init, kind, e);
      PickPlus(Gather(ns, t.dir, p, init), Yield(ns, t.dir, p, n), kind);
      YieldMember(ns, p, t, n, kind, e);
    } else {
      assert Pick(NOTHING, kind) == [];
    }
  }

  lemma {:induction false} GatherDistinct(ns: Namespace, p: string, t: Spot, names: seq<Name>, kind: Kind)
    requires Canonical(p) && At(ns, p) == Some(t) && ProperDir(ns, t.dir)
    requires forall n :: n in names ==> n in ns.dirs[t.dir]
    requires forall i, j :: 0 <= i < j < |names| ==> names[i] != names[j]
    ensures Distinct(Pick(Gather(ns, t.dir, p, names), kind))
    decreases |names|
  {
    if names != [] {
      var init, n := names[..|names| - 1], names[|names| - 1];
      assert names == init + [n];
      GatherDistinct(ns, p, t, init, kind);
      var a, b := Pick(Gather(ns, t.dir, p, init), kind), Pick(Yield(ns, t.dir, p, n), kind);
      PickPlus(Gather(ns, t.dir, p, init), Yield(ns, t.dir, p, n), kind);
      YieldPaths(ns, t.dir, p, n, kind);
      AtJoin(ns, p, n);
      forall i | 0 <= i < |a|
        ensures a[i].1 != Join(p, n)
      {
        assert a[i] in a;
        GatherMember(ns, p, t, init, kind, a[i]);
      }
    }
  }

  /** The file that a symlink leads to. */
  ghost function LinkedFile(ns: Namespace, i: nat): Option<nat> {
    if i < |ns.links| && ResolveFile(ns, ns.links[i]).Ok? then Some(ResolveFile(ns, ns.links[i]).value) else None
  }

  function OneItem(index: Option<nat>, x: string): seq<Item> {
    if index.Some? then [(index.value, x)] else []
  }

  function SpotDir(t: Option<Spot>): Option<nat> {
    if t.Some? then Some(t.value.dir) else None
  }

  /** What a search lists for a child, by the kind of the node and by where its trail goes on. */
  function Listed(node: Node, onward: Option<Spot>, linked: Option<nat>, x: string): Visit {
    Visit(
      OneItem(SpotDir(onward), x),
      OneItem(if node.File? then Some(node.file) else None, x),
      OneItem(linked, x),
      OneItem(if node.Symlink? then Some(node.link) else None, x),
      OneItem(if node.Dir? then Some(node.dir) else None, x),
      OneItem(if node.Symlink? then SpotDir(onward) else None, x))
  }

  /** The file behind a node that is a symlink. */
  ghost function LinkedFrom(ns: Namespace, node: Node): Option<nat> {
    if node.Symlink? then LinkedFile(ns, node.link) else None
  }

  lemma YieldIs(ns: Namespace, t: Spot, p: string, n: Name)
    requires t.dir < |ns.dirs| && n in ns.dirs[t.dir]
    ensures var node := ns.dirs[t.dir][n];
            Yield(ns, t.dir, p, n) == Listed(node, Onward(ns, t, n), LinkedFrom(ns, node), Join(p, n))
  {
    var node := ns.dirs[t.dir][n];
    if node.Symlink? && node.link < |ns.links| {
      var r := Resolve(ns, ns.links[node.link], true);
      assert ResolveDir(ns, ns.links[node.link]) == AsDir(r) && ResolveFile(ns, ns.links[node.link]) == AsFile(r);
    }
  }

  lemma OnwardLevel(ns: Namespace, t: Spot, n: Name)
    requires t.dir < |ns.dirs| && n in ns.dirs[t.dir]
    ensures var node := ns.dirs[t.dir][n];
            var onward := Onward(ns, t, n);
            && (node.Dir? ==> onward == Some(Spot(node.dir, t.level)))
            && (node.File? ==> onward == None)
            && (node.Symlink? && onward.Some? ==> onward.value.level == t.level + 1)
  {
  }

  /** What is listed for a path, and the spot of the path, by the kind of its entry. */
  lemma YieldAtIs(ns: Namespace, x: string)
    requires Exists(ns, x)
    ensures YieldAt(ns, x) == Listed(NodeAt(ns, x), At(ns, x), LinkedFrom(ns, NodeAt(ns, x)), x)
    ensures var level := Above(ns, x).value.level;
            && (NodeAt(ns, x).Dir? ==> At(ns, x) == Some(Spot(NodeAt(ns, x).dir, level)))
            && (NodeAt(ns, x).File? ==> At(ns, x) == None)
            && (NodeAt(ns, x).Symlink? && At(ns, x).Some? ==> At(ns, x).value.level == level + 1)
  {
    AtSplit(ns, x);
    var t, n := Above(ns, x).value, Split(x).1;
    assert Join(Split(x).0, n) == x by { BelowRoot(x); }
    YieldIs(ns, t, Split(x).0, n);
    OnwardLevel(ns, t, n);
  }
}
