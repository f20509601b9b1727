/**
 One round of the search for alive nodes (diffuzzer/src/abstract_fs/fs.rs, alive_follow_once): a queue, no
 visited set. What the round keeps, why it ends, and what it has listed when it does.
 */
module Rounds {
  import opened Wrappers
  import opened Pathname
  import opened Nodes
  import opened Resolution
  import opened Forest
  import opened Invariants
  import opened Trails
  import opened Descent

  const MAX_SYMLINK_FOLLOW := 2

  /** Entries lead to directories, files and symlinks that there are. */
  ghost predicate Ranged(ns: Namespace) {
    |ns.dirs| > 0 && exists files :: InRange(ns, files)
  }

  /** The targets of the symlinks in a directory resolve, one way or the other; then looking through it returns. */
  ghost predicate ReadableDir(ns: Namespace, d: nat) {
    && d < |ns.dirs|
    && forall n :: n in ns.dirs[d] && ns.dirs[d][n].Symlink? ==>
         ns.dirs[d][n].link < |ns.links| && Resolve(ns, ns.links[ns.dirs[d][n].link], true) != Stuck
  }

  /** All that a round needs: paths of bounded length, and directories on them that can be read and have no empty names. */
  ghost predicate RoundFits(ns: Namespace, k: nat) {
    && Bounded(ns, k)
    && forall segs :: OnLevel(ns, segs, k) ==> ReadableDir(ns, Trail(ns, segs).value.dir) && ProperDir(ns, Trail(ns, segs).value.dir)
  }

  /** All that the search needs of a namespace. */
  ghost predicate Searchable(ns: Namespace) {
    Ranged(ns) && forall k: nat :: k < MAX_SYMLINK_FOLLOW ==> RoundFits(ns, k)
  }

  /** A forest of proper names in which all symlinks resolve will do. */
  lemma ForestSearchable(ns: Namespace, files: nat)
    requires IsForest(ns) && WellNamed(ns) && InRange(ns, files)
    requires forall i :: 0 <= i < |ns.links| ==> Resolve(ns, ns.links[i], true) != Stuck
    ensures Searchable(ns)
  {
    AcyclicBounded(ns, files);
    forall k: nat, segs | OnLevel(ns, segs, k)
      ensures ReadableDir(ns, Trail(ns, segs).value.dir) && ProperDir(ns, Trail(ns, segs).value.dir)
    {
      TrailInRange(ns, files, segs);
      AllReadable(ns, files, Trail(ns, segs).value.dir);
    }
  }

  lemma AllReadable(ns: Namespace, files: nat, d: nat)
    requires InRange(ns, files) && d < |ns.dirs|
    requires forall i :: 0 <= i < |ns.links| ==> Resolve(ns, ns.links[i], true) != Stuck
    ensures ReadableDir(ns, d)
  {
    forall n | n in ns.dirs[d] && ns.dirs[d][n].Symlink?
      ensures ns.dirs[d][n].link < |ns.links|
    {
      assert HasEntry(ns, d, n, Symlink(ns.dirs[d][n].link));
    }
  }

  ghost predicate AtLevel(ns: Namespace, e: Item, k: nat) {
    Canonical(e.1) && At(ns, e.1) == Some(Spot(e.0, k))
  }

  /** A round at level k starts from the root, or from the symlinks that lead up to this level. */
  ghost predicate Start(ns: Namespace, e: Item, k: nat) {
    AtLevel(ns, e, k) && (IsRoot(e.1) || (Exists(ns, e.1) && NodeAt(ns, e.1).Symlink?))
  }

  ghost predicate Starts(ns: Namespace, k: nat, start: seq<Item>) {
    Distinct(start) && forall e :: e in start <==> Start(ns, e, k)
  }

  function PathsOf(items: seq<Item>): set<string> {
    set e | e in items :: e.1
  }

  /** Everything ever put in the queue, in order. */
  function Queued(start: seq<Item>, v: Visit): seq<Item> {
    start + v.subs
  }

  /** The search has listed exactly what lies directly below the paths done. */
  ghost predicate ListedBelow(ns: Namespace, done: set<string>, v: Visit) {
    forall kind, e :: e in Pick(v, kind) <==> Exists(ns, e.1) && Split(e.1).0 in done && e in Pick(YieldAt(ns, e.1), kind)
  }

  ghost predicate AllDistinct(v: Visit) {
    forall kind :: Distinct(Pick(v, kind))
  }

  ghost predicate InRound(ns: Namespace, k: nat, start: seq<Item>, j: nat, v: Visit) {
    && j <= |Queued(start, v)|
    && Distinct(Queued(start, v))
    && (forall e :: e in Queued(start, v) ==> AtLevel(ns, e, k))
    && ListedBelow(ns, PathsOf(Queued(start, v)[..j]), v)
    && AllDistinct(v)
  }

  lemma RoundBegins(ns: Namespace, k: nat, start: seq<Item>)
    requires Starts(ns, k, start)
    ensures InRound(ns, k, start, 0, NOTHING)
  {
    assert Queued(start, NOTHING) == start;
    forall kind
      ensures Pick(NOTHING, kind) == []
    {
    }
  }

  /** What one child directory adds to the queue is at the same level and no start. */
  lemma SubSpot(ns: Namespace, e: Item, k: nat)
    requires Exists(ns, e.1) && e in YieldAt(ns, e.1).subs && Above(ns, e.1).value.level == k
    ensures AtLevel(ns, e, k) && NodeAt(ns, e.1).Dir?
  {
    YieldAtIs(ns, e.1);
  }

  /** A subdirectory of the next directory in the queue is not in the queue yet. */
  lemma NotQueued(ns: Namespace, k: nat, start: seq<Item>, j: nat, v: Visit, x: string)
    requires Starts(ns, k, start) && InRound(ns, k, start, j, v) && j < |Queued(start, v)|
    requires Exists(ns, x) && Split(x).0 == Queued(start, v)[j].1 && NodeAt(ns, x).Dir?
    ensures x !in PathsOf(Queued(start, v))
  {
    var items := Queued(start, v);
    forall f | f in items
      ensures f.1 != x
    {
      if f in start {
        assert Start(ns, f, k);
      } else {
        SubIsBelow(ns, PathsOf(items[..j]), v, f);
        NotDoneYet(items, j, Split(f.1).0);
      }
    }
  }

  lemma SubIsBelow(ns: Namespace, done: set<string>, v: Visit, e: Item)
    requires ListedBelow(ns, done, v)
    ensures e in v.subs <==> Exists(ns, e.1) && Split(e.1).0 in done && e in YieldAt(ns, e.1).subs
  {
    assert e in v.subs <==> e in Pick(v, Subs);
    assert Exists(ns, e.1) ==> YieldAt(ns, e.1).subs == Pick(YieldAt(ns, e.1), Subs);
  }

  lemma NotDoneYet(items: seq<Item>, j: nat, q: string)
    requires Distinct(items) && j < |items| && q in PathsOf(items[..j])
    ensures q != items[j].1
  {
    var e :| e in items[..j] && e.1 == q;
    var i :| 0 <= i < j && items[..j][i] == e;
    assert items[i].1 != items[j].1;
  }

  /** The queue after one more directory is done. */
  lemma QueueGrows(ns: Namespace, k: nat, start: seq<Item>, j: nat, v: Visit, more: Visit)
    requires Starts(ns, k, start) && InRound(ns, k, start, j, v) && j < |Queued(start, v)|
    requires Distinct(more.subs)
    requires forall e :: e in more.subs ==> Exists(ns, e.1) && Split(e.1).0 == Queued(start, v)[j].1 && e in YieldAt(ns, e.1).subs
    ensures Queued(start, Plus(v, more)) == Queued(start, v) + more.subs
    ensures Distinct(Queued(start, Plus(v, more)))
    ensures forall e :: e in Queued(start, Plus(v, more)) ==> AtLevel(ns, e, k)
  {
    var items, subs := Queued(start, v), more.subs;
    assert AtLevel(ns, items[j], k) by { assert items[j] in items; }
    forall e | e in subs
      ensures AtLevel(ns, e, k) && e.1 !in PathsOf(items)
    {
      SubSpot(ns, e, k);
      NotQueued(ns, k, start, j, v, e.1);
    }
    DistinctAppend(items, subs);
    QueuedPlus(start, v, more);
  }

  lemma DistinctAppend(a: seq<Item>, b: seq<Item>)
    requires Distinct(a) && Distinct(b) && forall e :: e in b ==> e.1 !in PathsOf(a)
    ensures Distinct(a + b)
  {
    forall i, j | 0 <= i < |a| && 0 <= j < |b|
      ensures a[i].1 != b[j].1
    {
      assert a[i] in a && b[j] in b;
    }
  }

  /** One directory of the queue: its children, in any order. */
  lemma RoundStep(ns: Namespace, k: nat, start: seq<Item>, j: nat, v: Visit, names: seq<Name>)
    requires Starts(ns, k, start) && InRound(ns, k, start, j, v) && j < |Queued(start, v)|
    requires ProperDir(ns, Queued(start, v)[j].0)
    requires forall n :: n in names <==> n in ns.dirs[Queued(start, v)[j].0]
    requires forall a, b :: 0 <= a < b < |names| ==> names[a] != names[b]
    ensures InRound(ns, k, start, j + 1, Plus(v, Gather(ns, Queued(start, v)[j].0, Queued(start, v)[j].1, names)))
  {
    var (d, p) := Queued(start, v)[j];
    var more := Gather(ns, d, p, names);
    var t := Spot(d, k);
    assert AtLevel(ns, (d, p), k) by { assert Queued(start, v)[j] in Queued(start, v); }
    forall kind, e
      ensures e in Pick(more, kind) <==> Exists(ns, e.1) && Split(e.1).0 == p && e in Pick(YieldAt(ns, e.1), kind)
    {
      GatherMember(ns, p, t, names, kind, e);
    }
    GatherDistinct(ns, p, t, names, Subs);
    assert Pick(more, Subs) == more.subs;
    QueueGrows(ns, k, start, j, v, more);
    var w := Plus(v, more);
    var done, done' := PathsOf(Queued(start, v)[..j]), PathsOf(Queued(start, w)[..j + 1]);
    DonePaths(start, v, more, j);
    forall kind, e
      ensures e in Pick(w, kind) <==> Exists(ns, e.1) && Split(e.1).0 in done' && e in Pick(YieldAt(ns, e.1), kind)
    {
      PickPlus(v, more, kind);
    }
    forall kind
      ensures Distinct(Pick(w, kind))
    {
      GatherDistinct(ns, p, t, names, kind);
      DistinctPlus(ns, v, more, done, p, kind);
    }
  }

  lemma QueuedPlus(start: seq<Item>, v: Visit, more: Visit)
    ensures Queued(start, Plus(v, more)) == Queued(start, v) + more.subs
  {
  }

  lemma DonePaths(start: seq<Item>, v: Visit, more: Visit, j: nat)
    requires j < |Queued(start, v)| && Distinct(Queued(start, v))
    requires Queued(start, Plus(v, more)) == Queued(start, v) + more.subs
    ensures PathsOf(Queued(start, Plus(v, more))[..j + 1]) == PathsOf(Queued(start, v)[..j]) + {Queued(start, v)[j].1}
    ensures Queued(start, v)[j].1 !in PathsOf(Queued(start, v)[..j])
  {
    var items := Queued(start, v);
    assert Queued(start, Plus(v, more))[..j + 1] == items[..j] + [items[j]];
  }

  lemma DistinctPlus(ns: Namespace, v: Visit, more: Visit, done: set<string>, p: string, kind: Kind)
    requires ListedBelow(ns, done, v) && p !in done
    requires forall e :: e in Pick(more, kind) ==> Exists(ns, e.1) && Split(e.1).0 == p
    requires Distinct(Pick(v, kind)) && Distinct(Pick(more, kind))
    ensures Distinct(Pick(Plus(v, more), kind))
  {
    PickPlus(v, more, kind);
    var a, b := Pick(v, kind), Pick(more, kind);
    forall i, l | 0 <= i < |a| && 0 <= l < |b|
      ensures a[i].1 != b[l].1
    {
      assert a[i] in a && b[l] in b;
    }
  }

  // ----- the end of a round

  /** Every directory path of this level has been in the queue. */
  lemma {:induction false} AllQueued(ns: Namespace, k: nat, start: seq<Item>, v: Visit, e: Item)
    requires Starts(ns, k, start) && InRound(ns, k, start, |Queued(start, v)|, v)
    requires AtLevel(ns, e, k)
    ensures e in Queued(start, v)
    decreases |e.1|
  {
    var items := Queued(start, v);
    if IsRoot(e.1) {
      assert Start(ns, e, k);
    } else {
      assert |Split(e.1).0| < |e.1| && Canonical(Split(e.1).0) by { BelowRoot(e.1); }
      assert Exists(ns, e.1) by { AtSplit(ns, e.1); }
      YieldAtIs(ns, e.1);
      if NodeAt(ns, e.1).Symlink? {
        assert Start(ns, e, k);
      } else {
        var q := Split(e.1).0;
        var above := (Above(ns, e.1).value.dir, q);
        AllQueued(ns, k, start, v, above);
        assert above.1 in PathsOf(items[..|items|]) by { assert items[..|items|] == items; }
        assert YieldAt(ns, e.1).subs == [e];
        SubIsBelow(ns, PathsOf(items[..|items|]), v, e);
      }
    }
  }

  /** What a finished round has listed: what lies directly below a directory path of its level, once each. */
  ghost predicate ListedLevel(ns: Namespace, k: nat, v: Visit) {
    && AllDistinct(v)
    && forall kind, e :: e in Pick(v, kind) <==> Exists(ns, e.1) && Above(ns, e.1).value.level == k && e in Pick(YieldAt(ns, e.1), kind)
  }

  lemma RoundEnds(ns: Namespace, k: nat, start: seq<Item>, v: Visit)
    requires Starts(ns, k, start) && InRound(ns, k, start, |Queued(start, v)|, v)
    ensures ListedLevel(ns, k, v)
  {
    var items := Queued(start, v);
    assert items[..|items|] == items;
    forall kind, e
      ensures e in Pick(v, kind) <==> Exists(ns, e.1) && Above(ns, e.1).value.level == k && e in Pick(YieldAt(ns, e.1), kind)
    {
      if e in Pick(v, kind) {
        assert Split(e.1).0 in PathsOf(items);
        var f :| f in items && f.1 == Split(e.1).0;
        assert AtLevel(ns, f, k);
      } else if Exists(ns, e.1) && Above(ns, e.1).value.level == k {
        BelowRoot(e.1);
        var above := (Above(ns, e.1).value.dir, Split(e.1).0);
        AllQueued(ns, k, start, v, above);
        assert above.1 in PathsOf(items);
      }
    }
  }

  lemma FollowIsStart(ns: Namespace, k: nat, e: Item)
    requires Exists(ns, e.1) && Above(ns, e.1).value.level == k
    ensures e in YieldAt(ns, e.1).follow <==> Start(ns, e, k + 1)
  {
    YieldAtIs(ns, e.1);
    ListedMembers(NodeAt(ns, e.1), At(ns, e.1), LinkedFrom(ns, NodeAt(ns, e.1)), e);
  }

  lemma StartIsBelow(ns: Namespace, k: nat, e: Item)
    requires Start(ns, e, k + 1)
    ensures Exists(ns, e.1) && Above(ns, e.1).value.level == k
  {
    AtRoot(ns);
    AtSplit(ns, e.1);
  }

  lemma FollowListed(ns: Namespace, k: nat, v: Visit, e: Item)
    requires ListedLevel(ns, k, v)
    ensures e in v.follow <==> Exists(ns, e.1) && Above(ns, e.1).value.level == k && e in YieldAt(ns, e.1).follow
  {
    assert e in v.follow <==> e in Pick(v, Follows);
    assert Exists(ns, e.1) ==> YieldAt(ns, e.1).follow == Pick(YieldAt(ns, e.1), Follows);
  }

  /** The directories behind symlinks found in one round are the starts of the next. */
  lemma NextStarts(ns: Namespace, k: nat, v: Visit)
    requires ListedLevel(ns, k, v)
    ensures Starts(ns, k + 1, v.follow)
  {
    assert Distinct(Pick(v, Follows));
    forall e
      ensures e in v.follow <==> Start(ns, e, k + 1)
    {
      FollowListed(ns, k, v, e);
      if Start(ns, e, k + 1) {
        StartIsBelow(ns, k, e);
      }
      if Exists(ns, e.1) && Above(ns, e.1).value.level == k {
        FollowIsStart(ns, k, e);
      }
    }
  }

  lemma FirstStarts(ns: Namespace)
    ensures Starts(ns, 0, [(ROOT, "/")])
  {
    AtRoot(ns);
    assert Canonical("/");
    forall e | Start(ns, e, 0)
      ensures e == (ROOT, "/")
    {
      if !IsRoot(e.1) {
        AtSplit(ns, e.1);
      }
    }
  }

  // ----- why a round ends

  /** All names there are. */
  function EntryNames(dirs: seq<Children>): set<Name> {
    if dirs == [] then {} else EntryNames(dirs[..|dirs| - 1]) + dirs[|dirs| - 1].Keys
  }

  lemma {:induction false} EntryNamesHas(dirs: seq<Children>, d: nat, n: Name)
    requires d < |dirs| && n in dirs[d]
    ensures n in EntryNames(dirs)
    decreases |dirs|
  {
    if d < |dirs| - 1 {
      EntryNamesHas(dirs[..|dirs| - 1], d, n);
    }
  }

  lemma {:induction false} TrailNames(ns: Namespace, segs: seq<Name>)
    requires Trail(ns, segs).Some?
    ensures forall n :: n in segs ==> n in EntryNames(ns.dirs)
  {
    if segs != [] {
      var init, n := segs[..|segs| - 1], segs[|segs| - 1];
      assert segs == init + [n];
      TrailNames(ns, init);
      EntryNamesHas(ns.dirs, Trail(ns, init).value.dir, n);
    }
  }

  /** The sequences of names up to some length. */
  function Routes(names: set<Name>, n: nat): set<seq<Name>> {
    if n == 0 then {[]} else Routes(names, n - 1) + set r, m | r in Routes(names, n - 1) && m in names :: r + [m]
  }

  lemma {:induction false} RoutesHas(names: set<Name>, n: nat, segs: seq<Name>)
    requires |segs| <= n && forall m :: m in segs ==> m in names
    ensures segs in Routes(names, n)
    decreases n
  {
    if n > 0 {
      if |segs| < n {
        RoutesHas(names, n - 1, segs);
      } else {
        var init, m := segs[..n - 1], segs[n - 1];
        assert segs == init + [m];
        RoutesHas(names, n - 1, init);
      }
    }
  }

  /** The paths of a bounded level are finitely many. */
  lemma LevelPaths(ns: Namespace, k: nat) returns (all: set<string>)
    requires Bounded(ns, k)
    ensures forall e :: AtLevel(ns, e, k) ==> e.1 in all
  {
    var b: nat :| BoundedBy(ns, k, b);
    var names := EntryNames(ns.dirs);
    all := set r | r in Routes(names, b) :: Show(r);
    forall e | AtLevel(ns, e, k)
      ensures e.1 in all
    {
      var segs := Segments(e.1);
      assert OnLevel(ns, segs, k);
      TrailNames(ns, segs);
      RoutesHas(names, b, segs);
      CanonicalRoundTrip(e.1);
    }
  }

  /** The search takes one directory from the queue: it stays on course, and fewer paths remain possible. */
  lemma SearchStep(ns: Namespace, k: nat, start: seq<Item>, all: set<string>, j: nat, v: Visit, names: seq<Name>)
    requires Starts(ns, k, start) && InRound(ns, k, start, j, v) && j < |Queued(start, v)|
    requires forall e :: AtLevel(ns, e, k) ==> e.1 in all
    requires ProperDir(ns, Queued(start, v)[j].0)
    requires forall n :: n in names <==> n in ns.dirs[Queued(start, v)[j].0]
    requires forall a, b :: 0 <= a < b < |names| ==> names[a] != names[b]
    ensures var (d, p) := Queued(start, v)[j];
            var more := Gather(ns, d, p, names);
            && InRound(ns, k, start, j + 1, Plus(v, more))
            && Queued(start, Plus(v, more)) == Queued(start, v) + more.subs
            && all - PathsOf(Queued(start, Plus(v, more))[..j + 1]) < all - PathsOf(Queued(start, v)[..j])
  {
    var items := Queued(start, v);
    var e := items[j];
    var more := Gather(ns, e.0, e.1, names);
    var w := Plus(v, more);
    assert e.1 in all by { assert e in items; }
    QueuedPlus(start, v, more);
    assert InRound(ns, k, start, j + 1, w) by { RoundStep(ns, k, start, j, v, names); }
    assert PathsOf(Queued(start, w)[..j + 1]) == PathsOf(items[..j]) + {e.1} && e.1 !in PathsOf(items[..j]) by {
      DonePaths(start, v, more, j);
    }
  }

  lemma PopPush(items: seq<Item>, j: nat, more: seq<Item>)
    requires j < |items|
    ensures (items + more)[j + 1..] == items[j..][1..] + more
  {
  }

  lemma QueueFits(ns: Namespace, k: nat, start: seq<Item>, j: nat, v: Visit)
    requires RoundFits(ns, k) && InRound(ns, k, start, j, v) && j < |Queued(start, v)|
    ensures ReadableDir(ns, Queued(start, v)[j].0) && ProperDir(ns, Queued(start, v)[j].0)
  {
    var e := Queued(start, v)[j];
    assert AtLevel(ns, e, k) by { assert e in Queued(start, v); }
    assert OnLevel(ns, Segments(e.1), k);
  }

  // ----- what the whole search lists

  /** The alive nodes; the source keeps a symlink's path only. */
  datatype AliveNodes = AliveNodes(
    dirs: seq<Item>,
    files: seq<Item>,
    filesSymlinked: seq<Item>,
    symlinks: seq<string>)

  function Paths(items: seq<Item>): seq<string> {
    seq(|items|, i requires 0 <= i < |items| => items[i].1)
  }

  function Extend(a: AliveNodes, v: Visit): AliveNodes {
    AliveNodes(a.dirs + v.dirs, a.files + v.files, a.filesSymlinked + v.fileLinks, a.symlinks + Paths(v.links))
  }

  const JUST_ROOT := AliveNodes([(ROOT, "/")], [], [], [])

  /** An entry reached over fewer than m symlinks to directories. */
  ghost predicate Within(ns: Namespace, x: string, m: nat) {
    Exists(ns, x) && Above(ns, x).value.level < m
  }

  /** The lists hold exactly the nodes found over fewer than m symlinks to directories. */
  ghost predicate Lists(ns: Namespace, a: AliveNodes, m: nat) {
    && (forall e :: e in a.dirs <==>
          e == (ROOT, "/") || (Within(ns, e.1, m) && At(ns, e.1).Some? && At(ns, e.1).value.dir == e.0))
    && (forall e :: e in a.files <==> Within(ns, e.1, m) && NodeAt(ns, e.1) == File(e.0))
    && (forall e :: e in a.filesSymlinked <==>
          Within(ns, e.1, m) && NodeAt(ns, e.1).Symlink? && LinkedFile(ns, NodeAt(ns, e.1).link) == Some(e.0))
    && (forall x :: x in a.symlinks <==> Within(ns, x, m) && NodeAt(ns, x).Symlink?)
  }

  /** No path twice in the same list. */
  ghost predicate NoRepeats(a: AliveNodes) {
    && Distinct(a.dirs) && Distinct(a.files) && Distinct(a.filesSymlinked)
    && forall i, j :: 0 <= i < j < |a.symlinks| ==> a.symlinks[i] != a.symlinks[j]
  }

  /** What is listed for a path, by the kind of its entry. */
  lemma ListedAt(ns: Namespace, x: string, e: Item)
    requires Exists(ns, x) && e.1 == x
    ensures e in YieldAt(ns, x).dirs <==> At(ns, x).Some? && At(ns, x).value.dir == e.0
    ensures e in YieldAt(ns, x).files <==> NodeAt(ns, x) == File(e.0)
    ensures e in YieldAt(ns, x).fileLinks <==> NodeAt(ns, x).Symlink? && LinkedFile(ns, NodeAt(ns, x).link) == Some(e.0)
    ensures e in YieldAt(ns, x).links <==> NodeAt(ns, x) == Symlink(e.0)
  {
    YieldAtIs(ns, x);
    ListedMembers(NodeAt(ns, x), At(ns, x), LinkedFrom(ns, NodeAt(ns, x)), e);
  }

  lemma ListedMembers(node: Node, onward: Option<Spot>, linked: Option<nat>, e: Item)
    ensures var v := Listed(node, onward, linked, e.1);
            && (e in v.dirs <==> SpotDir(onward) == Some(e.0))
            && (e in v.files <==> node == File(e.0))
            && (e in v.fileLinks <==> linked == Some(e.0))
            && (e in v.links <==> node == Symlink(e.0))
            && (e in v.follow <==> node.Symlink? && SpotDir(onward) == Some(e.0))
  {
  }

  lemma InPaths(items: seq<Item>, x: string)
    ensures x in Paths(items) <==> exists e :: e in items && e.1 == x
  {
    if x in Paths(items) {
      var i :| 0 <= i < |items| && Paths(items)[i] == x;
      assert items[i] in items;
    }
    if e :| e in items && e.1 == x {
      var i :| 0 <= i < |items| && items[i] == e;
      assert Paths(items)[i] == x;
    }
  }

  /** One more round adds the next level. */
  lemma ListsGrow(ns: Namespace, a: AliveNodes, k: nat, v: Visit)
    requires Lists(ns, a, k) && ListedLevel(ns, k, v)
    ensures Lists(ns, Extend(a, v), k + 1)
  {
    var b := Extend(a, v);
    forall e: Item
      ensures e in v.dirs <==> Exists(ns, e.1) && Above(ns, e.1).value.level == k && At(ns, e.1).Some? && At(ns, e.1).value.dir == e.0
      ensures e in v.files <==> Exists(ns, e.1) && Above(ns, e.1).value.level == k && NodeAt(ns, e.1) == File(e.0)
      ensures e in v.fileLinks <==> Exists(ns, e.1) && Above(ns, e.1).value.level == k
                                    && NodeAt(ns, e.1).Symlink? && LinkedFile(ns, NodeAt(ns, e.1).link) == Some(e.0)
    {
      assert Pick(v, Dirs) == v.dirs && Pick(v, Files) == v.files && Pick(v, FileLinks) == v.fileLinks;
      if Exists(ns, e.1) {
        ListedAt(ns, e.1, e);
        var y := YieldAt(ns, e.1);
        assert Pick(y, Dirs) == y.dirs && Pick(y, Files) == y.files && Pick(y, FileLinks) == y.fileLinks;
      }
    }
    forall x
      ensures x in b.symlinks <==> Within(ns, x, k + 1) && NodeAt(ns, x).Symlink?
    {
      LinksListed(ns, k, v, x);
    }
  }

  lemma LinksListed(ns: Namespace, k: nat, v: Visit, x: string)
    requires ListedLevel(ns, k, v)
    ensures x in Paths(v.links) <==> Exists(ns, x) && Above(ns, x).value.level == k && NodeAt(ns, x).Symlink?
  {
    InPaths(v.links, x);
    assert Pick(v, Links) == v.links;
    if Exists(ns, x) {
      var y := YieldAt(ns, x);
      assert Pick(y, Links) == y.links;
      forall i: nat
        ensures (i, x) in y.links <==> NodeAt(ns, x) == Symlink(i)
      {
        ListedAt(ns, x, (i, x));
      }
      if NodeAt(ns, x).Symlink? && Above(ns, x).value.level == k {
        assert (NodeAt(ns, x).link, x) in Pick(v, Links);
      }
    }
    if e :| e in v.links && e.1 == x {
      assert e in Pick(v, Links);
    }
  }

  lemma DistinctPaths(items: seq<Item>)
    requires Distinct(items)
    ensures forall i, j :: 0 <= i < j < |items| ==> Paths(items)[i] != Paths(items)[j]
  {
  }

  /** No path is listed twice, within a round or across rounds. */
  lemma NoRepeatsGrow(ns: Namespace, a: AliveNodes, k: nat, v: Visit)
    requires Lists(ns, a, k) && NoRepeats(a) && ListedLevel(ns, k, v)
    ensures NoRepeats(Extend(a, v))
  {
    assert Distinct(Pick(v, Dirs)) && Distinct(Pick(v, Files)) && Distinct(Pick(v, FileLinks)) && Distinct(Pick(v, Links));
    forall kind, e | e in Pick(v, kind)
      ensures Exists(ns, e.1) && !Within(ns, e.1, k)
    {
    }
    assert forall e :: e in v.dirs ==> e in Pick(v, Dirs);
    assert forall e :: e in v.files ==> e in Pick(v, Files);
    assert forall e :: e in v.fileLinks ==> e in Pick(v, FileLinks);
    AppendApart(a.dirs, v.dirs);
    AppendApart(a.files, v.files);
    AppendApart(a.filesSymlinked, v.fileLinks);
    DistinctPaths(v.links);
    forall i, j | 0 <= i < |a.symlinks| && 0 <= j < |v.links|
      ensures a.symlinks[i] != Paths(v.links)[j]
    {
      assert v.links[j] in Pick(v, Links);
      assert a.symlinks[i] in a.symlinks;
    }
  }

  lemma AppendApart(a: seq<Item>, b: seq<Item>)
    requires Distinct(a) && Distinct(b) && forall e, f :: e in a && f in b ==> e.1 != f.1
    ensures Distinct(a + b)
  {
    DistinctAppend(a, b);
  }

  // ----- the alive nodes and path resolution

  /** Every listed path resolves to what is listed. */
  lemma ListsSound(ns: Namespace, a: AliveNodes, m: nat)
    requires Ranged(ns) && Lists(ns, a, m)
    ensures forall e :: e in a.dirs ==> Canonical(e.1) && ResolveDir(ns, e.1).Ok? && ResolveDir(ns, e.1).value.1 == e.0
    ensures forall e :: e in a.files ==> Resolve(ns, e.1, false).Ok? && Resolve(ns, e.1, false).value.node == File(e.0)
    ensures forall e :: e in a.files || e in a.filesSymlinked ==> ResolveFile(ns, e.1) == Ok(e.0)
    ensures forall x :: x in a.symlinks ==> Resolve(ns, x, false).Ok? && Resolve(ns, x, false).value.node.Symlink?
  {
    var files :| InRange(ns, files);
    forall e | e in a.dirs
      ensures Canonical(e.1) && ResolveDir(ns, e.1).Ok? && ResolveDir(ns, e.1).value.1 == e.0
    {
      AtRoot(ns);
      TrailIsResolution(ns, e.1);
    }
    forall e | e in a.files
      ensures Resolve(ns, e.1, false).Ok? && Resolve(ns, e.1, false).value.node == File(e.0)
      ensures ResolveFile(ns, e.1) == Ok(e.0)
    {
      ExistsResolves(ns, e.1);
      PlainResolves(ns, e.1);
    }
    forall e | e in a.filesSymlinked
      ensures ResolveFile(ns, e.1) == Ok(e.0)
    {
      ExistsResolves(ns, e.1);
      var f := Resolve(ns, e.1, false).value;
      LinkResolves(ns, e.1, f.passed, f.node.link);
    }
    forall x | x in a.symlinks
      ensures Resolve(ns, x, false).Ok? && Resolve(ns, x, false).value.node.Symlink?
    {
      ExistsResolves(ns, x);
    }
  }

  /** An existing entry is what its path resolves to. */
  lemma ExistsResolves(ns: Namespace, x: string)
    requires Ranged(ns) && Canonical(x) && !IsRoot(x)
    ensures Exists(ns, x) <==> Resolve(ns, x, false).Ok?
    ensures Exists(ns, x) ==> Resolve(ns, x, false).value.node == NodeAt(ns, x)
  {
    var files :| InRange(ns, files);
    BelowRoot(x);
    TrailIsResolution(ns, Split(x).0);
    EntryResolves(ns, x);
  }

  /**
   Every canonical path that leads to a file, and whose directory is reached over fewer than m symlinks, is
   listed; so is every such path to a directory.
   */
  lemma ListsComplete(ns: Namespace, a: AliveNodes, m: nat, x: string)
    requires Ranged(ns) && Lists(ns, a, m)
    requires Canonical(x) && !IsRoot(x) && '/' in x && Above(ns, x).Some? && Above(ns, x).value.level < m
    ensures Resolve(ns, x, false).Ok? && Resolve(ns, x, false).value.node.File? ==> (Resolve(ns, x, false).value.node.file, x) in a.files
    ensures ResolveDir(ns, x).Ok? ==> (ResolveDir(ns, x).value.1, x) in a.dirs
  {
    ExistsResolves(ns, x);
    var files :| InRange(ns, files);
    TrailIsResolution(ns, x);
    FollowedIsFound(ns, x);
  }
}
