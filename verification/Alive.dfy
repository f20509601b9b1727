/**
 The search for alive nodes (diffuzzer/src/abstract_fs/fs.rs, alive and alive_follow_once), with its queue
 and loops. A hash map's iteration order is any order.
 */
module Alive {
  import opened Pathname
  import opened Nodes
  import opened FileSystem
  import opened Trails
  import opened Rounds

  /** The children of one directory, each put where it belongs. */
  method VisitDir(fs: AbstractFS, d: nat, p: string) returns (v: Visit, ghost names: seq<Name>)
    requires ReadableDir(fs.Ns(), d)
    ensures forall n :: n in names <==> n in fs.dirs[d]
    ensures forall a, b :: 0 <= a < b < |names| ==> names[a] != names[b]
    ensures v == Gather(fs.Ns(), d, p, names)
  {
    v := NOTHING;
    names := [];
    var rest := fs.dirs[d].Keys;
    while rest != {}
      invariant forall n :: n in fs.dirs[d] <==> n in rest || n in names
      invariant forall n :: n in names ==> n !in rest
      invariant forall a, b :: 0 <= a < b < |names| ==> names[a] != names[b]
      invariant v == Gather(fs.Ns(), d, p, names)
      decreases rest
    {
      var n :| n in rest;
      rest := rest - {n};
      var found := VisitChild(fs, d, p, n);
      v := Plus(v, found);
      ghost var more := names + [n];
      assert more[..|more| - 1] == names;
      names := more;
    }
  }

  /** One child: a directory to search, a file, or a symlink and what it leads to. */
  method VisitChild(fs: AbstractFS, d: nat, p: string, n: Name) returns (v: Visit)
    requires ReadableDir(fs.Ns(), d) && n in fs.dirs[d]
    ensures v == Yield(fs.Ns(), d, p, n)
  {
    var x := Join(p, n);
    match fs.dirs[d][n] {
      case Dir(c) =>
        v := NOTHING.(dirs := [(c, x)], subs := [(c, x)]);
      case File(f) =>
        v := NOTHING.(files := [(f, x)]);
      case Symlink(i) =>
        v := NOTHING.(links := [(i, x)]);
        var target := fs.symlinks[i];
        assert fs.Ns().links[i] == target;
        var found := fs.ResolveNode(target, true);
        if found.Success? {
          match found.value.node {
            case File(f) => v := v.(fileLinks := [(f, x)]);
            case Dir(c) => v := v.(dirs := [(c, x)], follow := [(c, x)]);
            case Symlink(_) =>
          }
        }
    }
  }

  /** Breadth-first search over directories; symlinks to directories are left for the next round. */
  method AliveFollowOnce(fs: AbstractFS, alive: AliveNodes, start: seq<Item>, ghost k: nat)
      returns (alive': AliveNodes, followNext: seq<Item>, ghost v: Visit)
    requires RoundFits(fs.Ns(), k) && Starts(fs.Ns(), k, start)
    ensures ListedLevel(fs.Ns(), k, v)
    ensures alive' == Extend(alive, v) && followNext == v.follow
  {
    ghost var ns := fs.Ns();
    ghost var all := LevelPaths(ns, k);
    RoundBegins(ns, k, start);
    ghost var j := 0;
    v := NOTHING;
    alive' := alive;
    followNext := [];
    var queue := start;
    assert Extend(alive, v) == alive;
    while queue != []
      invariant j <= |Queued(start, v)| && queue == Queued(start, v)[j..]
      invariant InRound(ns, k, start, j, v)
      invariant alive' == Extend(alive, v) && followNext == v.follow
      decreases all - PathsOf(Queued(start, v)[..j])
    {
      var (d, p) := queue[0];
      assert Queued(start, v)[j] == (d, p);
      QueueFits(ns, k, start, j, v);
      queue := queue[1..];
      var found, names := VisitDir(fs, d, p);
      SearchStep(ns, k, start, all, j, v, names);
      PopPush(Queued(start, v), j, found.subs);
      ExtendPlus(alive, v, found);
      alive' := Extend(alive', found);
      followNext := followNext + found.follow;
      queue := queue + found.subs;
      v := Plus(v, found);
      j := j + 1;
    }
    RoundEnds(ns, k, start, v);
  }

  lemma ExtendPlus(a: AliveNodes, v: Visit, w: Visit)
    ensures Extend(Extend(a, v), w) == Extend(a, Plus(v, w))
  {
    var x, y := Extend(Extend(a, v), w), Extend(a, Plus(v, w));
    assert x.dirs == y.dirs && x.files == y.files && x.filesSymlinked == y.filesSymlinked && x.symlinks == y.symlinks;
  }

  /**
   The alive nodes: exactly what is reached over at most one symlink to a directory, each path once. The
   source sorts the lists at the end, so their order means nothing.
   */
  method AliveSearch(fs: AbstractFS) returns (alive: AliveNodes)
    requires Searchable(fs.Ns())
    ensures Lists(fs.Ns(), alive, 2) && NoRepeats(alive)
  {
    ghost var ns := fs.Ns();
    var queue: seq<Item> := [(ROOT, "/")];
    alive := JUST_ROOT;
    FirstStarts(ns);
    var round := 0;
    while round < MAX_SYMLINK_FOLLOW
      invariant 0 <= round <= MAX_SYMLINK_FOLLOW
      invariant Starts(ns, round, queue)
      invariant Lists(ns, alive, round) && NoRepeats(alive)
    {
      ghost var v: Visit;
      ghost var before := alive;
      alive, queue, v := AliveFollowOnce(fs, alive, queue, round);
      NextStarts(ns, round, v);
      ListsGrow(ns, before, round, v);
      NoRepeatsGrow(ns, before, round, v);
      round := round + 1;
    }
  }
}
