/** The Cloudflare build wrapper as it runs (aituber-kit/scripts/build-cloudflare.js). */
module BuildWrapper {
  import opened Prelude
  import opened StashFiles

  /** Some file lies below the directory. */
  ghost predicate HasFile(files: set<Path>, dir: Path) {
    exists p :: p in files && dir < p
  }

  /** Every directory's parents, and every file's directories, are there. */
  ghost predicate Housed(dirs: set<Path>, files: set<Path>) {
    && (forall d, n :: d in dirs && 0 <= n < |d| ==> d[..n] in dirs)
    && (forall p, n :: p in files && 0 <= n < |p| ==> p[..n] in dirs)
  }

  /** The directories without those at or below `dir` that have no file below them. */
  ghost function Pruned(dirs: set<Path>, files: set<Path>, dir: Path): set<Path> {
    set d | d in dirs && (dir <= d ==> HasFile(files, d))
  }

  lemma PrunedExactly(dirs: set<Path>, files: set<Path>, dir: Path)
    ensures forall d :: d in Pruned(dirs, files, dir)
                        <==> d in dirs && (dir <= d ==> exists p :: p in files && d < p)
  {
  }

  ghost function Below(dirs: set<Path>, dir: Path): set<Path> {
    set d | d in dirs && dir <= d
  }

  lemma PrefixTrans(a: Path, b: Path, c: Path)
    requires a <= b && b <= c
    ensures a <= c
  {
  }

  lemma PruneHoused(dirs: set<Path>, files: set<Path>, dir: Path)
    requires Housed(dirs, files)
    ensures Housed(Pruned(dirs, files, dir), files)
  {
    var kept := Pruned(dirs, files, dir);
    forall d, n | d in kept && 0 <= n < |d|
      ensures d[..n] in kept
    {
      if dir <= d[..n] {
        PrefixTrans(dir, d[..n], d);
        var p :| p in files && d < p;
        assert d[..n] < p;
      }
    }
    forall p, n | p in files && 0 <= n < |p|
      ensures p[..n] in kept
    {
      assert p[..n] < p;
    }
  }

  /** Pruning below one more subdirectory, when those in `done` have been pruned already. */
  ghost function PartlyPruned(dirs: set<Path>, files: set<Path>, dir: Path, done: set<Path>): set<Path> {
    set d | d in dirs && (dir < d && d[..|dir| + 1] in done ==> HasFile(files, d))
  }

  lemma PruneOneMore(dirs: set<Path>, files: set<Path>, dir: Path, done: set<Path>, sub: Path)
    requires Housed(dirs, files) && |sub| == |dir| + 1 && dir <= sub
    ensures Pruned(PartlyPruned(dirs, files, dir, done), files, sub) == PartlyPruned(dirs, files, dir, done + {sub})
    ensures Housed(PartlyPruned(dirs, files, dir, done), files) ==>
              Housed(PartlyPruned(dirs, files, dir, done + {sub}), files)
  {
    var before := PartlyPruned(dirs, files, dir, done);
    forall d: Path | d in dirs
      ensures sub <= d <==> dir < d && d[..|dir| + 1] == sub
    {
    }
    if Housed(before, files) {
      PruneHoused(before, files, sub);
    }
  }

  predicate ChildOf(d: Path, dir: Path) {
    |d| == |dir| + 1 && dir <= d
  }

  lemma LeftEmpty(dirs: set<Path>, files: set<Path>, dir: Path, subs: set<Path>)
    requires Housed(dirs, files) && dir in dirs
    requires subs == set d | d in dirs && ChildOf(d, dir)
    ensures var left := PartlyPruned(dirs, files, dir, subs);
            var empty := (forall d :: d in left ==> !ChildOf(d, dir)) && (forall p :: p in files ==> !ChildOf(p, dir));
            empty <==> !HasFile(files, dir)
  {
    var left := PartlyPruned(dirs, files, dir, subs);
    if HasFile(files, dir) {
      var p :| p in files && dir < p;
      var child := p[..|dir| + 1];
      assert ChildOf(child, dir);
      if child == p {
        assert ChildOf(p, dir);
      } else {
        assert child in dirs && child < p && child in subs;
        assert child in left;
      }
    } else {
      forall d | d in dirs && ChildOf(d, dir)
        ensures d !in left
      {
        assert d[..|dir| + 1] == d && d in subs;
        assert forall p :: p in files && d < p ==> dir < p;
      }
      assert forall p :: p in files && ChildOf(p, dir) ==> dir < p;
    }
  }

  /** What is left once all subdirectories are pruned is what pruning leaves, but for the directory itself. */
  lemma LeftPruned(dirs: set<Path>, files: set<Path>, dir: Path, subs: set<Path>)
    requires Housed(dirs, files) && dir in dirs
    requires subs == set d | d in dirs && ChildOf(d, dir)
    ensures var left := PartlyPruned(dirs, files, dir, subs);
            Pruned(dirs, files, dir) == if HasFile(files, dir) then left else left - {dir}
  {
    forall d | d in dirs && dir < d
      ensures d[..|dir| + 1] in subs
    {
      assert ChildOf(d[..|dir| + 1], dir);
      assert d[..|d|] == d;
    }
    var left := PartlyPruned(dirs, files, dir, subs);
    forall d | d in dirs
      ensures d in Pruned(dirs, files, dir) <==> d in if HasFile(files, dir) then left else left - {dir}
    {
      if dir <= d && d != dir {
        assert dir < d && d[..|dir| + 1] in subs;
      }
    }
  }

  /** Once all subdirectories are pruned, the directory itself is empty exactly if no file is below it. */
  lemma EmptyIffNoFile(dirs: set<Path>, files: set<Path>, dir: Path, subs: set<Path>)
    requires Housed(dirs, files) && dir in dirs
    requires subs == set d | d in dirs && ChildOf(d, dir)
    ensures var left := PartlyPruned(dirs, files, dir, subs);
            var empty := (forall d :: d in left ==> !ChildOf(d, dir)) && (forall p :: p in files ==> !ChildOf(p, dir));
            && (empty <==> !HasFile(files, dir))
            && Pruned(dirs, files, dir) == if HasFile(files, dir) then left else left - {dir}
  {
    LeftEmpty(dirs, files, dir, subs);
    LeftPruned(dirs, files, dir, subs);
  }

  class CloudflareBuild {
    var public: map<Path, Content>
    var publicDirs: set<Path>
    var stash: map<Path, Content>
    var stashDir: bool
    var isRestoring: bool
    ghost var log: seq<Op>

    ghost function Model(): Fs
      reads this
    {
      Fs(public, stash, stashDir)
    }

    ghost predicate Valid()
      reads this
    {
      Disjoint(Model()) && Housed(publicDirs, public.Keys) && [] !in public && [] !in stash
    }

    /** removeEmptyDirs: removes exactly the directories, from `dir` down, that have no file below them. */
    method RemoveEmptyDirs(dir: Path)
      requires Housed(publicDirs, public.Keys)
      modifies this`publicDirs
      ensures publicDirs == Pruned(old(publicDirs), public.Keys, dir)
      ensures Housed(publicDirs, public.Keys)
      decreases Below(publicDirs, dir)
    {
      ghost var start := publicDirs;
      PruneHoused(start, public.Keys, dir);
      if dir !in publicDirs {
        assert forall d :: d in start && dir <= d ==> d[..|dir|] == dir && (d == dir || |dir| < |d|);
        return;
      }
      var subdirs := set d | d in publicDirs && ChildOf(d, dir);
      var todo := subdirs;
      while todo != {}
        invariant todo <= subdirs
        invariant publicDirs == PartlyPruned(start, public.Keys, dir, subdirs - todo)
        invariant Housed(publicDirs, public.Keys)
        decreases todo
      {
        var sub :| sub in todo;
        assert dir in Below(start, dir) && dir !in Below(publicDirs, sub);
        assert Below(publicDirs, sub) < Below(start, dir);
        PruneOneMore(start, public.Keys, dir, subdirs - todo, sub);
        RemoveEmptyDirs(sub);
        assert subdirs - (todo - {sub}) == subdirs - todo + {sub};
        todo := todo - {sub};
      }
      assert subdirs - {} == subdirs;
      assert publicDirs == PartlyPruned(start, public.Keys, dir, subdirs);
      EmptyIffNoFile(start, public.Keys, dir, subdirs);
      assert (forall p :: p in public ==> !ChildOf(p, dir)) <==> (forall p :: p in public.Keys ==> !ChildOf(p, dir));
      if (forall d | d in publicDirs :: !ChildOf(d, dir)) && (forall p | p in public :: !ChildOf(p, dir)) {
        publicDirs := publicDirs - {dir};
      }
    }

    method MoveToStash(p: Path)
      requires Valid() && p in public
      modifies this`public, this`stash, this`stashDir, this`log
      ensures Valid() && Model() == ApplyAll(old(Model()), [MakeStashDir, Stash(p)])
      ensures log == old(log) + [MakeStashDir, Stash(p)]
    {
      StashOneSafe(Model(), p);
      stashDir := true;
      stash := stash[p := public[p]];
      public := public - {p};
      log := log + [MakeStashDir, Stash(p)];
    }

    /** One of the two loops over the lines that git lists. */
    method StashListed(lines: seq<Path>, tracked: bool) returns (stashed: seq<Path>)
      requires Valid()
      modifies this`public, this`stash, this`stashDir, this`log
      ensures Valid() && Model() == ApplyAll(old(Model()), StashOps(old(Model()), lines, tracked))
      ensures log == old(log) + StashOps(old(Model()), lines, tracked)
      ensures stashed != [] <==> StashOps(old(Model()), lines, tracked) != []
    {
      stashed := [];
      ghost var start := Model();
      for i := 0 to |lines|
        invariant Valid()
        invariant Model() == ApplyAll(start, StashOps(start, lines[..i], tracked))
        invariant log == old(log) + StashOps(start, lines[..i], tracked)
        invariant stashed != [] <==> StashOps(start, lines[..i], tracked) != []
      {
        assert lines[..i + 1][..i] == lines[..i];
        var p := lines[i];
        ApplyAppend(start, StashOps(start, lines[..i], tracked), [MakeStashDir, Stash(p)]);
        if p !in public {
          continue;
        }
        if tracked && !(exists i | 0 <= i < |p| :: NonAscii(p[i])) && public[p].size <= MAX_SIZE {
          continue;
        }
        MoveToStash(p);
        stashed := stashed + [p];
      }
      assert lines[..|lines|] == lines;
    }

    method StashAll(ignored: seq<Path>, tracked: seq<Path>, ghost w: World) returns (stashed: seq<Path>)
      requires Valid() && w.ignored == ignored && w.tracked == tracked
      modifies this`public, this`publicDirs, this`stash, this`stashDir, this`log
      ensures Valid() && Model() == ApplyAll(old(Model()), StashingOf(old(Model()), w))
      ensures log == old(log) + StashingOf(old(Model()), w)
      ensures stashed != [] <==> StashingOf(old(Model()), w) != []
      ensures publicDirs == Pruned(old(publicDirs), public.Keys, [])
      ensures forall d :: d in publicDirs <==> d in old(publicDirs) && exists p :: p in public && d < p
    {
      ghost var start := Model();
      var gitignored := StashListed(ignored, false);
      var problematic := StashListed(tracked, true);
      stashed := gitignored + problematic;
      ghost var first := StashOps(start, ignored, false);
      ghost var second := StashOps(ApplyAll(start, first), tracked, true);
      ApplyAppend(start, first, second);
      Regroup(old(log), first, second);
      PrunedExactly(publicDirs, public.Keys, []);
      RemoveEmptyDirs([]);
    }

    /** Renaming a file back, after creating the directories above it. */
    method MoveToPublic(p: Path)
      requires Valid() && p in stash
      modifies this`public, this`publicDirs, this`stash, this`log
      ensures Valid() && Model() == Apply(old(Model()), Unstash(p)) && log == old(log) + [Unstash(p)]
    {
      SafeKeeps(Model(), Unstash(p));
      ghost var before := publicDirs;
      publicDirs := publicDirs + set n | 0 <= n < |p| :: p[..n];
      forall d, n | d in publicDirs && 0 <= n < |d|
        ensures d[..n] in publicDirs
      {
        if d !in before {
          var m :| 0 <= m < |p| && d == p[..m];
          assert d[..n] == p[..n];
        }
      }
      public := public[p := stash[p]];
      stash := stash - {p};
      log := log + [Unstash(p)];
    }

    /** Removing the emptied stash directory. */
    method RemoveStashDir()
      requires Valid() && stash == map[]
      modifies this`stash, this`stashDir, this`log
      ensures Valid() && Model() == Apply(old(Model()), DropStash) && log == old(log) + [DropStash]
    {
      stash := map[];
      stashDir := false;
      log := log + [DropStash];
    }

    /** restoreStash; `order` is the order in which the directories are read. */
    method RestoreStash(order: seq<Path>) returns (count: nat)
      requires Valid() && (stashDir && !isRestoring ==> Lists(order, stash))
      modifies this
      ensures Valid() && isRestoring
      ensures Model() == ApplyAll(old(Model()), Restoring(old(isRestoring), old(stashDir), order))
      ensures log == old(log) + Restoring(old(isRestoring), old(stashDir), order)
      ensures count == if old(isRestoring) || !old(stashDir) then 0 else |order|
    {
      count := 0;
      if isRestoring {
        return;
      }
      isRestoring := true;
      if !stashDir {
        return;
      }
      ghost var start, ops := Model(), RestoreOps(order);
      for i := 0 to |order|
        invariant Valid() && isRestoring && count == i
        invariant Model() == ApplyAll(start, ops[..i]) && log == old(log) + ops[..i]
      {
        RestoreStep(start, order, i);
        MoveToPublic(order[i]);
        count := count + 1;
      }
      RestoreLast(start, order);
      RemoveStashDir();
    }

    /**
     A whole run. `w` holds what the outside world decides, `buildThrows` whether the build fails; the
     build itself is taken not to touch the files. It sees the files `during`: no ignored one, none larger
     than 25 MiB and none with a character outside ASCII in its path.
     */
    method Run(w: World, buildThrows: bool) returns (threw: bool, ghost during: Fs)
      requires Valid() && !isRestoring && Consistent(Model(), w)
      modifies this
      ensures Valid() && threw == buildThrows
      ensures Model() == ApplyAll(old(Model()), RunOps(old(Model()), w)) && log == old(log) + RunOps(old(Model()), w)
      ensures during.public.Keys !! during.stash.Keys
      ensures during.public + during.stash == old(public + stash)
      ensures forall p :: p in during.stash
                          <==> && p in old(public + stash)
                               && (p in w.ignored
                                   || (&& p in w.tracked
                                       && (old(public + stash)[p].size > 26214400
                                           || exists part, c :: part in p && c in part && c as int > 127)))
    {
      ghost var start := Model();
      RunParts(start, w);
      RepairExact(start, w);
      if stashDir {
        var restored := RestoreStash(w.order1);
      }
      ghost var repair := Restoring(false, start.stashDir, w.order1);
      assert log == old(log) + repair && isRestoring == start.stashDir;
      assert Model() == ApplyAll(start, repair);
      StashHolds(Model(), w);
      var stashed := StashAll(w.ignored, w.tracked, w);
      threw, during := buildThrows, Model();
      ghost var stashing := StashingOf(ApplyAll(start, repair), w);
      Regroup(old(log), repair, stashing);
      if |stashed| > 0 {
        Regroup(old(log), repair + stashing, Restoring(isRestoring, stashDir, w.order2));
        var restored := RestoreStash(w.order2);
      } else {
        assert repair + stashing + [] == repair + stashing;
      }
    }
  }

  function Restoring(isRestoring: bool, stashDir: bool, order: seq<Path>): seq<Op> {
    if isRestoring || !stashDir then [] else RestoreOps(order)
  }

  lemma {:induction false} RestoreStep(start: Fs, order: seq<Path>, i: nat)
    requires Disjoint(start) && Lists(order, start.stash) && i < |order|
    ensures var ops := RestoreOps(order);
            && order[i] in ApplyAll(start, ops[..i]).stash
            && ApplyAll(start, ops[..i + 1]) == Apply(ApplyAll(start, ops[..i]), Unstash(order[i]))
            && ops[..i + 1] == ops[..i] + [Unstash(order[i])]
  {
    var ops := RestoreOps(order);
    OneMore(ops, i);
    assert ops[i] == Unstash(order[i]);
    RestoringState(start, order, i);
    NotBefore(order, i);
  }

  lemma NotBefore(order: seq<Path>, i: nat)
    requires Distinct(order) && i < |order|
    ensures order[i] in order && order[i] !in order[..i]
  {
  }

  lemma {:induction false} RestoreLast(start: Fs, order: seq<Path>)
    requires Disjoint(start) && Lists(order, start.stash)
    ensures var ops := RestoreOps(order);
            && ApplyAll(start, ops[..|order|]).stash == map[]
            && ApplyAll(start, ops) == Apply(ApplyAll(start, ops[..|order|]), DropStash)
            && ops == ops[..|order|] + [DropStash]
  {
    var ops := RestoreOps(order);
    RestoreExact(start, order);
    assert ops[..|order|] + [DropStash] == ops && ops[..|ops| - 1] == ops[..|order|];
    assert Safe(ApplyAll(start, ops[..|order|]), ops[|order|]);
  }

  /** The three parts of a run's operations and the states between them. */
  lemma {:induction false} RunParts(start: Fs, w: World)
    requires Disjoint(start) && Consistent(start, w)
    ensures var repair := Restoring(false, start.stashDir, w.order1);
            var fs1 := ApplyAll(start, repair);
            var stashing := StashingOf(fs1, w);
            var fs2 := ApplyAll(fs1, stashing);
            var rest := if stashing != [] then Restoring(start.stashDir, fs2.stashDir, w.order2) else [];
            && RunOps(start, w) == repair + stashing + rest
            && ApplyAll(start, RunOps(start, w)) == ApplyAll(fs2, rest)
            && Lists(w.order1, start.stash) && Lists(w.order2, fs2.stash)
  {
    var repair, stashing := Repair(start, w), StashingOf(Repaired(start), w);
    RepairExact(start, w);
    RepairedFiles(start);
    StashedForBuild(Repaired(start), w);
    var fs2 := ApplyAll(Repaired(start), stashing);
    var rest := if stashing != [] then Restoring(start.stashDir, fs2.stashDir, w.order2) else [];
    ApplyAppend(start, repair, stashing);
    ApplyAppend(start, repair + stashing, rest);
  }
}
