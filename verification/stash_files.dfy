/**
 The file moves of the Cloudflare build wrapper (aituber-kit/scripts/build-cloudflare.js) as atomic
 operations, what a run does with them, and what is left wherever a run is killed.
 */
module StashFiles {
  import opened Prelude

  // A path below public/, by its components.
  type Path = seq<string>

  datatype Content = Content(data: string, size: nat)

  // The files below public/ and below .public-stash/, and whether the latter directory exists.
  datatype Fs = Fs(public: map<Path, Content>, stash: map<Path, Content>, stashDir: bool)

  datatype Op =
    | MakeStashDir
    | Stash(path: Path)    // rename from public/ to .public-stash/
    | Unstash(path: Path)  // rename from .public-stash/ to public/
    | DropStash            // remove .public-stash/ with all that is in it

  const MAX_SIZE: nat := 25 * 1024 * 1024

  predicate NonAscii(part: string) {
    exists i :: 0 <= i < |part| && part[i] > '\U{007F}'
  }

  function Apply(fs: Fs, op: Op): Fs {
    match op
    case MakeStashDir => fs.(stashDir := true)
    case Stash(p) =>
      if p in fs.public then fs.(public := fs.public - {p}, stash := fs.stash[p := fs.public[p]]) else fs
    case Unstash(p) =>
      if p in fs.stash then fs.(public := fs.public[p := fs.stash[p]], stash := fs.stash - {p}) else fs
    case DropStash => fs.(stash := map[], stashDir := false)
  }

  function ApplyAll(fs: Fs, ops: seq<Op>): Fs {
    if ops == [] then fs else Apply(ApplyAll(fs, ops[..|ops| - 1]), ops[|ops| - 1])
  }

  lemma {:induction false} ApplyAppend(fs: Fs, a: seq<Op>, b: seq<Op>)
    ensures ApplyAll(fs, a + b) == ApplyAll(ApplyAll(fs, a), b)
  {
    if b == [] {
      assert a + b == a;
    } else {
      ApplyAppend(fs, a, b[..|b| - 1]);
      assert (a + b)[..|a + b| - 1] == a + b[..|b| - 1];
    }
  }

  // ---------- What one run does ----------

  /** Which listed files are moved away: ignored ones always, tracked ones if their name or size is a problem. */
  predicate Picks(fs: Fs, p: Path, tracked: bool) {
    p in fs.public && (tracked ==> (exists i :: 0 <= i < |p| && NonAscii(p[i])) || fs.public[p].size > MAX_SIZE)
  }

  /** The operations for the listed lines, in order. */
  function StashOps(fs: Fs, lines: seq<Path>, tracked: bool): seq<Op> {
    if lines == [] then []
    else
      var before, p := StashOps(fs, lines[..|lines| - 1], tracked), lines[|lines| - 1];
      if Picks(ApplyAll(fs, before), p, tracked) then before + [MakeStashDir, Stash(p)] else before
  }

  /** Restoring the files in the given order, then removing the stash directory. */
  function RestoreOps(order: seq<Path>): (ops: seq<Op>)
    ensures |ops| == |order| + 1
  {
    seq(|order|, i requires 0 <= i < |order| => Unstash(order[i])) + [DropStash]
  }

  // What the outside world decides for one run: the lines git lists for the two questions (as far
  // as they are processed), and the orders in which directories are read while restoring.
  datatype World = World(ignored: seq<Path>, tracked: seq<Path>, order1: seq<Path>, order2: seq<Path>)

  function Repair(fs: Fs, w: World): seq<Op> {
    if fs.stashDir then RestoreOps(w.order1) else []
  }

  function StashingOf(fs: Fs, w: World): seq<Op> {
    var first := StashOps(fs, w.ignored, false);
    first + StashOps(ApplyAll(fs, first), w.tracked, true)
  }

  /** All operations of one run that is not killed. The flag isRestoring is never reset: a repair uses it up. */
  function RunOps(fs: Fs, w: World): seq<Op> {
    var stashing := StashingOf(ApplyAll(fs, Repair(fs, w)), w);
    Repair(fs, w) + stashing + if stashing != [] && !fs.stashDir then RestoreOps(w.order2) else []
  }

  ghost predicate Lists(order: seq<Path>, stash: map<Path, Content>) {
    Distinct(order) && forall p :: p in order <==> p in stash
  }

  /** The reading orders list exactly what is there to be restored. */
  ghost predicate Consistent(fs: Fs, w: World) {
    var fs1 := ApplyAll(fs, Repair(fs, w));
    var fs2 := ApplyAll(fs1, StashingOf(fs1, w));
    Lists(w.order1, fs.stash) && Lists(w.order2, fs2.stash)
  }

  // ---------- Nothing is lost ----------

  ghost predicate Disjoint(fs: Fs) {
    && fs.public.Keys !! fs.stash.Keys
    && (!fs.stashDir ==> fs.stash == map[])
  }

  function AllFiles(fs: Fs): map<Path, Content> {
    fs.public + fs.stash
  }

  /** An operation that overwrites nothing and drops nothing. */
  ghost predicate Safe(fs: Fs, op: Op) {
    match op
    case MakeStashDir => true
    case Stash(p) => p in fs.public && p !in fs.stash && fs.stashDir
    case Unstash(p) => p in fs.stash && p !in fs.public
    case DropStash => fs.stash == map[]
  }

  ghost predicate SafeAll(fs: Fs, ops: seq<Op>) {
    forall n :: 0 <= n < |ops| ==> Safe(ApplyAll(fs, ops[..n]), ops[n])
  }

  lemma SafeKeeps(fs: Fs, op: Op)
    requires Disjoint(fs) && Safe(fs, op)
    ensures Disjoint(Apply(fs, op)) && AllFiles(Apply(fs, op)) == AllFiles(fs)
  {
  }

  /** Wherever a safe list of operations is cut off, every file is in exactly one place, with its content. */
  lemma {:induction false} SafeAllKeeps(fs: Fs, ops: seq<Op>, n: nat)
    requires Disjoint(fs) && SafeAll(fs, ops) && n <= |ops|
    ensures Disjoint(ApplyAll(fs, ops[..n])) && AllFiles(ApplyAll(fs, ops[..n])) == AllFiles(fs)
  {
    if n > 0 {
      SafeAllKeeps(fs, ops, n - 1);
      assert ops[..n][..n - 1] == ops[..n - 1];
      SafeKeeps(ApplyAll(fs, ops[..n - 1]), ops[n - 1]);
    }
  }

  lemma {:induction false} SafeAppend(fs: Fs, a: seq<Op>, b: seq<Op>)
    requires SafeAll(fs, a) && SafeAll(ApplyAll(fs, a), b)
    ensures SafeAll(fs, a + b)
  {
    forall n | 0 <= n < |a + b|
      ensures Safe(ApplyAll(fs, (a + b)[..n]), (a + b)[n])
    {
      if n < |a| {
        assert (a + b)[..n] == a[..n];
      } else {
        assert (a + b)[..n] == a + b[..n - |a|];
        ApplyAppend(fs, a, b[..n - |a|]);
      }
    }
  }

  // ---------- Restoring ----------

  /** After the first n files of the order, exactly those have moved. */
  lemma {:induction false} RestoringState(fs: Fs, order: seq<Path>, n: nat)
    requires Disjoint(fs) && Lists(order, fs.stash) && n <= |order|
    ensures var fs' := ApplyAll(fs, RestoreOps(order)[..n]);
            && (forall p :: p in fs'.stash <==> p in fs.stash && p !in order[..n])
            && Disjoint(fs') && AllFiles(fs') == AllFiles(fs)
  {
    var ops := RestoreOps(order);
    if n > 0 {
      var before, last := ApplyAll(fs, ops[..n - 1]), order[n - 1];
      RestoringState(fs, order, n - 1);
      OneMore(ops, n - 1);
      OneMore(order, n - 1);
      assert ops[n - 1] == Unstash(last);
      assert last in order && last !in order[..n - 1];
      SafeKeeps(before, Unstash(last));
      assert Apply(before, Unstash(last)).stash == before.stash - {last};
    }
  }

  /** Restoring puts everything back, is safe throughout, and leaves no stash directory. */
  lemma {:induction false} RestoreExact(fs: Fs, order: seq<Path>)
    requires Disjoint(fs) && Lists(order, fs.stash)
    ensures SafeAll(fs, RestoreOps(order))
    ensures ApplyAll(fs, RestoreOps(order)) == Fs(AllFiles(fs), map[], false)
  {
    var ops := RestoreOps(order);
    assert order[..|order|] == order;
    forall n | 0 <= n < |ops|
      ensures Safe(ApplyAll(fs, ops[..n]), ops[n])
    {
      RestoringState(fs, order, n);
      if n < |order| {
        assert order[n] in order && order[n] !in order[..n];
      } else {
        assert ApplyAll(fs, ops[..n]).stash.Keys == {};
      }
    }
    RestoringState(fs, order, |order|);
    var before := ApplyAll(fs, ops[..|order|]);
    assert before.stash.Keys == {};
    assert before.stash == map[] && before.public == AllFiles(fs);
  }

  // ---------- Stashing ----------

  /** Stashing the listed files moves exactly the picked ones, and is safe throughout. */
  lemma {:induction false} StashingExact(fs: Fs, lines: seq<Path>, tracked: bool)
    requires Disjoint(fs)
    ensures var ops := StashOps(fs, lines, tracked);
            var fs' := ApplyAll(fs, ops);
            && SafeAll(fs, ops) && Disjoint(fs') && AllFiles(fs') == AllFiles(fs)
            && (forall p :: p in fs'.stash <==> p in fs.stash || (p in lines && Picks(fs, p, tracked)))
            && (forall p :: p in fs'.public <==> p in fs.public && !(p in lines && Picks(fs, p, tracked)))
            && (ops != [] <==> exists p :: p in lines && Picks(fs, p, tracked))
            && (fs'.stashDir <==> fs.stashDir || ops != [])
  {
    if lines != [] {
      var init, p := lines[..|lines| - 1], lines[|lines| - 1];
      StashingExact(fs, init, tracked);
      assert lines == init + [p];
      var before := StashOps(fs, init, tracked);
      var fs1 := ApplyAll(fs, before);
      KeptContent(fs, fs1);
      assert Picks(fs1, p, tracked) <==> Picks(fs, p, tracked) && p !in init;
      if Picks(fs1, p, tracked) {
        StashOneSafe(fs1, p);
        SafeAppend(fs, before, [MakeStashDir, Stash(p)]);
        ApplyAppend(fs, before, [MakeStashDir, Stash(p)]);
      }
    }
  }

  lemma KeptContent(fs: Fs, fs': Fs)
    requires Disjoint(fs) && Disjoint(fs') && AllFiles(fs') == AllFiles(fs)
    ensures forall p :: p in fs'.public && p in fs.public ==> fs'.public[p] == fs.public[p]
  {
    forall p | p in fs'.public && p in fs.public
      ensures fs'.public[p] == fs.public[p]
    {
      assert AllFiles(fs')[p] == AllFiles(fs)[p];
    }
  }

  lemma {:induction false} StashOneSafe(fs: Fs, p: Path)
    requires Disjoint(fs) && p in fs.public
    ensures SafeAll(fs, [MakeStashDir, Stash(p)])
    ensures ApplyAll(fs, [MakeStashDir, Stash(p)]) ==
            Fs(fs.public - {p}, fs.stash[p := fs.public[p]], true)
    ensures AllFiles(ApplyAll(fs, [MakeStashDir, Stash(p)])) == AllFiles(fs)
  {
    var ops := [MakeStashDir, Stash(p)];
    assert ops[..0] == [] && ops[..1] == [MakeStashDir] && ops[..1][..0] == [];
    SafeKeeps(fs.(stashDir := true), Stash(p));
  }

  /** The files a run keeps out of the deployment. */
  ghost predicate Selected(fs: Fs, w: World, p: Path) {
    p in fs.public && (p in w.ignored || (p in w.tracked && Picks(fs, p, true)))
  }

  lemma StashesIfSelected(fs: Fs, w: World)
    requires Disjoint(fs) && fs.stash == map[]
    ensures StashingOf(fs, w) != [] <==> exists p :: Selected(fs, w, p)
  {
    var first := StashOps(fs, w.ignored, false);
    var fs1 := ApplyAll(fs, first);
    StashingExact(fs, w.ignored, false);
    StashingExact(fs1, w.tracked, true);
    KeptContent(fs, fs1);
    var second := StashOps(fs1, w.tracked, true);
    if first != [] {
      var p :| p in w.ignored && Picks(fs, p, false);
      assert Selected(fs, w, p);
    } else if second != [] {
      var p :| p in w.tracked && Picks(fs1, p, true);
      assert Selected(fs, w, p);
    }
    forall p | Selected(fs, w, p)
      ensures first + second != []
    {
      if p in w.ignored {
        assert Picks(fs, p, false);
      } else if p in fs1.public {
        assert Picks(fs1, p, true);
      }
    }
  }

  lemma {:induction false} StashingSafe(fs: Fs, w: World)
    requires Disjoint(fs)
    ensures var first := StashOps(fs, w.ignored, false);
            var fs1 := ApplyAll(fs, first);
            var fs2 := ApplyAll(fs1, StashOps(fs1, w.tracked, true));
            && SafeAll(fs, StashingOf(fs, w)) && ApplyAll(fs, StashingOf(fs, w)) == fs2
            && Disjoint(fs1) && AllFiles(fs1) == AllFiles(fs) && Disjoint(fs2) && AllFiles(fs2) == AllFiles(fs)
            && (fs2.stashDir <==> fs.stashDir || StashingOf(fs, w) != [])
  {
    var first := StashOps(fs, w.ignored, false);
    var fs1 := ApplyAll(fs, first);
    StashingExact(fs, w.ignored, false);
    StashingExact(fs1, w.tracked, true);
    SafeAppend(fs, first, StashOps(fs1, w.tracked, true));
    ApplyAppend(fs, first, StashOps(fs1, w.tracked, true));
  }

  /** While the build runs, the stash holds exactly the selected files and public/ exactly the others. */
  lemma {:induction false} StashedForBuild(fs: Fs, w: World)
    requires Disjoint(fs) && fs.stash == map[]
    ensures var fs' := ApplyAll(fs, StashingOf(fs, w));
            && SafeAll(fs, StashingOf(fs, w)) && Disjoint(fs') && AllFiles(fs') == AllFiles(fs)
            && (forall p :: p in fs'.stash <==> Selected(fs, w, p))
            && (forall p :: p in fs'.public <==> p in fs.public && !Selected(fs, w, p))
            && (fs'.stashDir <==> fs.stashDir || StashingOf(fs, w) != [])
  {
    var fs1 := ApplyAll(fs, StashOps(fs, w.ignored, false));
    var fs' := ApplyAll(fs, StashingOf(fs, w));
    StashingSafe(fs, w);
    KeptContent(fs, fs1);
    forall p
      ensures p in fs'.stash <==> Selected(fs, w, p)
      ensures p in fs'.public <==> p in fs.public && !Selected(fs, w, p)
    {
      StashingExact(fs, w.ignored, false);
      StashingExact(fs1, w.tracked, true);
      assert Picks(fs, p, false) <==> p in fs.public;
      assert p in fs1.public ==> (Picks(fs1, p, true) <==> Picks(fs, p, true));
    }
  }

  /**
   While the build runs, the stash holds the ignored files and those tracked ones that are larger than 25 MiB
   or have a character outside ASCII somewhere in their path, with their contents; the others stay in public/.
   */
  lemma {:induction false} StashHolds(fs: Fs, w: World)
    requires Disjoint(fs) && fs.stash == map[]
    ensures var fs' := ApplyAll(fs, StashingOf(fs, w));
            && fs'.public.Keys !! fs'.stash.Keys && fs'.public + fs'.stash == fs.public
            && forall p :: p in fs'.stash
                           <==> && p in fs.public
                                && (p in w.ignored
                                    || (&& p in w.tracked
                                        && (fs.public[p].size > 26214400
                                            || exists part, c :: part in p && c in part && c as int > 127)))
  {
    StashedForBuild(fs, w);
    var fs' := ApplyAll(fs, StashingOf(fs, w));
    assert AllFiles(fs) == fs.public;
    forall p | p in fs.public
      ensures (exists i :: 0 <= i < |p| && NonAscii(p[i]))
              <==> exists part, c :: part in p && c in part && c as int > 127
    {
      NonAsciiPath(p);
    }
  }

  lemma NonAsciiPath(p: Path)
    ensures (exists i :: 0 <= i < |p| && NonAscii(p[i]))
            <==> exists part, c :: part in p && c in part && c as int > 127
  {
    if i :| 0 <= i < |p| && NonAscii(p[i]) {
      var j :| 0 <= j < |p[i]| && p[i][j] > '\U{007F}';
      assert p[i] in p && p[i][j] in p[i] && p[i][j] as int > 127;
    }
    forall part, c | part in p && c in part && c as int > 127
      ensures exists i :: 0 <= i < |p| && NonAscii(p[i])
    {
      var i :| 0 <= i < |p| && p[i] == part;
      assert NonAscii(p[i]);
    }
  }

  // ---------- Whole runs ----------

  /** The state in which a run does its stashing: everything in public/. */
  function Repaired(fs: Fs): Fs {
    Fs(AllFiles(fs), map[], false)
  }

  lemma RepairedFiles(fs: Fs)
    ensures AllFiles(Repaired(fs)) == AllFiles(fs) && Disjoint(Repaired(fs))
  {
  }

  lemma {:induction false} RepairExact(fs: Fs, w: World)
    requires Disjoint(fs) && Lists(w.order1, fs.stash)
    ensures SafeAll(fs, Repair(fs, w)) && ApplyAll(fs, Repair(fs, w)) == Repaired(fs)
  {
    if fs.stashDir {
      RestoreExact(fs, w.order1);
    }
  }

  lemma {:induction false} RunSafe(fs: Fs, w: World)
    requires Disjoint(fs) && Consistent(fs, w)
    ensures SafeAll(fs, RunOps(fs, w))
    ensures var fs2 := ApplyAll(Repaired(fs), StashingOf(Repaired(fs), w));
            ApplyAll(fs, RunOps(fs, w)) ==
            if StashingOf(Repaired(fs), w) != [] && !fs.stashDir then Repaired(fs) else fs2
  {
    RepairExact(fs, w);
    var stashing := StashingOf(Repaired(fs), w);
    var fs2 := ApplyAll(Repaired(fs), stashing);
    StashedForBuild(Repaired(fs), w);
    SafeAppend(fs, Repair(fs, w), stashing);
    ApplyAppend(fs, Repair(fs, w), stashing);
    if stashing != [] && !fs.stashDir {
      RestoreExact(fs2, w.order2);
      SafeAppend(fs, Repair(fs, w) + stashing, RestoreOps(w.order2));
      ApplyAppend(fs, Repair(fs, w) + stashing, RestoreOps(w.order2));
    } else {
      assert RunOps(fs, w) == Repair(fs, w) + stashing;
    }
  }

  /**
   A run that is not killed ends with every file back in public/ and no stash, exactly if it found no
   leftover stash or had nothing to stash.
   */
  lemma {:induction false} RunRestores(fs: Fs, w: World)
    requires Disjoint(fs) && Consistent(fs, w)
    ensures ApplyAll(fs, RunOps(fs, w)) == Fs(AllFiles(fs), map[], false)
            <==> !fs.stashDir || !exists p :: Selected(Repaired(fs), w, p)
  {
    RunSafe(fs, w);
    StashedForBuild(Repaired(fs), w);
    StashesIfSelected(Repaired(fs), w);
  }

  /** A run that repairs a leftover stash leaves its own stash behind, and so does every run after it. */
  lemma {:induction false} LeftoverPersists(fs: Fs, w: World)
    requires Disjoint(fs) && Consistent(fs, w) && fs.stashDir && exists p :: Selected(Repaired(fs), w, p)
    ensures var fs' := ApplyAll(fs, RunOps(fs, w));
            && fs'.stashDir && Repaired(fs') == Repaired(fs)
            && forall p :: p in fs'.stash <==> Selected(Repaired(fs), w, p)
  {
    RunSafe(fs, w);
    RepairedFiles(fs);
    StashesIfSelected(Repaired(fs), w);
    assert StashingOf(Repaired(fs), w) != [];
    StashedForBuild(Repaired(fs), w);
  }

  // ---------- Runs killed anywhere ----------

  // A run with the number of operations it got to.
  datatype Killed = Killed(world: World, ops: nat)

  function AfterRuns(fs: Fs, runs: seq<Killed>): Fs {
    if runs == [] then fs
    else
      var before, last := AfterRuns(fs, runs[..|runs| - 1]), runs[|runs| - 1];
      var ops := RunOps(before, last.world);
      ApplyAll(before, if last.ops <= |ops| then ops[..last.ops] else ops)
  }

  ghost predicate AllConsistent(fs: Fs, runs: seq<Killed>) {
    runs != [] ==>
      && AllConsistent(fs, runs[..|runs| - 1])
      && Consistent(AfterRuns(fs, runs[..|runs| - 1]), runs[|runs| - 1].world)
  }

  lemma CutRunKeeps(fs: Fs, w: World, n: nat)
    requires Disjoint(fs) && Consistent(fs, w)
    ensures var ops := RunOps(fs, w);
            var fs' := ApplyAll(fs, if n <= |ops| then ops[..n] else ops);
            Disjoint(fs') && AllFiles(fs') == AllFiles(fs)
  {
    var ops := RunOps(fs, w);
    RunSafe(fs, w);
    SafeAllKeeps(fs, ops, if n <= |ops| then n else |ops|);
    assert ops[..|ops|] == ops;
  }

  /** After any number of runs, each killed after any operation, every file is in exactly one place, unchanged. */
  lemma {:induction false} FilesConserved(fs: Fs, runs: seq<Killed>)
    requires Disjoint(fs) && AllConsistent(fs, runs)
    ensures Disjoint(AfterRuns(fs, runs)) && AllFiles(AfterRuns(fs, runs)) == AllFiles(fs)
  {
    if runs != [] {
      var init := runs[..|runs| - 1];
      FilesConserved(fs, init);
      CutRunKeeps(AfterRuns(fs, init), runs[|runs| - 1].world, runs[|runs| - 1].ops);
    }
  }

  /** Whatever happened before, one more run that is not killed and has nothing to stash puts everything back. */
  lemma {:induction false} RepairAfterKills(fs: Fs, runs: seq<Killed>, w: World)
    requires Disjoint(fs) && AllConsistent(fs, runs)
    requires Consistent(AfterRuns(fs, runs), w)
    requires !exists p :: Selected(Repaired(AfterRuns(fs, runs)), w, p)
    ensures ApplyAll(AfterRuns(fs, runs), RunOps(AfterRuns(fs, runs), w)) == Fs(AllFiles(fs), map[], false)
  {
    FilesConserved(fs, runs);
    RunRestores(AfterRuns(fs, runs), w);
  }
}
