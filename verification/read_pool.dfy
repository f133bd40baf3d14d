/**
 The pool of file-reading workers of the temporary-path guardrail (readRuntimeSourceFiles in
 openclaw/scripts/check-temp-path-guardrails.ts) under every interleaving of the workers.
 */
module ReadPool {
  import opened Prelude

  datatype SourceFile = SourceFile(relativePath: string, source: string)

  // What the run reads: the paths, the file system (None for a file that cannot be read) and
  // path.relative for the repository's root.
  datatype Job = Job(paths: seq<string>, read: string -> Option<string>, relative: string -> string)

  // A worker is about to claim an index, waits for the file at an index, or has returned.
  datatype Worker = Ready | Reading(index: nat) | Finished

  datatype State = State(workers: seq<Worker>, nextIndex: nat, output: seq<Option<SourceFile>>)

  const FILE_READ_CONCURRENCY := 24

  /** What the file at an index contributes: nothing if its path is empty or it cannot be read. */
  function Entry(job: Job, i: nat): Option<SourceFile>
    requires i < |job.paths|
  {
    var path := job.paths[i];
    if path == "" then None
    else match job.read(path)
         case None => None
         case Some(source) => Some(SourceFile(job.relative(path), source))
  }

  /** The entries of the first n paths that there are, in order. */
  function Readable(job: Job, n: nat): seq<SourceFile>
    requires n <= |job.paths|
  {
    if n == 0 then []
    else Readable(job, n - 1) + if Entry(job, n - 1).Some? then [Entry(job, n - 1).value] else []
  }

  /** They are the files of the paths that are not empty and can be read, in the order of the paths. */
  lemma {:induction false} ReadableExact(job: Job, n: nat) returns (at: seq<nat>)
    requires n <= |job.paths|
    ensures |at| == |Readable(job, n)| && forall i, j :: 0 <= i < j < |at| ==> at[i] < at[j]
    ensures forall i :: 0 <= i < n ==> (i in at <==> job.paths[i] != "" && job.read(job.paths[i]).Some?)
    ensures forall j :: 0 <= j < |at| ==>
                          && at[j] < n && job.read(job.paths[at[j]]).Some?
                          && Readable(job, n)[j] ==
                             SourceFile(job.relative(job.paths[at[j]]), job.read(job.paths[at[j]]).value)
  {
    at := [];
    if n > 0 {
      at := ReadableExact(job, n - 1);
      if Entry(job, n - 1).Some? {
        at := at + [n - 1];
      }
    }
  }

  function Start(job: Job, workers: nat): State {
    State(seq(workers, _ => Ready), 0, seq(|job.paths|, _ => None))
  }

  predicate CanStep(s: State, w: nat) {
    w < |s.workers| && !s.workers[w].Finished?
  }

  predicate AllFinished(s: State) {
    forall w :: 0 <= w < |s.workers| ==> s.workers[w] == Finished
  }

  /** What worker w does up to the next point at which another worker can go on. */
  function Step(job: Job, s: State, w: nat): State
    requires CanStep(s, w) && |s.output| == |job.paths|
    requires s.workers[w].Reading? ==> s.workers[w].index < |job.paths|
  {
    match s.workers[w]
    case Finished => s
    case Ready =>
      var i := s.nextIndex;
      State(s.workers[w := if i >= |job.paths| then Finished else if job.paths[i] == "" then Ready else Reading(i)],
            i + 1, s.output)
    case Reading(i) =>
      State(s.workers[w := Ready], s.nextIndex,
            if Entry(job, i).Some? then s.output[i := Entry(job, i)] else s.output)
  }

  // ---------- What every interleaving keeps ----------

  predicate IsRead(s: State, i: nat) {
    exists w :: 0 <= w < |s.workers| && s.workers[w] == Reading(i)
  }

  /** Every claimed index is settled or being read by one worker; no other index has been touched. */
  ghost predicate Valid(job: Job, s: State) {
    && |s.output| == |job.paths|
    && (forall w :: 0 <= w < |s.workers| && s.workers[w].Reading? ==>
          s.workers[w].index < |job.paths| && s.workers[w].index < s.nextIndex && job.paths[s.workers[w].index] != "")
    && (forall v, w :: 0 <= v < w < |s.workers| && s.workers[v].Reading? ==> s.workers[w] != s.workers[v])
    && (forall w :: 0 <= w < |s.workers| && s.workers[w].Finished? ==> s.nextIndex >= |job.paths|)
    && (forall i :: 0 <= i < |job.paths| ==>
          s.output[i] == if i < s.nextIndex && !IsRead(s, i) then Entry(job, i) else None)
  }

  lemma StepValid(job: Job, s: State, w: nat)
    requires Valid(job, s) && CanStep(s, w)
    ensures Valid(job, Step(job, s, w))
  {
    var t := Step(job, s, w);
    forall i: nat
      ensures i != s.nextIndex && s.workers[w] != Reading(i) ==> (IsRead(t, i) <==> IsRead(s, i))
      ensures s.workers[w] == Reading(i) ==> IsRead(s, i) && !IsRead(t, i)
      ensures i == s.nextIndex ==> !IsRead(s, i) && (IsRead(t, i) <==> t.workers[w] == Reading(i))
    {
      ReadAfter(job, s, w, i);
    }
  }

  lemma ReadAfter(job: Job, s: State, w: nat, i: nat)
    requires Valid(job, s) && CanStep(s, w)
    ensures var t := Step(job, s, w);
            && (i != s.nextIndex && s.workers[w] != Reading(i) ==> (IsRead(t, i) <==> IsRead(s, i)))
            && (s.workers[w] == Reading(i) ==> IsRead(s, i) && !IsRead(t, i))
            && (i == s.nextIndex ==> !IsRead(s, i) && (IsRead(t, i) <==> t.workers[w] == Reading(i)))
  {
    var t := Step(job, s, w);
    assert t.workers[w] == t.workers[w];
    forall v | 0 <= v < |s.workers| && v != w
      ensures t.workers[v] == s.workers[v]
      ensures s.workers[w].Reading? ==> s.workers[v] != s.workers[w]
    {
    }
    if IsRead(s, i) {
      var v :| 0 <= v < |s.workers| && s.workers[v] == Reading(i);
      assert t.workers[v] == Reading(i) || v == w;
    }
    if IsRead(t, i) {
      var v :| 0 <= v < |t.workers| && t.workers[v] == Reading(i);
      assert s.workers[v] == Reading(i) || v == w;
    }
  }

  /** When every worker has returned, each index holds its own file. */
  lemma FinishedOutput(job: Job, s: State)
    requires Valid(job, s) && s.workers != [] && AllFinished(s)
    ensures forall i :: 0 <= i < |job.paths| ==> s.output[i] == Entry(job, i)
  {
    assert s.workers[0].Finished?;
  }

  /** `output.filter(entry => entry !== undefined)` */
  function Present(output: seq<Option<SourceFile>>): seq<SourceFile> {
    if output == [] then []
    else
      var last := output[|output| - 1];
      Present(output[..|output| - 1]) + if last.Some? then [last.value] else []
  }

  lemma {:induction false} PresentIsReadable(job: Job, output: seq<Option<SourceFile>>)
    requires |output| <= |job.paths| && forall i :: 0 <= i < |output| ==> output[i] == Entry(job, i)
    ensures Present(output) == Readable(job, |output|)
  {
    if output != [] {
      PresentIsReadable(job, output[..|output| - 1]);
    }
  }

  // ---------- Schedules ----------

  /** The state after the workers have gone on in the order of a schedule; None if one of them could not. */
  function Run(job: Job, s: State, schedule: seq<nat>): Option<State>
    requires Valid(job, s)
    decreases |schedule|
  {
    if schedule == [] then Some(s)
    else if !CanStep(s, schedule[0]) then None
    else
      StepValid(job, s, schedule[0]);
      Run(job, Step(job, s, schedule[0]), schedule[1..])
  }

  lemma {:induction false} RunValid(job: Job, s: State, schedule: seq<nat>)
    requires Valid(job, s) && Run(job, s, schedule).Some?
    ensures Valid(job, Run(job, s, schedule).value) && |Run(job, s, schedule).value.workers| == |s.workers|
    decreases |schedule|
  {
    if schedule != [] {
      StepValid(job, s, schedule[0]);
      RunValid(job, Step(job, s, schedule[0]), schedule[1..]);
    }
  }

  /** Any number of workers, in any order, gives the files in the order of the paths. */
  lemma {:induction false} AnyScheduleReadsAll(job: Job, workers: nat, schedule: seq<nat>)
    requires workers >= 1
    requires Run(job, Start(job, workers), schedule).Some?
    requires AllFinished(Run(job, Start(job, workers), schedule).value)
    ensures Present(Run(job, Start(job, workers), schedule).value.output) == Readable(job, |job.paths|)
  {
    var end := Run(job, Start(job, workers), schedule).value;
    RunValid(job, Start(job, workers), schedule);
    FinishedOutput(job, end);
    PresentIsReadable(job, end.output);
  }

  /** How many more steps the workers need in all, whatever their order. */
  function Remaining(job: Job, s: State): nat {
    Unclaimed(job, s.nextIndex) + Left(s.workers)
  }

  /** Steps for the unclaimed indices: one to claim each, one more to read it unless its path is empty. */
  function Unclaimed(job: Job, i: nat): nat
    decreases |job.paths| - i
  {
    if i >= |job.paths| then 0 else (if job.paths[i] == "" then 1 else 2) + Unclaimed(job, i + 1)
  }

  /** Steps to finish a read and to return. */
  function Left(workers: seq<Worker>): nat {
    if workers == [] then 0
    else Left(workers[1..]) + match workers[0] case Ready => 1 case Reading(_) => 2 case Finished => 0
  }

  lemma {:induction false} LeftUpdate(workers: seq<Worker>, w: nat, to: Worker)
    requires w < |workers|
    ensures Left(workers[w := to]) + Left([workers[w]]) == Left(workers) + Left([to])
  {
    assert forall x: Worker :: Left([x]) == Left([]) + match x case Ready => 1 case Reading(_) => 2 case Finished => 0;
    if w == 0 {
      assert workers[0 := to][1..] == workers[1..];
    } else {
      assert workers[w := to][1..] == workers[1..][w - 1 := to];
      LeftUpdate(workers[1..], w - 1, to);
    }
  }

  lemma StepCounts(job: Job, s: State, w: nat)
    requires Valid(job, s) && CanStep(s, w)
    ensures Remaining(job, Step(job, s, w)) + 1 == Remaining(job, s)
  {
    var t := Step(job, s, w);
    assert t.workers == s.workers[w := t.workers[w]];
    LeftUpdate(s.workers, w, t.workers[w]);
    assert Left([s.workers[w]]) ==
           Left([]) + match s.workers[w] case Ready => 1 case Reading(_) => 2 case Finished => 0;
    assert Left([t.workers[w]]) ==
           Left([]) + match t.workers[w] case Ready => 1 case Reading(_) => 2 case Finished => 0;
  }

  lemma {:induction false} NoneLeft(workers: seq<Worker>)
    ensures Left(workers) == 0 <==> forall w :: 0 <= w < |workers| ==> workers[w] == Finished
  {
    if workers != [] {
      NoneLeft(workers[1..]);
      assert forall w :: 1 <= w < |workers| ==> workers[w] == workers[1..][w - 1];
      assert forall w :: 0 <= w < |workers| - 1 ==> workers[1..][w] == workers[w + 1];
    }
  }

  lemma {:induction false} SomeLeft(workers: seq<Worker>) returns (w: nat)
    requires Left(workers) > 0
    ensures w < |workers| && workers[w] != Finished
  {
    if workers[0] != Finished {
      w := 0;
    } else {
      w := SomeLeft(workers[1..]);
      w := w + 1;
    }
  }

  /**
   Every schedule takes part of the same number of steps, and the workers have all returned just
   when it has taken all of them: no schedule is endless, and none gets stuck before.
   */
  lemma {:induction false} SchedulesEnd(job: Job, s: State, schedule: seq<nat>) returns (next: nat)
    requires Valid(job, s) && Run(job, s, schedule).Some?
    ensures |schedule| <= Remaining(job, s)
    ensures AllFinished(Run(job, s, schedule).value) && s.workers != [] ==> |schedule| == Remaining(job, s)
    ensures |schedule| == Remaining(job, s) ==> AllFinished(Run(job, s, schedule).value)
    ensures |schedule| < Remaining(job, s) && s.workers != [] ==> CanStep(Run(job, s, schedule).value, next)
    decreases |schedule|
  {
    next := 0;
    if schedule == [] {
      NoneLeft(s.workers);
      if s.workers != [] && Left(s.workers) > 0 {
        next := SomeLeft(s.workers);
      }
    } else {
      StepValid(job, s, schedule[0]);
      StepCounts(job, s, schedule[0]);
      next := SchedulesEnd(job, Step(job, s, schedule[0]), schedule[1..]);
    }
  }

  /** The indices that the workers claim, in the order in which they claim them. */
  function Claims(job: Job, s: State, schedule: seq<nat>): seq<nat>
    requires Valid(job, s) && Run(job, s, schedule).Some?
    decreases |schedule|
  {
    if schedule == [] then []
    else
      StepValid(job, s, schedule[0]);
      (if s.workers[schedule[0]].Ready? then [s.nextIndex] else [])
        + Claims(job, Step(job, s, schedule[0]), schedule[1..])
  }

  /** Each index is claimed once, in order, and past the last one each worker claims one more. */
  lemma {:induction false} ClaimedOnce(job: Job, s: State, schedule: seq<nat>)
    requires Valid(job, s) && Run(job, s, schedule).Some?
    ensures var end := Run(job, s, schedule).value;
            && end.nextIndex == s.nextIndex + |Claims(job, s, schedule)|
            && forall k :: 0 <= k < |Claims(job, s, schedule)| ==> Claims(job, s, schedule)[k] == s.nextIndex + k
    decreases |schedule|
  {
    if schedule != [] {
      StepValid(job, s, schedule[0]);
      ClaimedOnce(job, Step(job, s, schedule[0]), schedule[1..]);
    }
  }

  // ---------- The run itself ----------

  /** Reading by one worker for each path, but by at least one and at most 24; `started` counts them. */
  method ReadRuntimeSourceFiles(job: Job) returns (files: seq<SourceFile>, ghost started: nat)
    ensures files == Readable(job, |job.paths|)
    ensures started == if |job.paths| == 0 then 1 else if |job.paths| <= 24 then |job.paths| else 24
  {
    var n := |job.paths|;
    var count := if n < 1 then 1 else if n > FILE_READ_CONCURRENCY then FILE_READ_CONCURRENCY else n;
    var output := new Option<SourceFile>[n](_ => None);
    var workers := seq(count, _ => Ready);
    var nextIndex: nat := 0;
    ghost var s := State(workers, nextIndex, output[..]);
    assert s == Start(job, count);
    started := |workers|;
    while exists w :: 0 <= w < |workers| && !workers[w].Finished?
      invariant s == State(workers, nextIndex, output[..]) && Valid(job, s) && |workers| == count
      decreases Remaining(job, s)
    {
      var w :| 0 <= w < |workers| && !workers[w].Finished?;
      ghost var t := Step(job, s, w);
      StepValid(job, s, w);
      StepCounts(job, s, w);
      match workers[w] {
        case Ready =>
          var index := nextIndex;
          nextIndex := nextIndex + 1;
          if index >= n {
            workers := workers[w := Finished];
          } else if job.paths[index] != "" {
            workers := workers[w := Reading(index)];
          }
        case Reading(index) =>
          var source := job.read(job.paths[index]);
          if source.Some? {
            output[index] := Some(SourceFile(job.relative(job.paths[index]), source.value));
          }
          workers := workers[w := Ready];
      }
      s := State(workers, nextIndex, output[..]);
      assert s == t;
    }
    FinishedOutput(job, s);
    PresentIsReadable(job, output[..]);
    files := Present(output[..]);
  }
}
