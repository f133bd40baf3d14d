/**
 What the prompts of one locale's translation come to, given what the pi processes do: the attempts,
 retries and splits of translateBatch as a function of the outside world (openclaw/scripts/control-ui-i18n.ts).
 */
module TranslationLog {
  import opened Prelude
  import opened RpcClient
  import opened TranslationBatches
  import opened TranslationScripts

  // The outside world: what happens around each attempt, how a text is parsed, and the messages of errors.
  datatype World = World(
    around: nat -> Outside, parse: string -> Reply, message: Reason -> string, noProcess: string)

  // One attempt for some items: there was no process, or a prompt was sent on some client, counted from
  // 0; `history` is what had happened to that client when the prompt settled.
  datatype Tried =
    | NoProcess(items: seq<Item>)
    | Prompted(items: seq<Item>, client: nat, history: seq<Event>, how: Settlement)

  /** What an attempt reads: the parsed text, or the message of the error. */
  function ReplyOf(world: World, tried: Tried): Reply {
    match tried
    case NoProcess(_) => Throws(world.noProcess)
    case Prompted(_, _, _, Resolved(text)) => world.parse(text)
    case Prompted(_, _, _, Rejected(reason)) => Throws(world.message(reason))
  }

  /** What an attempt makes of it for its items. */
  function ReadOf(world: World, tried: Tried): Result<map<string, string>, string> {
    ReadReply(tried.items, ReplyOf(world, tried))
  }

  /** The history of the client that the attempts have left open; a failed attempt closes its client. */
  function Kept(world: World, log: seq<Tried>): Option<seq<Event>> {
    if log == [] then None
    else
      var last := log[|log| - 1];
      if last.Prompted? && ReadOf(world, last).Ok? then Some(last.history) else None
  }

  /** The histories of the clients that the attempts have closed. */
  function Closed(world: World, log: seq<Tried>): seq<seq<Event>> {
    if log == [] then []
    else
      var last := log[|log| - 1];
      Closed(world, log[..|log| - 1]) +
      if last.Prompted? && ReadOf(world, last).Err? then [last.history + [Close]] else []
  }

  /** The histories of all clients once the open one, if there is one, is closed too. */
  function AllClosed(world: World, log: seq<Tried>): seq<seq<Event>> {
    Closed(world, log) + if Kept(world, log).Some? then [Kept(world, log).value + [Close]] else []
  }

  /** The next attempt: on the client left open, or on a new one if a process can be started. */
  function NextTried(world: World, log: seq<Tried>, items: seq<Item>): (tried: Tried)
    ensures tried.items == items
  {
    var outside, kept := world.around(|log|), Kept(world, log);
    if kept.None? && !outside.spawns then NoProcess(items)
    else
      var history := HistoryOf(if kept.Some? then kept.value else [], outside);
      Prompted(items, |Closed(world, log)|, history, How(history))
  }

  // ---------- Batches ----------

  /** The result of a split batch, once its halves have ended. */
  function SplitResult(left: Result<map<string, string>, string>, right: Result<map<string, string>, string>)
    : Result<map<string, string>, string>
  {
    if left.Err? then left else if right.Err? then right else Ok(left.value + right.value)
  }

  /** translateBatch from a given attempt on: its result, and the attempts up to its end. */
  function RunBatch(world: World, items: seq<Item>, log: seq<Tried>, attempt: nat)
    : (out: (Result<map<string, string>, string>, seq<Tried>))
    requires attempt < TRANSLATE_MAX_ATTEMPTS
    ensures log < out.1
    decreases |items|, TRANSLATE_MAX_ATTEMPTS - attempt
  {
    var tried := NextTried(world, log, items);
    var log1, read := log + [tried], ReadOf(world, tried);
    if read.Ok? then (read, log1)
    else if IsPromptTimeoutError(read.error) && |items| > 1 then RunHalves(world, items, log1)
    else if IsPromptTimeoutError(read.error) || attempt + 1 == TRANSLATE_MAX_ATTEMPTS then (read, log1)
    else RunBatch(world, items, log1, attempt + 1)
  }

  /** The halves of a batch, the second only if the first does not throw. */
  function RunHalves(world: World, items: seq<Item>, log: seq<Tried>)
    : (out: (Result<map<string, string>, string>, seq<Tried>))
    requires |items| > 1
    ensures log < out.1
    decreases |items|, 0
  {
    var (left, log1) := RunBatch(world, items[..Midpoint(items)], log, 0);
    if left.Err? then (left, log1)
    else
      var (right, log2) := RunBatch(world, items[Midpoint(items)..], log1, 0);
      (SplitResult(left, right), log2)
  }

  /** The loop over the batches: each is translated in turn, and the first that throws ends it. */
  function RunBatches(world: World, batches: seq<seq<Item>>): (Result<map<string, string>, string>, seq<Tried>) {
    if batches == [] then (Ok(map[]), [])
    else
      var (before, log) := RunBatches(world, batches[..|batches| - 1]);
      if before.Err? then (before, log)
      else
        var (last, log') := RunBatch(world, batches[|batches| - 1], log, 0);
        (SplitResult(before, last), log')
  }

  /** A batch that throws ends the loop with its error. */
  lemma {:induction false} RunBatchesStops(world: World, batches: seq<seq<Item>>, n: nat)
    requires n <= |batches| && RunBatches(world, batches[..n]).0.Err?
    ensures RunBatches(world, batches) == RunBatches(world, batches[..n])
  {
    if n < |batches| {
      assert batches[..|batches| - 1][..n] == batches[..n];
      RunBatchesStops(world, batches[..|batches| - 1], n);
    } else {
      assert batches[..n] == batches;
    }
  }

  lemma {:induction false} RunBatchesNext(world: World, batches: seq<seq<Item>>, b: nat)
    requires b < |batches| && RunBatches(world, batches[..b]).0.Ok?
    ensures var (before, log) := RunBatches(world, batches[..b]);
            var (r, log') := RunBatch(world, batches[b], log, 0);
            RunBatches(world, batches[..b + 1]) == (SplitResult(before, r), log')
  {
    OneMore(batches, b);
  }

  // ---------- Which failures split a batch ----------

  /**
   A failure whose message holds "timed out", in small letters or capitals, is not retried: a batch of several
   items goes on with its two halves, the first of them the larger one, and a single item ends with the message.
   */
  lemma {:induction false} TimeoutSplits(world: World, items: seq<Item>, log: seq<Tried>, attempt: nat,
                                         a: string, w: string, b: string)
    requires attempt < TRANSLATE_MAX_ATTEMPTS
    requires ReadOf(world, NextTried(world, log, items)) == Err(a + w + b) && |w| == 9
    requires forall i :: 0 <= i < 9 ==>
                           || w[i] == "timed out"[i]
                           || ("timed out"[i] != ' ' && w[i] as int + 32 == "timed out"[i] as int)
    ensures |items| <= 1 ==>
              RunBatch(world, items, log, attempt) == (Err(a + w + b), log + [NextTried(world, log, items)])
    ensures |items| > 1 ==>
              var m := if |items| % 2 == 0 then |items| / 2 else |items| / 2 + 1;
              var (left, log1) := RunBatch(world, items[..m], log + [NextTried(world, log, items)], 0);
              var (right, log2) := RunBatch(world, items[m..], log1, 0);
              RunBatch(world, items, log, attempt) ==
              if left.Err? then (left, log1) else if right.Err? then (right, log2)
              else (Ok(left.value + right.value), log2)
  {
    TimeoutExactly(a + w + b);
    if |items| > 1 {
      RunHalvesStep(world, items, log + [NextTried(world, log, items)]);
    }
  }

  /** Any other failure is retried once, for the same items, and then ends the batch with its message. */
  lemma {:induction false} OthersRetry(world: World, items: seq<Item>, log: seq<Tried>)
    requires ReadOf(world, NextTried(world, log, items)).Err?
    requires !exists a, w, b ::
               && ReadOf(world, NextTried(world, log, items)).error == a + w + b && |w| == 9
               && forall i :: 0 <= i < 9 ==>
                                || w[i] == "timed out"[i]
                                || ("timed out"[i] != ' ' && w[i] as int + 32 == "timed out"[i] as int)
    ensures var tried := NextTried(world, log, items);
            && RunBatch(world, items, log, 0) == RunBatch(world, items, log + [tried], 1)
            && RunBatch(world, items, log, 1) == (Err(ReadOf(world, tried).error), log + [tried])
  {
    TimeoutExactly(ReadOf(world, NextTried(world, log, items)).error);
  }

  /** What an attempt fails with: the message of the prompt's error, or a reply without a text for some item. */
  lemma AttemptFails(world: World, tried: Tried)
    requires ReadOf(world, tried).Err?
    ensures var error := ReadOf(world, tried).error;
            match tried
            case NoProcess(_) => error == world.noProcess
            case Prompted(_, _, _, Rejected(reason)) => error == world.message(reason)
            case Prompted(items, _, _, Resolved(text)) =>
              if world.parse(text).Throws? then error == world.parse(text).message
              else exists i :: 0 <= i < |items| && error == "missing translation for " + items[i].key
  {
    var i := ReadReplyFails(tried.items, ReplyOf(world, tried));
  }

  // ---------- The log is heard from the processes ----------

  /** Every attempt came to what the processes made of it. */
  ghost predicate Heard(world: World, log: seq<Tried>) {
    log != [] ==>
      var before, last := log[..|log| - 1], log[|log| - 1];
      Heard(world, before) && last == NextTried(world, before, last.items)
  }

  lemma {:induction false} HeardNext(world: World, log: seq<Tried>, items: seq<Item>)
    requires Heard(world, log)
    ensures Heard(world, log + [NextTried(world, log, items)])
  {
    assert (log + [NextTried(world, log, items)])[..|log|] == log;
  }

  lemma {:induction false} HeardBefore(world: World, log: seq<Tried>, n: nat)
    requires Heard(world, log) && n <= |log|
    ensures Heard(world, log[..n])
    ensures n < |log| ==> log[n] == NextTried(world, log[..n], log[n].items)
  {
    if n < |log| - 1 {
      HeardBefore(world, log[..|log| - 1], n);
      assert log[..|log| - 1][..n] == log[..n];
    } else if n == |log| {
      assert log[..n] == log;
    }
  }

  lemma {:induction false} RunBatchHeard(world: World, items: seq<Item>, log: seq<Tried>, attempt: nat)
    requires attempt < TRANSLATE_MAX_ATTEMPTS && Heard(world, log)
    ensures Heard(world, RunBatch(world, items, log, attempt).1)
    decreases |items|, TRANSLATE_MAX_ATTEMPTS - attempt
  {
    var tried := NextTried(world, log, items);
    var log1, read := log + [tried], ReadOf(world, tried);
    HeardNext(world, log, items);
    if read.Ok? {
    } else if IsPromptTimeoutError(read.error) && |items| > 1 {
      RunHalvesHeard(world, items, log1);
    } else if !IsPromptTimeoutError(read.error) && attempt + 1 < TRANSLATE_MAX_ATTEMPTS {
      RunBatchHeard(world, items, log1, attempt + 1);
    }
  }

  lemma {:induction false} RunHalvesHeard(world: World, items: seq<Item>, log: seq<Tried>)
    requires |items| > 1 && Heard(world, log)
    ensures Heard(world, RunHalves(world, items, log).1)
    decreases |items|, 0
  {
    var first := RunBatch(world, items[..Midpoint(items)], log, 0);
    RunBatchHeard(world, items[..Midpoint(items)], log, 0);
    RunHalvesStep(world, items, log);
    if first.0.Ok? {
      RunBatchHeard(world, items[Midpoint(items)..], first.1, 0);
      assert RunHalves(world, items, log).1 == RunBatch(world, items[Midpoint(items)..], first.1, 0).1;
    } else {
      assert RunHalves(world, items, log).1 == first.1;
    }
  }

  lemma {:induction false} RunHalvesStep(world: World, items: seq<Item>, log: seq<Tried>)
    requires |items| > 1
    ensures var (left, log1) := RunBatch(world, items[..Midpoint(items)], log, 0);
            var (right, log2) := RunBatch(world, items[Midpoint(items)..], log1, 0);
            RunHalves(world, items, log) == if left.Err? then (left, log1) else (SplitResult(left, right), log2)
  {
  }

  /** The loop over one batch more. */
  lemma {:induction false} RunBatchesStep(world: World, batches: seq<seq<Item>>)
    requires batches != []
    ensures var (before, log) := RunBatches(world, batches[..|batches| - 1]);
            RunBatches(world, batches) ==
            if before.Err? then (before, log)
            else
              var (last, log') := RunBatch(world, batches[|batches| - 1], log, 0);
              (SplitResult(before, last), log')
  {
  }

  lemma {:induction false} RunBatchesHeard(world: World, batches: seq<seq<Item>>)
    ensures Heard(world, RunBatches(world, batches).1)
  {
    if batches != [] {
      var init, last := batches[..|batches| - 1], batches[|batches| - 1];
      var (before, log) := RunBatches(world, init);
      RunBatchesHeard(world, init);
      RunBatchesStep(world, batches);
      if before.Ok? {
        RunBatchHeard(world, last, log, 0);
      }
    }
  }

  // ---------- What holds in every such log ----------

  /** A prompt settled as logged, on a disciplined client, and a text is the answer to its own request. */
  ghost predicate Faithful(tried: Tried) {
    tried.Prompted? ==>
      && Possible(tried.history) && Disciplined(tried.history)
      && LastSettled(tried.history) && tried.how == How(tried.history)
      && (tried.how.Resolved? ==> AnswersLast(Run(tried.history), tried.how.text))
  }

  /** Prompt b was asked after prompt a: on a later client, or by a later call on the same one. */
  ghost predicate After(a: Tried, b: Tried) {
    a.Prompted? && b.Prompted? ==>
      || a.client < b.client
      || (a.client == b.client && a.history <= b.history && Calls(a.history) < Calls(b.history))
  }

  lemma {:induction false} KeptRests(world: World, log: seq<Tried>)
    requires Heard(world, log)
    ensures Kept(world, log).Some? ==> GoodRest(Kept(world, log).value)
  {
    if Kept(world, log).Some? {
      var n := |log| - 1;
      HeardBefore(world, log, n);
      KeptRests(world, log[..n]);
      NextExact(world, log[..n], log[n].items);
    }
  }

  /** The client of an attempt is at rest before it; the attempt makes one call more, and settles it. */
  lemma {:induction false} NextExact(world: World, log: seq<Tried>, items: seq<Item>)
    requires Kept(world, log).Some? ==> GoodRest(Kept(world, log).value)
    ensures var tried, kept := NextTried(world, log, items), Kept(world, log);
            && Faithful(tried)
            && (tried.Prompted? ==>
                  && (kept.Some? ==> kept.value <= tried.history)
                  && Calls(tried.history) == 1 + (if kept.Some? then Calls(kept.value) else 0)
                  && (tried.how.Resolved? ==> GoodRest(tried.history)))
  {
    GoodStart();
    var kept := Kept(world, log);
    HistoryExact(if kept.Some? then kept.value else [], world.around(|log|));
  }

  lemma {:induction false} NextFaithful(world: World, log: seq<Tried>, items: seq<Item>)
    requires Heard(world, log)
    ensures Faithful(NextTried(world, log, items))
  {
    KeptRests(world, log);
    NextExact(world, log, items);
  }

  /** Every attempt settled as its client's process made it settle. */
  lemma {:induction false} HeardFaithful(world: World, log: seq<Tried>, i: nat)
    requires Heard(world, log) && i < |log|
    ensures Faithful(log[i])
  {
    AttemptAt(world, log, i);
    NextExact(world, log[..i], log[i].items);
  }

  /** A prompt is part of what has happened to its client, which is closed or the one left open. */
  ghost predicate Placed(world: World, tried: Tried, log: seq<Tried>) {
    || tried.NoProcess?
    || tried.client < |Closed(world, log)|
    || (&& tried.client == |Closed(world, log)|
        && Kept(world, log).Some? && tried.history <= Kept(world, log).value)
  }

  lemma {:induction false} ClosedAndKept(world: World, log: seq<Tried>, tried: Tried)
    ensures Closed(world, log + [tried]) ==
            Closed(world, log) + if tried.Prompted? && ReadOf(world, tried).Err? then [tried.history + [Close]] else []
    ensures Kept(world, log + [tried]) ==
            if tried.Prompted? && ReadOf(world, tried).Ok? then Some(tried.history) else None
  {
    assert (log + [tried])[..|log|] == log;
  }

  /**
   A prompt whose reply was read leaves its client to the next attempt. After any failure the next attempt, if
   a process can be started for it, has a new client on which nothing has happened yet.
   */
  lemma {:induction false} NextClient(world: World, log: seq<Tried>, items: seq<Item>, items': seq<Item>)
    requires NextTried(world, log, items).Prompted?
    ensures var tried, outside := NextTried(world, log, items), world.around(|log| + 1);
            NextTried(world, log + [tried], items') ==
            if ReadOf(world, tried).Ok? then
              var history := HistoryOf(tried.history, outside);
              Prompted(items', tried.client, history, How(history))
            else if outside.spawns then
              Prompted(items', tried.client + 1, HistoryOf([], outside), How(HistoryOf([], outside)))
            else NoProcess(items')
  {
    ClosedAndKept(world, log, NextTried(world, log, items));
  }

  /** An attempt for which there is no process. */
  lemma {:induction false} NoneNext(world: World, log: seq<Tried>, items: seq<Item>)
    requires Kept(world, log).None? && !world.around(|log|).spawns
    ensures NextTried(world, log, items) == NoProcess(items)
    ensures ReadOf(world, NoProcess(items)) == Err(world.noProcess)
    ensures Closed(world, log + [NoProcess(items)]) == Closed(world, log)
    ensures Kept(world, log + [NoProcess(items)]).None?
  {
    ClosedAndKept(world, log, NoProcess(items));
  }

  /** An attempt for which there is one. */
  lemma {:induction false} PromptNext(world: World, log: seq<Tried>, items: seq<Item>, history: seq<Event>)
    requires Kept(world, log).Some? || world.around(|log|).spawns
    requires history ==
             HistoryOf(if Kept(world, log).Some? then Kept(world, log).value else [], world.around(|log|))
    ensures var tried := Prompted(items, |Closed(world, log)|, history, How(history));
            && NextTried(world, log, items) == tried
            && if ReadOf(world, tried).Ok?
               then Kept(world, log + [tried]) == Some(history) && Closed(world, log + [tried]) == Closed(world, log)
               else
                 && Kept(world, log + [tried]) == None
                 && Closed(world, log + [tried]) == Closed(world, log) + [history + [Close]]
  {
    ClosedAndKept(world, log, NextTried(world, log, items));
  }

  lemma {:induction false} PlacedFirst(world: World, log: seq<Tried>, items: seq<Item>)
    ensures var tried := NextTried(world, log, items); Placed(world, tried, log + [tried])
  {
    ClosedAndKept(world, log, NextTried(world, log, items));
  }

  lemma {:induction false} PlacedNext(world: World, tried: Tried, log: seq<Tried>, items: seq<Item>)
    requires Placed(world, tried, log) && (Kept(world, log).Some? ==> GoodRest(Kept(world, log).value))
    ensures Placed(world, tried, log + [NextTried(world, log, items)])
  {
    NextExact(world, log, items);
    ClosedAndKept(world, log, NextTried(world, log, items));
  }

  /** Attempt n, seen from the log before it. */
  lemma {:induction false} AttemptAt(world: World, log: seq<Tried>, n: nat)
    requires Heard(world, log) && n < |log|
    ensures Heard(world, log[..n]) && log[n] == NextTried(world, log[..n], log[n].items)
    ensures log[..n + 1] == log[..n] + [NextTried(world, log[..n], log[n].items)]
    ensures Kept(world, log[..n]).Some? ==> GoodRest(Kept(world, log[..n]).value)
  {
    HeardBefore(world, log, n);
    KeptRests(world, log[..n]);
    OneMore(log, n);
  }

  lemma {:induction false} PromptPlaced(world: World, log: seq<Tried>, i: nat)
    requires Heard(world, log) && i < |log|
    ensures Placed(world, log[i], log)
  {
    var n := |log| - 1;
    var before := log[..n];
    AttemptAt(world, log, n);
    assert before + [log[n]] == log;
    if i < n {
      assert log[i] == before[i];
      PromptPlaced(world, before, i);
      PlacedNext(world, before[i], before, log[n].items);
    } else {
      PlacedFirst(world, before, log[n].items);
    }
  }

  /** Of two prompts, the later one has a later client, or more calls on the same one. */
  lemma {:induction false} NextAfter(world: World, a: Tried, log: seq<Tried>, items: seq<Item>)
    requires Placed(world, a, log) && (Kept(world, log).Some? ==> GoodRest(Kept(world, log).value))
    ensures After(a, NextTried(world, log, items))
  {
    NextExact(world, log, items);
    if a.Prompted? && a.client == |Closed(world, log)| {
      var kept := Kept(world, log).value;
      CallsGrow(kept, |a.history|);
      assert kept[..|a.history|] == a.history;
    }
  }

  /** Each attempt with a process has a call of its own, later than those of all attempts before it. */
  lemma {:induction false} HeardAfter(world: World, log: seq<Tried>, i: nat, j: nat)
    requires Heard(world, log) && i < j < |log|
    ensures After(log[i], log[j])
  {
    AttemptAt(world, log, j);
    PromptPlaced(world, log[..j], i);
    NextAfter(world, log[..j][i], log[..j], log[j].items);
  }

  /** A possible history of a client that is closed, in which no prompt began after a failure. */
  ghost predicate WellClosed(history: seq<Event>) {
    Possible(history) && Disciplined(history) && Run(history).closed
  }

  lemma {:induction false} ClosingCloses(tried: Tried)
    requires Faithful(tried) && tried.Prompted?
    ensures WellClosed(tried.history + [Close])
  {
    Continue(tried.history, Close);
  }

  lemma {:induction false} ClosedWell(world: World, log: seq<Tried>, history: seq<Event>)
    requires Heard(world, log) && history in Closed(world, log)
    ensures WellClosed(history)
  {
    var n := |log| - 1;
    AttemptAt(world, log, n);
    if history in Closed(world, log[..n]) {
      ClosedWell(world, log[..n], history);
    } else {
      HeardFaithful(world, log, n);
      ClosingCloses(log[n]);
    }
  }

  /** In no client's history a prompt begins after a failure; once all are closed, each ends closed. */
  lemma {:induction false} ClosedDisciplined(world: World, log: seq<Tried>)
    requires Heard(world, log)
    ensures forall history :: history in AllClosed(world, log) ==> WellClosed(history)
  {
    forall history | history in AllClosed(world, log)
      ensures WellClosed(history)
    {
      if history in Closed(world, log) {
        ClosedWell(world, log, history);
      } else {
        HeardFaithful(world, log, |log| - 1);
        ClosingCloses(log[|log| - 1]);
      }
    }
  }

  // ---------- Replies read from a log ----------

  /** The replies to the logged attempts are those that were logged. */
  ghost predicate Agree(world: World, replies: Replies, log: seq<Tried>) {
    forall i: nat :: i < |log| ==> replies(i) == ReplyOf(world, log[i])
  }

  /** The replies of a log, and any after it. */
  function Played(world: World, log: seq<Tried>): (replies: Replies)
    ensures Agree(world, replies, log)
  {
    (i: nat) => if i < |log| then ReplyOf(world, log[i]) else Throws("")
  }

  lemma AgreeBefore(world: World, replies: Replies, log: seq<Tried>, log': seq<Tried>)
    requires Agree(world, replies, log') && log <= log'
    ensures Agree(world, replies, log)
  {
    assert forall i: nat :: i < |log| ==> log[i] == log'[i];
  }

  lemma {:induction false} SplitTranslates(items: seq<Item>, replies: Replies, at: nat, attempt: nat)
    requires attempt < TRANSLATE_MAX_ATTEMPTS && |items| > 1
    requires var read := ReadReply(items, replies(at)); read.Err? && IsPromptTimeoutError(read.error)
    ensures var (left, middle) := Translate(items[..Midpoint(items)], replies, at + 1, 0);
            var (right, end) := Translate(items[Midpoint(items)..], replies, middle, 0);
            Translate(items, replies, at, attempt) ==
            (SplitResult(left, right), if left.Err? then middle else end)
  {
  }

  lemma {:induction false} RunHalvesTranslates(world: World, items: seq<Item>, log: seq<Tried>, replies: Replies)
    requires |items| > 1 && Agree(world, replies, RunHalves(world, items, log).1)
    ensures var (left, middle) := Translate(items[..Midpoint(items)], replies, |log|, 0);
            var (right, end) := Translate(items[Midpoint(items)..], replies, middle, 0);
            var (r, log') := RunHalves(world, items, log);
            (r, |log'|) == (SplitResult(left, right), if left.Err? then middle else end)
    decreases |items|, 0
  {
    var (left, log1) := RunBatch(world, items[..Midpoint(items)], log, 0);
    AgreeBefore(world, replies, log1, RunHalves(world, items, log).1);
    RunBatchTranslates(world, items[..Midpoint(items)], log, 0, replies);
    if left.Ok? {
      RunBatchTranslates(world, items[Midpoint(items)..], log1, 0, replies);
    }
  }

  /** With the replies that its own attempts get, a batch comes to what Translate says. */
  lemma {:induction false} RunBatchTranslates(world: World, items: seq<Item>, log: seq<Tried>, attempt: nat,
                                              replies: Replies)
    requires attempt < TRANSLATE_MAX_ATTEMPTS && Agree(world, replies, RunBatch(world, items, log, attempt).1)
    ensures var (r, log') := RunBatch(world, items, log, attempt);
            Translate(items, replies, |log|, attempt) == (r, |log'|)
    decreases |items|, TRANSLATE_MAX_ATTEMPTS - attempt
  {
    var tried := NextTried(world, log, items);
    var log1, read := log + [tried], ReadOf(world, tried);
    var log' := RunBatch(world, items, log, attempt).1;
    AttemptFirst(world, items, log, attempt);
    AgreeBefore(world, replies, log1, log');
    assert replies(|log|) == ReplyOf(world, log1[|log|]);
    if read.Ok? {
    } else if IsPromptTimeoutError(read.error) && |items| > 1 {
      RunHalvesTranslates(world, items, log1, replies);
      SplitTranslates(items, replies, |log|, attempt);
    } else if !IsPromptTimeoutError(read.error) && attempt + 1 < TRANSLATE_MAX_ATTEMPTS {
      RunBatchTranslates(world, items, log1, attempt + 1, replies);
    }
  }

  lemma {:induction false} AttemptFirst(world: World, items: seq<Item>, log: seq<Tried>, attempt: nat)
    requires attempt < TRANSLATE_MAX_ATTEMPTS
    ensures log + [NextTried(world, log, items)] <= RunBatch(world, items, log, attempt).1
  {
  }

  /** And so do all batches. */
  lemma {:induction false} RunBatchesTranslates(world: World, batches: seq<seq<Item>>, replies: Replies)
    requires Agree(world, replies, RunBatches(world, batches).1)
    ensures var (r, log) := RunBatches(world, batches);
            TranslateAll(batches, replies, 0) == (r, |log|)
  {
    if batches != [] {
      var init, last := batches[..|batches| - 1], batches[|batches| - 1];
      var (before, log) := RunBatches(world, init);
      RunBatchesStep(world, batches);
      if before.Ok? {
        AgreeBefore(world, replies, log, RunBatches(world, batches).1);
        RunBatchTranslates(world, last, log, 0, replies);
      }
      RunBatchesTranslates(world, init, replies);
    }
  }

  // ---------- What is asked, and where the texts come from ----------

  /** The text was read, under a key that was asked for, from the answer to this attempt's own request. */
  ghost predicate AnsweredBy(world: World, tried: Tried, key: string, text: string) {
    && tried.Prompted? && tried.how.Resolved? && Faithful(tried) && key in Keys(tried.items)
    && world.parse(tried.how.text).Parsed? && key in world.parse(tried.how.text).values
    && world.parse(tried.how.text).values[key] == Some(text)
  }

  ghost predicate AnsweredFrom(world: World, log: seq<Tried>, at: nat, key: string, text: string) {
    exists j: nat :: at <= j < |log| && AnsweredBy(world, log[j], key, text)
  }

  /** Each of the texts is an answer to a request sent from `at` on. */
  ghost predicate AllAnswered(world: World, log: seq<Tried>, at: nat, texts: map<string, string>) {
    forall k :: k in texts ==> AnsweredFrom(world, log, at, k, texts[k])
  }

  /** Every attempt from `at` on was made for some of the items. */
  ghost predicate AskedFor(items: seq<Item>, log: seq<Tried>, at: nat) {
    forall j :: at <= j < |log| ==> Keys(log[j].items) <= Keys(items)
  }

  lemma AnsweredLater(world: World, log: seq<Tried>, at: nat, log': seq<Tried>, at': nat, texts: map<string, string>)
    requires AllAnswered(world, log, at, texts) && log <= log' && at' <= at
    ensures AllAnswered(world, log', at', texts)
  {
    forall k | k in texts
      ensures AnsweredFrom(world, log', at', k, texts[k])
    {
      var j: nat :| at <= j < |log| && AnsweredBy(world, log[j], k, texts[k]);
      assert log'[j] == log[j];
    }
  }

  lemma AnsweredJoined(world: World, log: seq<Tried>, at: nat, left: map<string, string>, right: map<string, string>)
    requires AllAnswered(world, log, at, left) && AllAnswered(world, log, at, right)
    ensures AllAnswered(world, log, at, left + right)
  {
    forall k | k in left + right
      ensures AnsweredFrom(world, log, at, k, (left + right)[k])
    {
      if k in right {
        assert AnsweredFrom(world, log, at, k, right[k]);
      } else {
        assert AnsweredFrom(world, log, at, k, left[k]);
      }
    }
  }

  lemma BothAnswered(world: World, at: nat, log: seq<Tried>, left: map<string, string>, log': seq<Tried>,
                     right: map<string, string>)
    requires at <= |log| && log <= log'
    requires AllAnswered(world, log, at, left) && AllAnswered(world, log', |log|, right)
    ensures AllAnswered(world, log', at, left + right)
  {
    AnsweredLater(world, log, at, log', at, left);
    AnsweredLater(world, log', |log|, log', at, right);
    AnsweredJoined(world, log', at, left, right);
  }

  /** A reply that is accepted was a parsed text, and each of the texts is read from it. */
  lemma {:induction false} AcceptedAnswered(world: World, log: seq<Tried>, tried: Tried)
    requires Faithful(tried) && ReadOf(world, tried).Ok?
    ensures AllAnswered(world, log + [tried], |log|, ReadOf(world, tried).value)
  {
    var texts := ReadOf(world, tried).value;
    ReadReplyExact(tried.items, ReplyOf(world, tried));
    forall k | k in texts
      ensures AnsweredFrom(world, log + [tried], |log|, k, texts[k])
    {
      assert (log + [tried])[|log|] == tried && AnsweredBy(world, tried, k, texts[k]);
    }
  }

  lemma AskedForMore(items: seq<Item>, log: seq<Tried>, at: nat, part: seq<Item>, log': seq<Tried>)
    requires log <= log' && at <= |log| && AskedFor(items, log, at) && AskedFor(part, log', |log|)
    requires Keys(part) <= Keys(items)
    ensures AskedFor(items, log', at)
  {
    forall j | at <= j < |log'|
      ensures Keys(log'[j].items) <= Keys(items)
    {
      if j < |log| {
        assert log'[j] == log[j];
      }
    }
  }

  /** A batch asks only for its own items. */
  lemma {:induction false} RunBatchAsks(world: World, items: seq<Item>, log: seq<Tried>, attempt: nat)
    requires attempt < TRANSLATE_MAX_ATTEMPTS
    ensures AskedFor(items, RunBatch(world, items, log, attempt).1, |log|)
    decreases |items|, TRANSLATE_MAX_ATTEMPTS - attempt
  {
    var tried := NextTried(world, log, items);
    var log1, read := log + [tried], ReadOf(world, tried);
    assert AskedFor(items, log1, |log|);
    if read.Ok? {
    } else if IsPromptTimeoutError(read.error) && |items| > 1 {
      RunHalvesAsks(world, items, log1);
      AskedForMore(items, log1, |log|, items, RunHalves(world, items, log1).1);
    } else if !IsPromptTimeoutError(read.error) && attempt + 1 < TRANSLATE_MAX_ATTEMPTS {
      RunBatchAsks(world, items, log1, attempt + 1);
      AskedForMore(items, log1, |log|, items, RunBatch(world, items, log1, attempt + 1).1);
    }
  }

  lemma {:induction false} RunHalvesAsks(world: World, items: seq<Item>, log: seq<Tried>)
    requires |items| > 1
    ensures AskedFor(items, RunHalves(world, items, log).1, |log|)
    decreases |items|, 0
  {
    var first, second := items[..Midpoint(items)], items[Midpoint(items)..];
    var (left, log1) := RunBatch(world, first, log, 0);
    KeysSplit(items, Midpoint(items));
    RunBatchAsks(world, first, log, 0);
    AskedForMore(items, log, |log|, first, log1);
    if left.Ok? {
      RunBatchAsks(world, second, log1, 0);
      AskedForMore(items, log1, |log|, second, RunBatch(world, second, log1, 0).1);
    }
  }

  /** Every text of a batch is the process's answer to a request of one of its own attempts. */
  lemma {:induction false} RunBatchAnswers(world: World, items: seq<Item>, log: seq<Tried>, attempt: nat)
    requires attempt < TRANSLATE_MAX_ATTEMPTS && Heard(world, log)
    ensures var (r, log') := RunBatch(world, items, log, attempt);
            r.Ok? ==> AllAnswered(world, log', |log|, r.value)
    decreases |items|, TRANSLATE_MAX_ATTEMPTS - attempt
  {
    var tried := NextTried(world, log, items);
    var log1, read := log + [tried], ReadOf(world, tried);
    if read.Ok? {
      NextFaithful(world, log, items);
      AcceptedAnswered(world, log, tried);
    } else if IsPromptTimeoutError(read.error) && |items| > 1 {
      HeardNext(world, log, items);
      RunHalvesAnswers(world, items, log1);
      AnsweredEarlier(world, RunHalves(world, items, log1), |log1|, |log|);
    } else if !IsPromptTimeoutError(read.error) && attempt + 1 < TRANSLATE_MAX_ATTEMPTS {
      HeardNext(world, log, items);
      RunBatchAnswers(world, items, log1, attempt + 1);
      AnsweredEarlier(world, RunBatch(world, items, log1, attempt + 1), |log1|, |log|);
    }
  }

  lemma AnsweredEarlier(world: World, out: (Result<map<string, string>, string>, seq<Tried>), at: nat, at': nat)
    requires (out.0.Ok? ==> AllAnswered(world, out.1, at, out.0.value)) && at' <= at
    ensures out.0.Ok? ==> AllAnswered(world, out.1, at', out.0.value)
  {
    if out.0.Ok? {
      AnsweredLater(world, out.1, at, out.1, at', out.0.value);
    }
  }

  lemma {:induction false} RunHalvesAnswers(world: World, items: seq<Item>, log: seq<Tried>)
    requires |items| > 1 && Heard(world, log)
    ensures var (r, log') := RunHalves(world, items, log);
            r.Ok? ==> AllAnswered(world, log', |log|, r.value)
    decreases |items|, 0
  {
    var (left, log1) := RunBatch(world, items[..Midpoint(items)], log, 0);
    RunBatchAnswers(world, items[..Midpoint(items)], log, 0);
    if left.Ok? {
      var (right, log2) := RunBatch(world, items[Midpoint(items)..], log1, 0);
      RunBatchHeard(world, items[..Midpoint(items)], log, 0);
      RunBatchAnswers(world, items[Midpoint(items)..], log1, 0);
      if right.Ok? {
        BothAnswered(world, |log|, log1, left.value, log2, right.value);
      }
    }
  }

  /** Every text given for all batches is the process's answer to a request for its key. */
  lemma {:induction false} RunBatchesAnswers(world: World, batches: seq<seq<Item>>)
    ensures var (r, log) := RunBatches(world, batches);
            r.Ok? ==> AllAnswered(world, log, 0, r.value)
  {
    if batches != [] {
      var init, last := batches[..|batches| - 1], batches[|batches| - 1];
      var (before, log) := RunBatches(world, init);
      RunBatchesAnswers(world, init);
      RunBatchesHeard(world, init);
      RunBatchesStep(world, batches);
      if before.Ok? {
        var (r, log') := RunBatch(world, last, log, 0);
        RunBatchAnswers(world, last, log, 0);
        if r.Ok? {
          BothAnswered(world, 0, log, before.value, log', r.value);
        }
      }
    }
  }

  /** The texts of a batch that does not throw are exactly those of its items, and not blank. */
  lemma {:induction false} RunBatchExact(world: World, items: seq<Item>, log: seq<Tried>)
    ensures var r := RunBatch(world, items, log, 0).0;
            r.Ok? ==> r.value.Keys == Keys(items) && forall k :: k in r.value ==> !IsBlank(r.value[k])
  {
    var replies := Played(world, RunBatch(world, items, log, 0).1);
    RunBatchTranslates(world, items, log, 0, replies);
    TranslateExact(items, replies, |log|, 0);
  }
}
