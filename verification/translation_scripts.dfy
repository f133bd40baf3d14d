/**
 One client's history, given what its process does: an attempt of translateBatch is a prompt on a client
 at rest, and the process's lines, errors and end around it are a script (openclaw/scripts/control-ui-i18n.ts).
 */
module TranslationScripts {
  import opened Prelude
  import opened RpcClient

  /** An event that the translation does not cause itself. */
  predicate FromOutside(e: Event) {
    !e.Call? && !e.Begin? && !e.Close?
  }

  /** Every call has settled; unless the client is closed, with an answer. */
  ghost predicate AtRest(s: State) {
    (forall n :: 0 <= n < |s.waitsFor| ==> n in s.settled) && AllResolved(s)
  }

  /** The last call has begun, and before it the client was at rest; it resolves only after it was sent. */
  ghost predicate Asked(s: State, call: nat) {
    && |s.waitsFor| == call + 1 && call in s.begun
    && (forall n :: 0 <= n < call ==> n in s.settled)
    && (s.closed || forall n :: 0 <= n < call ==> s.settled[n].Resolved?)
    && (call in s.settled && s.settled[call].Resolved? ==> |s.callOf| > 0 && s.callOf[|s.callOf| - 1] == call)
  }

  /** The text is what the process answered to the last request. */
  predicate AnswersLast(s: State, text: string) {
    s.requestCount in s.answers && s.answers[s.requestCount] == Some(text)
  }

  /** How many prompts a client has been asked. */
  function Calls(history: seq<Event>): nat {
    |Run(history).waitsFor|
  }

  predicate SameCalls(s: State, s': State) {
    s'.waitsFor == s.waitsFor && s'.callOf == s.callOf && s'.begun == s.begun
  }

  lemma SettlingKeepsCalls(s: State, how: Settlement)
    ensures SameCalls(s, SettlePending(s, how))
  {
  }

  lemma OutsideKeepsCalls(s: State, e: Event)
    requires FromOutside(e)
    ensures SameCalls(s, Step(s, e))
  {
    match e
    case Response(_, _) => SettlingKeepsCalls(s, Rejected(PromptFailed));
    case AgentEnd(origin, result) =>
      SettlingKeepsCalls(s.(answers := s.answers[origin := result]),
                         if result.Some? then Resolved(result.value) else Rejected(AgentError));
    case Timer(id) => SettlingKeepsCalls(s.(timers := s.timers - {id}, closed := true), Rejected(TimedOut));
    case WriteError(id) => SettlingKeepsCalls(s.(timers := s.timers - {id}), Rejected(WriteFailed));
    case ProcessError => SettlingKeepsCalls(s, Rejected(ProcessFailed));
    case ProcessClose => SettlingKeepsCalls(s.(closed := true), Rejected(ProcessClosed));
    case Noise =>
  }

  /** Nothing that happens between prompts disturbs a client at rest. */
  lemma RestStays(s: State, e: Event)
    requires Sound(s) && AtRest(s) && Enabled(s, e) && FromOutside(e)
    ensures AtRest(Step(s, e))
  {
    OutsideKeepsCalls(s, e);
    assert forall i :: 0 <= i < |s.callOf| ==> s.callOf[i] in s.begun;
    StepLater(s, e);
    assert Step(s, e).settled == s.settled;
  }

  lemma AskedStays(s: State, e: Event, call: nat)
    requires Sound(s) && Asked(s, call) && call !in s.settled && Enabled(s, e) && FromOutside(e)
    ensures Asked(Step(s, e), call)
  {
    OutsideKeepsCalls(s, e);
    StepLater(s, e);
    assert forall n :: n in s.settled ==> n in Step(s, e).settled && Step(s, e).settled[n] == s.settled[n];
  }

  /** A client at rest can be asked. */
  lemma RestToAsked(s: State)
    requires Sound(s) && AtRest(s)
    ensures var called := Step(s, Call);
            Enabled(called, Begin(|s.waitsFor|)) && AllResolved(called)
            && Asked(Step(called, Begin(|s.waitsFor|)), |s.waitsFor|)
  {
  }

  lemma AskedToRest(s: State, call: nat)
    requires Sound(s) && Asked(s, call) && call in s.settled && s.settled[call].Resolved?
    ensures AtRest(s)
  {
    assert forall n :: n in s.settled ==> n in s.begun && n <= call;
  }

  /** The text a call resolves with is the answer to its own request. */
  lemma {:induction false} ResolvedByOwn(events: seq<Event>, call: nat)
    requires Possible(events) && Disciplined(events) && Asked(Run(events), call)
    requires call in Run(events).settled && Run(events).settled[call].Resolved?
    ensures AtRest(Run(events)) && AnswersLast(Run(events), Run(events).settled[call].text)
  {
    RunSound(events);
    AskedToRest(Run(events), call);
    DisciplineAttributes(events);
    assert Run(events).callOf[|Run(events).callOf| - 1] == call;
  }

  /** Until the call settles, its timer is armed. */
  lemma AskedHasTimer(s: State, call: nat)
    requires Sound(s) && Asked(s, call) && call !in s.settled
    ensures Enabled(s, Timer(s.requestCount))
    ensures call in Step(s, Timer(s.requestCount)).settled
  {
    TimerStep(s, s.requestCount);
  }

  lemma {:induction false} ClosedContinue(events: seq<Event>, e: Event)
    requires Disciplined(events) && Run(events).closed
    ensures Disciplined(events + [e]) && Run(events + [e]).closed
  {
    assert (events + [e])[..|events|] == events;
    StepLater(Run(events), e);
  }

  /** A closed client stays disciplined whatever happens to it. */
  lemma {:induction false} ClosedStaysDisciplined(events: seq<Event>, more: seq<Event>)
    requires Disciplined(events) && Run(events).closed
    ensures Disciplined(events + more) && Run(events + more).closed
  {
    if more == [] {
      assert events + more == events;
    } else {
      var init, last := more[..|more| - 1], more[|more| - 1];
      ClosedStaysDisciplined(events, init);
      ClosedContinue(events + init, last);
      Regroup(events, init, [last]);
      assert init + [last] == more;
    }
  }

  /** An event that begins no prompt, or begins it on a client without failures, keeps the discipline. */
  lemma {:induction false} Continue(events: seq<Event>, e: Event)
    requires Possible(events) && Disciplined(events) && Enabled(Run(events), e)
    requires e.Begin? ==> AllResolved(Run(events))
    ensures Possible(events + [e]) && Disciplined(events + [e]) && Run(events + [e]) == Step(Run(events), e)
  {
    assert (events + [e])[..|events|] == events;
  }

  /** A client at rest is asked: its turn comes at once. */
  lemma {:induction false} Asking(events: seq<Event>)
    requires Possible(events) && Disciplined(events) && AtRest(Run(events))
    ensures var call, called := Calls(events), Step(Run(events), Call);
            var asked := events + [Call, Begin(call)];
            && Enabled(called, Begin(call)) && Possible(asked) && Disciplined(asked)
            && Run(asked) == Step(called, Begin(call)) && Asked(Run(asked), call)
  {
    var call := Calls(events);
    RunSound(events);
    RestToAsked(Run(events));
    Continue(events, Call);
    Continue(events + [Call], Begin(call));
    assert events + [Call] + [Begin(call)] == events + [Call, Begin(call)];
  }

  lemma {:induction false} CallsGrow(history: seq<Event>, n: nat)
    requires n <= |history|
    ensures Calls(history[..n]) <= Calls(history)
  {
    if n < |history| {
      var init, e := history[..|history| - 1], history[|history| - 1];
      CallsGrow(init, n);
      assert init[..n] == history[..n];
      if FromOutside(e) {
        OutsideKeepsCalls(Run(init), e);
      }
    } else {
      assert history[..n] == history;
    }
  }

  // ---------- What a client hears ----------

  // What happens around one attempt: whether a process can be started if one is needed, and what the
  // client's process does before the prompt and after it.
  datatype Outside = Outside(spawns: bool, idle: seq<Event>, busy: seq<Event>)

  /** The event is not of the translation's own making, and can happen to a client with this history. */
  predicate CanHear(history: seq<Event>, e: Event) {
    FromOutside(e) && Enabled(Run(history), e)
  }

  /** The history after everything of the script that can happen. */
  function Idled(history: seq<Event>, script: seq<Event>): seq<Event> {
    if script == [] then history
    else
      var before, e := Idled(history, script[..|script| - 1]), script[|script| - 1];
      if CanHear(before, e) then before + [e] else before
  }

  /** The same, up to the event that settles the call. */
  function HeardUntil(history: seq<Event>, call: nat, script: seq<Event>): seq<Event> {
    if script == [] then history
    else
      var before, e := HeardUntil(history, call, script[..|script| - 1]), script[|script| - 1];
      if call !in Run(before).settled && CanHear(before, e) then before + [e] else before
  }

  /** The history when the call has settled; if nothing of the script settles it, its timer does. */
  function SettledBy(history: seq<Event>, call: nat, script: seq<Event>): seq<Event> {
    var heard := HeardUntil(history, call, script);
    if call in Run(heard).settled then heard else heard + [Timer(Run(heard).requestCount)]
  }

  /** The history of a client after an attempt: the idle script, the prompt, and what settles it. */
  function HistoryOf(history: seq<Event>, outside: Outside): seq<Event> {
    var idled := Idled(history, outside.idle);
    SettledBy(idled + [Call, Begin(Calls(idled))], Calls(idled), outside.busy)
  }

  /** How the last call of a history settled. */
  function How(history: seq<Event>): Settlement {
    var s := Run(history);
    if |s.waitsFor| > 0 && |s.waitsFor| - 1 in s.settled then s.settled[|s.waitsFor| - 1] else Rejected(Unavailable)
  }

  /** The last call of a history has settled. */
  predicate LastSettled(history: seq<Event>) {
    Calls(history) > 0 && Calls(history) - 1 in Run(history).settled
  }

  /** A possible history of a client at rest, in which no prompt began after a failure. */
  ghost predicate GoodRest(history: seq<Event>) {
    Possible(history) && Disciplined(history) && AtRest(Run(history))
  }

  ghost predicate GoodAsked(history: seq<Event>, call: nat) {
    Possible(history) && Disciplined(history) && Asked(Run(history), call)
  }

  lemma {:induction false} HeardStops(history: seq<Event>, call: nat, script: seq<Event>, n: nat)
    requires n <= |script| && call in Run(HeardUntil(history, call, script[..n])).settled
    ensures HeardUntil(history, call, script) == HeardUntil(history, call, script[..n])
  {
    if n < |script| {
      assert script[..|script| - 1][..n] == script[..n];
      HeardStops(history, call, script[..|script| - 1], n);
    } else {
      assert script[..n] == script;
    }
  }

  lemma {:induction false} IdledRests(history: seq<Event>, script: seq<Event>)
    requires GoodRest(history)
    ensures GoodRest(Idled(history, script)) && history <= Idled(history, script)
    ensures Calls(Idled(history, script)) == Calls(history)
  {
    if script != [] {
      var before, e := Idled(history, script[..|script| - 1]), script[|script| - 1];
      IdledRests(history, script[..|script| - 1]);
      if CanHear(before, e) {
        RunSound(before);
        RestStays(Run(before), e);
        OutsideKeepsCalls(Run(before), e);
        Continue(before, e);
      }
    }
  }

  lemma {:induction false} AskedHears(history: seq<Event>, call: nat, e: Event)
    requires GoodAsked(history, call) && call !in Run(history).settled && CanHear(history, e)
    ensures GoodAsked(history + [e], call) && Run(history + [e]) == Step(Run(history), e)
  {
    RunSound(history);
    AskedStays(Run(history), e, call);
    Continue(history, e);
  }

  lemma {:induction false} HeardAsked(history: seq<Event>, call: nat, script: seq<Event>)
    requires GoodAsked(history, call)
    ensures GoodAsked(HeardUntil(history, call, script), call) && history <= HeardUntil(history, call, script)
  {
    if script != [] {
      var before, e := HeardUntil(history, call, script[..|script| - 1]), script[|script| - 1];
      HeardAsked(history, call, script[..|script| - 1]);
      if call !in Run(before).settled && CanHear(before, e) {
        AskedHears(before, call, e);
      }
    }
  }

  /** The call settles, whatever the script. */
  lemma {:induction false} SettledByExact(history: seq<Event>, call: nat, script: seq<Event>)
    requires GoodAsked(history, call)
    ensures var settled := SettledBy(history, call, script);
            GoodAsked(settled, call) && history <= settled && call in Run(settled).settled
  {
    var heard := HeardUntil(history, call, script);
    HeardAsked(history, call, script);
    if call !in Run(heard).settled {
      RunSound(heard);
      AskedHasTimer(Run(heard), call);
      AskedHears(heard, call, Timer(Run(heard).requestCount));
    }
  }

  lemma {:induction false} HistorySettles(history: seq<Event>, outside: Outside)
    requires GoodRest(history)
    ensures var after, call := HistoryOf(history, outside), Calls(history);
            history <= after && GoodAsked(after, call) && call in Run(after).settled
  {
    var idled := Idled(history, outside.idle);
    IdledRests(history, outside.idle);
    Asking(idled);
    SettledByExact(idled + [Call, Begin(Calls(idled))], Calls(idled), outside.busy);
  }

  /**
   An attempt on a client at rest makes one call, which settles. If it resolves, the client is at rest
   again, and the text is the process's answer to this very request.
   */
  lemma {:induction false} HistoryExact(history: seq<Event>, outside: Outside)
    requires GoodRest(history)
    ensures var after := HistoryOf(history, outside);
            && history <= after && Possible(after) && Disciplined(after)
            && Calls(after) == Calls(history) + 1 && LastSettled(after)
            && (How(after).Resolved? ==> GoodRest(after) && AnswersLast(Run(after), How(after).text))
  {
    HistorySettles(history, outside);
    AskedSettles(HistoryOf(history, outside), Calls(history));
  }

  lemma {:induction false} AskedSettles(after: seq<Event>, call: nat)
    requires GoodAsked(after, call) && call in Run(after).settled
    ensures Calls(after) == call + 1 && LastSettled(after) && How(after) == Run(after).settled[call]
    ensures How(after).Resolved? ==> GoodRest(after) && AnswersLast(Run(after), How(after).text)
  {
    if How(after).Resolved? {
      ResolvedByOwn(after, call);
    }
  }

  // ---------- Every behaviour has its script ----------

  lemma {:induction false} LastPossible(events: seq<Event>, e: Event)
    requires Possible(events + [e])
    ensures Possible(events) && Enabled(Run(events), e)
  {
    assert (events + [e])[..|events|] == events;
  }

  lemma {:induction false} IdledNext(history: seq<Event>, init: seq<Event>, e: Event)
    requires CanHear(Idled(history, init), e)
    ensures Idled(history, init + [e]) == Idled(history, init) + [e]
  {
    assert (init + [e])[..|init|] == init;
  }

  lemma {:induction false} IdledAll(history: seq<Event>, script: seq<Event>, n: nat)
    requires n <= |script| && Possible(history + script[..n]) && forall e :: e in script ==> FromOutside(e)
    ensures Idled(history, script[..n]) == history + script[..n]
  {
    if n == 0 {
      assert history + script[..0] == history;
    } else {
      OneMore(script, n - 1);
      Regroup(history, script[..n - 1], [script[n - 1]]);
      LastPossible(history + script[..n - 1], script[n - 1]);
      IdledAll(history, script, n - 1);
      IdledNext(history, script[..n - 1], script[n - 1]);
    }
  }

  lemma {:induction false} HeardNext(history: seq<Event>, call: nat, init: seq<Event>, e: Event)
    requires HeardUntil(history, call, init) == history + init && FromOutside(e)
    requires Possible(history + init + [e]) && call !in Run(history + init).settled
    ensures HeardUntil(history, call, init + [e]) == history + init + [e]
  {
    assert (init + [e])[..|init|] == init;
    LastPossible(history + init, e);
  }

  lemma {:induction false} UnsettledBefore(events: seq<Event>, e: Event, call: nat)
    requires call !in Run(events + [e]).settled
    ensures call !in Run(events).settled
  {
    assert (events + [e])[..|events|] == events;
    StepLater(Run(events), e);
  }

  lemma PrefixPlus(history: seq<Event>, script: seq<Event>, n: nat)
    requires 0 < n <= |script|
    ensures history + script[..n] == history + script[..n - 1] + [script[n - 1]]
    ensures script[..n] == script[..n - 1] + [script[n - 1]] && script[n - 1] in script
  {
  }

  lemma {:induction false} HeardAll(history: seq<Event>, call: nat, script: seq<Event>, n: nat)
    requires n <= |script| && Possible(history + script[..n]) && forall e :: e in script ==> FromOutside(e)
    requires n > 0 ==> call !in Run(history + script[..n - 1]).settled
    ensures HeardUntil(history, call, script[..n]) == history + script[..n]
  {
    if n == 0 {
      assert history + script[..0] == history;
    } else {
      PrefixPlus(history, script, n);
      LastPossible(history + script[..n - 1], script[n - 1]);
      if n > 1 {
        PrefixPlus(history, script, n - 1);
        UnsettledBefore(history + script[..n - 2], script[n - 2], call);
      }
      HeardAll(history, call, script, n - 1);
      HeardNext(history, call, script[..n - 1], script[n - 1]);
    }
  }

  lemma {:induction false} SettledAll(history: seq<Event>, call: nat, script: seq<Event>)
    requires Possible(history + script) && forall e :: e in script ==> FromOutside(e)
    requires call in Run(history + script).settled
    requires script != [] ==> call !in Run(history + script[..|script| - 1]).settled
    ensures SettledBy(history, call, script) == history + script
  {
    assert script[..|script|] == script;
    HeardAll(history, call, script, |script|);
  }

  /**
   Whatever a client's process can do around a prompt, up to the event that settles it, happens for some
   script: the attempts are not restricted to some of these behaviours.
   */
  lemma {:induction false} EveryBehaviour(history: seq<Event>, idle: seq<Event>, busy: seq<Event>, spawns: bool)
    requires forall e :: e in idle + busy ==> !e.Call? && !e.Begin? && !e.Close?
    requires var call := |Run(history + idle).waitsFor|;
             var asked := history + idle + [Call, Begin(call)];
             && Possible(history + idle) && Possible(asked + busy) && call in Run(asked + busy).settled
             && (busy != [] ==> call !in Run(asked + busy[..|busy| - 1]).settled)
    ensures HistoryOf(history, Outside(spawns, idle, busy)) ==
            history + idle + [Call, Begin(|Run(history + idle).waitsFor|)] + busy
  {
    var call := Calls(history + idle);
    assert forall e :: e in idle ==> e in idle + busy;
    assert forall e :: e in busy ==> e in idle + busy;
    assert idle[..|idle|] == idle;
    IdledAll(history, idle, |idle|);
    SettledAll(history + idle + [Call, Begin(call)], call, busy);
  }

  lemma GoodStart()
    ensures GoodRest([]) && Calls([]) == 0
  {
  }
}
