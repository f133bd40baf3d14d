/**
 The client that sends one prompt at a time to the pi process (PiRpcClient in
 openclaw/scripts/control-ui-i18n.ts), as a state machine over everything that can happen to it.
 */
module RpcClient {
  import opened Prelude

  datatype Reason =
    | Unavailable | PromptFailed | AgentError | TimedOut | WriteFailed | ProcessFailed | ProcessClosed
  datatype Settlement = Resolved(text: string) | Rejected(reason: Reason)

  datatype PendingPrompt = PendingPrompt(id: nat, responseReceived: bool)

  // The client's fields, with the promises and timers they refer to. Calls of prompt() are
  // numbered from 0, requests sent to the process from 1. `waitsFor[n]` is the call whose result
  // call n was chained to, `callOf[id - 1]` the call that sent request id, and `answers` what the
  // process has reported at the end of each request (None for a failed agent run).
  datatype State = State(
    closed: bool, pending: Option<PendingPrompt>, requestCount: nat, sequence: Option<nat>,
    waitsFor: seq<Option<nat>>, begun: set<nat>, callOf: seq<nat>, settled: map<nat, Settlement>,
    timers: set<nat>, answers: map<nat, Option<string>>)

  const INITIAL := State(false, None, 0, None, [], {}, [], map[], {}, map[])

  datatype Event =
    | Call                                          // prompt() is called
    | Begin(call: nat)                              // the chained body of a call runs
    | Noise                                         // a line that is not a known message
    | Response(id: nat, success: bool)              // a "response" line
    | AgentEnd(origin: nat, result: Option<string>) // an "agent_end" line; it carries no request id
    | Timer(id: nat)                                // a request's timer fires
    | WriteError(id: nat)                           // writing a request failed
    | ProcessError
    | ProcessClose
    | Close                                         // close() is called

  /** Which events can happen. The process ends each request it has received at most once. */
  predicate Enabled(s: State, e: Event) {
    match e
    case Begin(n) =>
      n < |s.waitsFor| && n !in s.begun && (s.waitsFor[n].Some? ==> s.waitsFor[n].value in s.settled)
    case AgentEnd(origin, _) => 1 <= origin <= s.requestCount && origin !in s.answers
    case Timer(id) => id in s.timers
    case WriteError(id) => 1 <= id <= |s.callOf|
    case _ => true
  }

  /** A promise keeps its first settlement. */
  function Settle(s: State, call: nat, how: Settlement): State {
    if call in s.settled then s else s.(settled := s.settled[call := how])
  }

  /** Settling the pending prompt, which also clears its timer. */
  function SettlePending(s: State, how: Settlement): State {
    if s.pending.None? || !(1 <= s.pending.value.id <= |s.callOf|) then s.(pending := None)
    else
      var id := s.pending.value.id;
      Settle(s.(pending := None, timers := s.timers - {id}), s.callOf[id - 1], how)
  }

  function Step(s: State, e: Event): State {
    match e
    case Call =>
      s.(waitsFor := s.waitsFor + [s.sequence], sequence := Some(|s.waitsFor|))
    case Begin(n) =>
      if s.closed then Settle(s.(begun := s.begun + {n}), n, Rejected(Unavailable))
      else
        var id := s.requestCount + 1;
        s.(begun := s.begun + {n}, requestCount := id, callOf := s.callOf + [n], timers := s.timers + {id},
           pending := Some(PendingPrompt(id, false)))
    case Noise => s
    case Response(id, success) =>
      if s.pending.None? || s.pending.value.id != id then s
      else if !success then SettlePending(s, Rejected(PromptFailed))
      else s.(pending := Some(s.pending.value.(responseReceived := true)))
    case AgentEnd(origin, result) =>
      var s' := s.(answers := s.answers[origin := result]);
      if s.pending.None? then s'
      else SettlePending(s', if result.Some? then Resolved(result.value) else Rejected(AgentError))
    case Timer(id) =>
      var s' := s.(timers := s.timers - {id});
      if s.pending.Some? && s.pending.value.id == id then SettlePending(s'.(closed := true), Rejected(TimedOut)) else s'
    case WriteError(id) =>
      var s' := s.(timers := s.timers - {id});
      if s.pending.Some? && s.pending.value.id == id then SettlePending(s', Rejected(WriteFailed))
      else if 1 <= id <= |s.callOf| then Settle(s', s.callOf[id - 1], Rejected(WriteFailed)) else s'
    case ProcessError => SettlePending(s, Rejected(ProcessFailed))
    case ProcessClose => SettlePending(s.(closed := true), Rejected(ProcessClosed))
    case Close => s.(closed := true)
  }

  // ---------- The class ----------

  class PiRpcClient {
    var closed: bool
    var pending: Option<PendingPrompt>
    var requestCount: nat
    var sequence: Option<nat>
    // The promises and timers of the runtime that hold the client's callbacks, and the requests ended.
    var waitsFor: seq<Option<nat>>
    var begun: set<nat>
    var callOf: seq<nat>
    var settled: map<nat, Settlement>
    var timers: set<nat>
    var answers: map<nat, Option<string>>

    function Model(): State
      reads this
    {
      State(closed, pending, requestCount, sequence, waitsFor, begun, callOf, settled, timers, answers)
    }

    constructor ()
      ensures Model() == INITIAL
    {
      closed, pending, requestCount, sequence := false, None, 0, None;
      waitsFor, begun, callOf, settled, timers, answers := [], {}, [], map[], {}, map[];
    }

    method SettleCall(call: nat, how: Settlement)
      modifies this`settled
      ensures Model() == Settle(old(Model()), call, how)
    {
      if call !in settled {
        settled := settled[call := how];
      }
    }

    method RejectOrResolvePending(how: Settlement)
      modifies this`pending, this`timers, this`settled
      ensures Model() == SettlePending(old(Model()), how)
    {
      var prompt := pending;
      pending := None;
      if prompt.Some? && 1 <= prompt.value.id <= |callOf| {
        timers := timers - {prompt.value.id};
        SettleCall(callOf[prompt.value.id - 1], how);
      }
    }

    method Prompt() returns (call: nat)
      modifies this`waitsFor, this`sequence
      ensures call == |old(waitsFor)| && Model() == Step(old(Model()), Call)
    {
      call := |waitsFor|;
      waitsFor := waitsFor + [sequence];
      sequence := Some(call);
    }

    method RunPrompt(call: nat)
      requires Enabled(Model(), Begin(call))
      modifies this
      ensures Model() == Step(old(Model()), Begin(call))
    {
      begun := begun + {call};
      if closed {
        SettleCall(call, Rejected(Unavailable));
        return;
      }
      requestCount := requestCount + 1;
      callOf := callOf + [call];
      timers := timers + {requestCount};
      pending := Some(PendingPrompt(requestCount, false));
    }

    method HandleStdoutLine(line: Event)
      requires line.Noise? || line.Response? || line.AgentEnd?
      requires Enabled(Model(), line)
      modifies this
      ensures Model() == Step(old(Model()), line)
    {
      if line.AgentEnd? {
        answers := answers[line.origin := line.result];
      }
      if pending.None? {
        return;
      }
      match line
      case Response(id, success) =>
        if id != pending.value.id {
          return;
        }
        if !success {
          RejectOrResolvePending(Rejected(PromptFailed));
          return;
        }
        pending := Some(PendingPrompt(pending.value.id, true));
      case AgentEnd(_, result) =>
        RejectOrResolvePending(if result.Some? then Resolved(result.value) else Rejected(AgentError));
      case _ =>
    }

    method OnTimer(id: nat)
      requires Enabled(Model(), Timer(id))
      modifies this
      ensures Model() == Step(old(Model()), Timer(id))
    {
      timers := timers - {id};
      if pending.Some? && pending.value.id == id {
        CloseClient();
        RejectOrResolvePending(Rejected(TimedOut));
      }
    }

    method OnWriteError(id: nat)
      requires Enabled(Model(), WriteError(id))
      modifies this
      ensures Model() == Step(old(Model()), WriteError(id))
    {
      timers := timers - {id};
      if pending.Some? && pending.value.id == id {
        RejectOrResolvePending(Rejected(WriteFailed));
      } else {
        SettleCall(callOf[id - 1], Rejected(WriteFailed));
      }
    }

    method OnProcessError()
      modifies this
      ensures Model() == Step(old(Model()), ProcessError)
    {
      RejectOrResolvePending(Rejected(ProcessFailed));
    }

    method OnProcessClose()
      modifies this
      ensures Model() == Step(old(Model()), ProcessClose)
    {
      closed := true;
      RejectOrResolvePending(Rejected(ProcessClosed));
    }

    method CloseClient()
      modifies this`closed
      ensures Model() == Step(old(Model()), Close)
    {
      if closed {
        return;
      }
      closed := true;
    }
  }

  // ---------- Runs ----------

  function Run(events: seq<Event>): State {
    if events == [] then INITIAL else Step(Run(events[..|events| - 1]), events[|events| - 1])
  }

  /** Every event of the run was possible when it happened. */
  predicate Possible(events: seq<Event>) {
    events != [] ==>
      Possible(events[..|events| - 1]) && Enabled(Run(events[..|events| - 1]), events[|events| - 1])
  }

  // ---------- What holds in every reachable state ----------

  /** The chain of calls: each waits for the one before it, and they begin in order. */
  ghost predicate Chained(s: State) {
    && s.sequence == (if |s.waitsFor| == 0 then None else Some(|s.waitsFor| - 1))
    && (forall n :: 0 <= n < |s.waitsFor| ==> s.waitsFor[n] == if n == 0 then None else Some(n - 1))
    && (forall n :: n in s.begun ==> n < |s.waitsFor|)
    && (forall n, m :: n in s.begun && 0 <= m < n ==> m in s.settled)
    && (forall n :: n in s.settled ==> n in s.begun)
  }

  /** The requests: sent by begun calls, in the order of the calls. */
  ghost predicate Numbered(s: State) {
    && |s.callOf| == s.requestCount
    && (forall i, j :: 0 <= i < j < |s.callOf| ==> s.callOf[i] < s.callOf[j])
    && (forall i :: 0 <= i < |s.callOf| ==> s.callOf[i] in s.begun)
    && (forall o :: o in s.answers ==> 1 <= o <= s.requestCount)
  }

  /** The only unsettled call that has begun is the one whose request is pending; exactly its timer is armed. */
  ghost predicate Tracked(s: State) {
    && (s.pending.Some? ==>
          s.pending.value.id == s.requestCount == |s.callOf| >= 1 && s.callOf[|s.callOf| - 1] !in s.settled)
    && (forall n :: n in s.begun ==> n in s.settled || (s.pending.Some? && n == s.callOf[|s.callOf| - 1]))
    && s.timers == (if s.pending.Some? then {s.requestCount} else {})
  }

  /** A client that timed out, lost its process or turned a call away is closed. */
  ghost predicate ClosedAfterTimeout(s: State) {
    forall n ::
      n in s.settled && s.settled[n].Rejected? && s.settled[n].reason in {TimedOut, ProcessClosed, Unavailable}
      ==> s.closed
  }

  ghost predicate Sound(s: State) {
    Chained(s) && Numbered(s) && Tracked(s) && ClosedAfterTimeout(s)
  }

  /** Request `id` has been sent and its call is not settled. */
  predicate InFlight(s: State, id: int) {
    1 <= id <= |s.callOf| && s.callOf[id - 1] !in s.settled
  }

  /** `pending` names a request exactly if that request is in flight, and then its timer is armed. */
  lemma PendingIffInFlight(s: State, id: int)
    requires Sound(s)
    ensures s.pending.Some? && s.pending.value.id == id <==> InFlight(s, id)
    ensures InFlight(s, id) ==> id in s.timers
  {
    if InFlight(s, id) {
      assert s.callOf[id - 1] in s.begun;
      assert s.pending.Some?;
      assert id - 1 == |s.callOf| - 1;
    }
  }

  /** A change that settles nothing and sends nothing. */
  lemma QuietSound(s: State, s': State)
    requires Sound(s) && s' == s.(closed := s'.closed, pending := s'.pending, answers := s'.answers)
    requires s.closed ==> s'.closed
    requires s.pending.None? ==> s'.pending.None?
    requires s.pending.Some? ==> s'.pending.Some? && s'.pending.value.id == s.pending.value.id
    requires forall o :: o in s'.answers ==> 1 <= o <= s.requestCount
    ensures Sound(s')
  {
  }

  /** What settling the pending prompt does in a sound state. */
  function Settled(s: State, how: Settlement): State
    requires |s.callOf| >= 1
  {
    s.(pending := None, timers := {}, settled := s.settled[s.callOf[|s.callOf| - 1] := how])
  }

  lemma SettledSound(s: State, how: Settlement)
    requires Sound(s) && s.pending.Some?
    requires how.Rejected? && how.reason in {TimedOut, ProcessClosed, Unavailable} ==> s.closed
    ensures SettlePending(s, how) == Settled(s, how) && Sound(Settled(s, how))
  {
    var last := s.callOf[|s.callOf| - 1];
    var s' := Settled(s, how);
    assert s.timers - {s.requestCount} == {};
    assert last in s.begun;
    assert Chained(s');
    assert Numbered(s');
    assert Tracked(s');
    assert ClosedAfterTimeout(s');
  }

  lemma SettlePendingSound(s: State, how: Settlement)
    requires Sound(s)
    requires how.Rejected? && how.reason in {TimedOut, ProcessClosed, Unavailable} ==> s.closed
    ensures SettlePending(s, how) == (if s.pending.None? then s else Settled(s, how))
    ensures Sound(SettlePending(s, how))
  {
    if s.pending.Some? {
      SettledSound(s, how);
    }
  }

  lemma CallSound(s: State)
    requires Sound(s)
    ensures Sound(Step(s, Call))
  {
    var s' := Step(s, Call);
    assert Chained(s');
  }

  /** A call's turn comes only when nothing is pending and every call before it is settled. */
  lemma BeginAlone(s: State, n: nat)
    requires Sound(s) && Enabled(s, Begin(n))
    ensures s.pending.None? && s.timers == {}
    ensures forall m :: m in s.begun ==> m < n && m in s.settled
    ensures forall m :: 0 <= m < n ==> m in s.settled
  {
    assert n > 0 ==> n - 1 in s.settled && n - 1 in s.begun;
    forall m | 0 <= m < n
      ensures m in s.settled
    {
      assert m < n - 1 ==> n - 1 in s.begun;
    }
    forall m | m in s.begun
      ensures m < n
    {
      assert m > n ==> n in s.settled;
      assert n in s.settled ==> n in s.begun;
    }
    assert |s.callOf| >= 1 ==> s.callOf[|s.callOf| - 1] in s.begun;
  }

  lemma BeginSound(s: State, n: nat)
    requires Sound(s) && Enabled(s, Begin(n))
    ensures Sound(Step(s, Begin(n)))
  {
    BeginAlone(s, n);
    var s' := Step(s, Begin(n));
    assert n !in s.settled;
    assert Chained(s');
    assert Numbered(s');
    assert Tracked(s');
    assert ClosedAfterTimeout(s');
  }

  /** What an event of each kind comes to in a sound state. */
  lemma TimerStep(s: State, id: nat)
    requires Sound(s) && Enabled(s, Timer(id))
    ensures s.pending.Some? && id == s.requestCount
    ensures Step(s, Timer(id)) == Settled(s.(closed := true), Rejected(TimedOut))
    ensures Sound(Step(s, Timer(id)))
  {
    QuietSound(s, s.(closed := true));
    SettledSound(s.(closed := true), Rejected(TimedOut));
    assert s.timers - {id} - {id} == {};
  }

  lemma WriteErrorStep(s: State, id: nat)
    requires Sound(s) && Enabled(s, WriteError(id))
    ensures Step(s, WriteError(id)) ==
            if s.pending.Some? && id == s.requestCount then Settled(s, Rejected(WriteFailed)) else s
    ensures Sound(Step(s, WriteError(id)))
  {
    if s.pending.Some? && id == s.requestCount {
      SettledSound(s, Rejected(WriteFailed));
      assert s.timers - {id} - {id} == {};
    } else {
      PendingIffInFlight(s, id);
      assert s.timers - {id} == s.timers;
    }
  }

  lemma StepSound(s: State, e: Event)
    requires Sound(s) && Enabled(s, e)
    ensures Sound(Step(s, e))
  {
    match e
    case Call => CallSound(s);
    case Begin(n) => BeginSound(s, n);
    case Noise =>
    case Response(id, success) =>
      if s.pending.Some? && s.pending.value.id == id {
        if success {
          QuietSound(s, Step(s, e));
        } else {
          SettlePendingSound(s, Rejected(PromptFailed));
        }
      }
    case AgentEnd(origin, result) =>
      var s' := s.(answers := s.answers[origin := result]);
      QuietSound(s, s');
      SettlePendingSound(s', if result.Some? then Resolved(result.value) else Rejected(AgentError));
    case Timer(id) => TimerStep(s, id);
    case WriteError(id) => WriteErrorStep(s, id);
    case ProcessError => SettlePendingSound(s, Rejected(ProcessFailed));
    case ProcessClose =>
      QuietSound(s, s.(closed := true));
      SettlePendingSound(s.(closed := true), Rejected(ProcessClosed));
    case Close => QuietSound(s, s.(closed := true));
  }

  /** The event settles the call whose request was sent last, and nothing else of the client changes. */
  ghost predicate Settles(s: State, s': State, how: Settlement) {
    && s.pending.Some? && 1 <= |s.callOf|
    && s' == s.(pending := None, timers := {}, settled := s.settled[s.callOf[|s.callOf| - 1] := how])
  }

  /**
   What every event does to a client in a reachable state. A line about another request than the pending one
   is ignored, a success keeps it pending, and an end of the agent's work settles whatever is pending.
   */
  lemma StepExactly(s: State, e: Event)
    requires Sound(s) && Enabled(s, e)
    ensures var s', n := Step(s, e), |s.waitsFor|;
            match e
            case Call => s' == s.(waitsFor := s.waitsFor + [if n == 0 then None else Some(n - 1)], sequence := Some(n))
            case Begin(call) =>
              if s.closed then s' == s.(begun := s.begun + {call}, settled := s.settled[call := Rejected(Unavailable)])
              else
                var id := s.requestCount + 1;
                s' == s.(begun := s.begun + {call}, requestCount := id, callOf := s.callOf + [call], timers := {id},
                         pending := Some(PendingPrompt(id, false)))
            case Noise => s' == s
            case Response(id, success) =>
              if s.pending.None? || id != s.requestCount then s' == s
              else if success then s' == s.(pending := Some(PendingPrompt(id, true)))
              else Settles(s, s', Rejected(PromptFailed))
            case AgentEnd(origin, result) =>
              var heard := s.(answers := s.answers[origin := result]);
              if s.pending.None? then s' == heard
              else Settles(heard, s', match result case Some(text) => Resolved(text) case None => Rejected(AgentError))
            case Timer(_) => Settles(s.(closed := true), s', Rejected(TimedOut))
            case WriteError(id) =>
              if s.pending.None? || id != s.requestCount then s' == s else Settles(s, s', Rejected(WriteFailed))
            case ProcessError => if s.pending.None? then s' == s else Settles(s, s', Rejected(ProcessFailed))
            case ProcessClose =>
              var closed := s.(closed := true);
              if s.pending.None? then s' == closed else Settles(closed, s', Rejected(ProcessClosed))
            case Close => s' == s.(closed := true)
  {
    match e
    case Begin(call) => BeginAlone(s, call);
    case Response(_, _) => SettlePendingSound(s, Rejected(PromptFailed));
    case AgentEnd(origin, result) =>
      var heard := s.(answers := s.answers[origin := result]);
      QuietSound(s, heard);
      SettlePendingSound(heard, if result.Some? then Resolved(result.value) else Rejected(AgentError));
    case Timer(id) => TimerStep(s, id);
    case WriteError(id) => WriteErrorStep(s, id);
    case ProcessError => SettlePendingSound(s, Rejected(ProcessFailed));
    case ProcessClose =>
      QuietSound(s, s.(closed := true));
      SettlePendingSound(s.(closed := true), Rejected(ProcessClosed));
    case _ =>
  }

  /** Over every run: one prompt at a time, in call order, tracked by `pending` and guarded by a timer. */
  lemma {:induction false} RunSound(events: seq<Event>)
    requires Possible(events)
    ensures Sound(Run(events))
  {
    if events != [] {
      RunSound(events[..|events| - 1]);
      StepSound(Run(events[..|events| - 1]), events[|events| - 1]);
    }
  }

  // ---------- Settled once, closed for good ----------

  /** A settled call keeps its settlement, a closed client stays closed, and it sends nothing more. */
  ghost predicate Later(s: State, s': State) {
    && (forall n :: n in s.settled ==> n in s'.settled && s'.settled[n] == s.settled[n])
    && (s.closed ==> s'.closed && s'.callOf == s.callOf)
  }

  lemma SettlePendingLater(s: State, how: Settlement)
    ensures Later(s, SettlePending(s, how))
  {
  }

  lemma StepLater(s: State, e: Event)
    ensures Later(s, Step(s, e))
  {
    match e
    case Response(_, _) => SettlePendingLater(s, Rejected(PromptFailed));
    case AgentEnd(origin, result) =>
      SettlePendingLater(s.(answers := s.answers[origin := result]),
                         if result.Some? then Resolved(result.value) else Rejected(AgentError));
    case Timer(id) => SettlePendingLater(s.(timers := s.timers - {id}, closed := true), Rejected(TimedOut));
    case WriteError(id) => SettlePendingLater(s.(timers := s.timers - {id}), Rejected(WriteFailed));
    case ProcessError => SettlePendingLater(s, Rejected(ProcessFailed));
    case ProcessClose => SettlePendingLater(s.(closed := true), Rejected(ProcessClosed));
    case _ =>
  }

  /** Whatever happens later, a call settles once and a closed client sends nothing. */
  lemma {:induction false} SettledOnce(events: seq<Event>, n: nat)
    requires n <= |events|
    ensures Later(Run(events[..n]), Run(events))
  {
    if n < |events| {
      SettledOnce(events[..|events| - 1], n);
      assert events[..|events| - 1][..n] == events[..n];
      StepLater(Run(events[..|events| - 1]), events[|events| - 1]);
    } else {
      assert events[..n] == events;
    }
  }

  /** After a timeout no later prompt starts on the client. */
  lemma {:induction false} NothingStartsAfterTimeout(events: seq<Event>, n: nat, call: nat)
    requires Possible(events) && n <= |events|
    requires call in Run(events[..n]).settled && Run(events[..n]).settled[call] == Rejected(TimedOut)
    ensures Run(events).callOf == Run(events[..n]).callOf
  {
    PossiblePrefix(events, n);
    RunSound(events[..n]);
    SettledOnce(events, n);
  }

  lemma {:induction false} PossiblePrefix(events: seq<Event>, n: nat)
    requires Possible(events) && n <= |events|
    ensures Possible(events[..n])
  {
    if n < |events| {
      PossiblePrefix(events[..|events| - 1], n);
      assert events[..|events| - 1][..n] == events[..n];
    } else {
      assert events[..n] == events;
    }
  }

  // ---------- Whose answer is it? ----------

  /** A prompt failed in a way that neither consumed its agent_end nor closed the client. */
  ghost predicate SoftFailure(s: State) {
    exists n :: n in s.settled && IsSoft(s.settled[n])
  }

  predicate IsSoft(how: Settlement) {
    how.Rejected? && how.reason in {PromptFailed, WriteFailed, ProcessFailed}
  }

  /** Every resolved call got the answer to its own request. */
  ghost predicate OwnAnswers(s: State) {
    forall i :: 0 <= i < |s.callOf| && s.callOf[i] in s.settled && s.settled[s.callOf[i]].Resolved?
      ==> i + 1 in s.answers && s.answers[i + 1] == Some(s.settled[s.callOf[i]].text)
  }

  /** All requests before the latest one have been answered. */
  ghost predicate EarlierAnswered(s: State) {
    forall id :: 1 <= id < s.requestCount ==> id in s.answers
  }

  /** An open client with nothing pending has been answered completely. */
  ghost predicate LatestAnswered(s: State) {
    s.pending.None? && !s.closed && s.requestCount > 0 ==> s.requestCount in s.answers
  }

  lemma AnswerKeepsOwn(s: State, origin: nat, result: Option<string>)
    requires OwnAnswers(s) && origin !in s.answers
    ensures OwnAnswers(s.(answers := s.answers[origin := result]))
  {
  }

  lemma SettledKeepsOwn(s: State, how: Settlement)
    requires Sound(s) && s.pending.Some? && OwnAnswers(s)
    requires how.Resolved? ==> s.requestCount in s.answers && s.answers[s.requestCount] == Some(how.text)
    ensures OwnAnswers(Settled(s, how))
  {
    var s' := Settled(s, how);
    forall i | 0 <= i < |s'.callOf| && s'.callOf[i] in s'.settled && s'.settled[s'.callOf[i]].Resolved?
      ensures i + 1 in s'.answers && s'.answers[i + 1] == Some(s'.settled[s'.callOf[i]].text)
    {
      if i < |s.callOf| - 1 {
        assert s.callOf[i] < s.callOf[|s.callOf| - 1];
      }
    }
  }

  /** While all earlier requests are answered, an agent_end can only be the pending request's own. */
  lemma AgentEndIsOwn(s: State, origin: nat, result: Option<string>)
    requires Sound(s) && EarlierAnswered(s) && OwnAnswers(s) && Enabled(s, AgentEnd(origin, result))
    ensures origin == s.requestCount
    ensures OwnAnswers(Step(s, AgentEnd(origin, result)))
  {
    var s1 := s.(answers := s.answers[origin := result]);
    var how := if result.Some? then Resolved(result.value) else Rejected(AgentError);
    AnswerKeepsOwn(s, origin, result);
    QuietSound(s, s1);
    SettlePendingSound(s1, how);
    if s.pending.Some? {
      SettledKeepsOwn(s1, how);
    }
  }

  lemma RejectingKeepsOwn(s: State, call: nat, reason: Reason)
    requires OwnAnswers(s)
    ensures OwnAnswers(Settle(s, call, Rejected(reason)))
  {
  }

  lemma PendingRejectedKeepsOwn(s: State, reason: Reason)
    requires OwnAnswers(s)
    ensures OwnAnswers(SettlePending(s, Rejected(reason))) && SettlePending(s, Rejected(reason)).answers == s.answers
  {
    if s.pending.Some? && 1 <= s.pending.value.id <= |s.callOf| {
      var id := s.pending.value.id;
      RejectingKeepsOwn(s.(pending := None, timers := s.timers - {id}), s.callOf[id - 1], reason);
    }
  }

  lemma BeginKeepsOwn(s: State, n: nat)
    requires Sound(s) && Enabled(s, Begin(n)) && OwnAnswers(s)
    ensures OwnAnswers(Step(s, Begin(n))) && Step(s, Begin(n)).answers == s.answers
  {
    if s.closed {
      RejectingKeepsOwn(s.(begun := s.begun + {n}), n, Unavailable);
    } else {
      assert n !in s.settled;
    }
  }

  /** No other event resolves a call. */
  lemma OthersKeepOwnAnswers(s: State, e: Event)
    requires Sound(s) && Enabled(s, e) && OwnAnswers(s) && !e.AgentEnd?
    ensures OwnAnswers(Step(s, e)) && Step(s, e).answers == s.answers
  {
    match e
    case Begin(n) => BeginKeepsOwn(s, n);
    case Response(_, _) => PendingRejectedKeepsOwn(s, PromptFailed);
    case Timer(id) => PendingRejectedKeepsOwn(s.(timers := s.timers - {id}, closed := true), TimedOut);
    case WriteError(id) =>
      PendingRejectedKeepsOwn(s.(timers := s.timers - {id}), WriteFailed);
      RejectingKeepsOwn(s.(timers := s.timers - {id}), s.callOf[id - 1], WriteFailed);
    case ProcessError => PendingRejectedKeepsOwn(s, ProcessFailed);
    case ProcessClose => PendingRejectedKeepsOwn(s.(closed := true), ProcessClosed);
    case _ =>
  }

  lemma SettlingSendsNothing(s: State, how: Settlement)
    ensures SettlePending(s, how).requestCount == s.requestCount && SettlePending(s, how).answers == s.answers
  {
  }

  /** Which events send and answer requests. */
  lemma SentAndAnswered(s: State, e: Event)
    ensures Step(s, e).requestCount == if e.Begin? && !s.closed then s.requestCount + 1 else s.requestCount
    ensures Step(s, e).answers == if e.AgentEnd? then s.answers[e.origin := e.result] else s.answers
  {
    match e
    case Response(_, _) => SettlingSendsNothing(s, Rejected(PromptFailed));
    case AgentEnd(origin, result) =>
      SettlingSendsNothing(s.(answers := s.answers[origin := result]),
                           if result.Some? then Resolved(result.value) else Rejected(AgentError));
    case Timer(id) => SettlingSendsNothing(s.(timers := s.timers - {id}, closed := true), Rejected(TimedOut));
    case WriteError(id) => SettlingSendsNothing(s.(timers := s.timers - {id}), Rejected(WriteFailed));
    case ProcessError => SettlingSendsNothing(s, Rejected(ProcessFailed));
    case ProcessClose => SettlingSendsNothing(s.(closed := true), Rejected(ProcessClosed));
    case _ =>
  }

  lemma StepOwnAnswers(s: State, e: Event)
    requires Sound(s) && Enabled(s, e) && OwnAnswers(s) && EarlierAnswered(s)
    requires e.Begin? && !s.closed && s.requestCount > 0 ==> s.requestCount in s.answers
    ensures OwnAnswers(Step(s, e)) && EarlierAnswered(Step(s, e))
  {
    SentAndAnswered(s, e);
    if e.AgentEnd? {
      AgentEndIsOwn(s, e.origin, e.result);
    } else {
      OthersKeepOwnAnswers(s, e);
    }
  }

  /** An event that fails the pending prompt without closing the client; its agent_end stays out. */
  predicate FailsSoftly(s: State, e: Event) {
    s.pending.Some? && e in {Response(s.pending.value.id, false), WriteError(s.pending.value.id), ProcessError}
  }

  lemma SoftlySettled(s: State, e: Event)
    requires Sound(s) && Enabled(s, e) && FailsSoftly(s, e)
    ensures SoftFailure(Step(s, e))
    ensures Step(s, e).pending.None? && Step(s, e).closed == s.closed
    ensures Step(s, e).requestCount == s.requestCount && Step(s, e).answers == s.answers
  {
    var last := s.callOf[|s.callOf| - 1];
    match e {
      case Response(_, _) => SettlePendingSound(s, Rejected(PromptFailed));
      case WriteError(id) => WriteErrorStep(s, id);
      case _ => SettlePendingSound(s, Rejected(ProcessFailed));
    }
    assert last in Step(s, e).settled && IsSoft(Step(s, e).settled[last]);
  }

  /** An open client settles its pending prompt only by its agent_end or by a soft failure. */
  lemma StepLatestAnswered(s: State, e: Event)
    requires Sound(s) && Enabled(s, e) && EarlierAnswered(s) && OwnAnswers(s) && LatestAnswered(s)
    requires !FailsSoftly(s, e)
    ensures LatestAnswered(Step(s, e))
  {
    match e
    case AgentEnd(origin, result) => AgentEndIsOwn(s, origin, result);
    case Response(id, success) => SettlePendingSound(s, Rejected(PromptFailed));
    case Timer(id) => TimerStep(s, id);
    case WriteError(id) => WriteErrorStep(s, id);
    case ProcessError => SettlePendingSound(s, Rejected(ProcessFailed));
    case _ =>
  }

  /** Without a soft failure, agent_end lines are never credited to another prompt. */
  lemma {:induction false} AnswersAttributed(events: seq<Event>)
    requires Possible(events) && !SoftFailure(Run(events))
    ensures OwnAnswers(Run(events)) && EarlierAnswered(Run(events)) && LatestAnswered(Run(events))
  {
    if events != [] {
      var init, e := events[..|events| - 1], events[|events| - 1];
      StepLater(Run(init), e);
      assert forall n :: n in Run(init).settled ==> n in Run(events).settled;
      AnswersAttributed(init);
      RunSound(init);
      if e.Begin? {
        BeginAlone(Run(init), e.call);
      }
      StepOwnAnswers(Run(init), e);
      if FailsSoftly(Run(init), e) {
        SoftlySettled(Run(init), e);
        assert false;
      }
      StepLatestAnswered(Run(init), e);
    }
  }

  /** The callers' discipline: after a failed prompt the client is closed before another prompt begins on it. */
  ghost predicate Disciplined(events: seq<Event>) {
    events != [] ==>
      && Disciplined(events[..|events| - 1])
      && (events[|events| - 1].Begin? ==> AllResolved(Run(events[..|events| - 1])))
  }

  ghost predicate AllResolved(s: State) {
    s.closed || forall n :: n in s.settled ==> s.settled[n].Resolved?
  }

  /** Under that discipline each prompt gets its own answer or none; ClientAccess keeps it for every client. */
  lemma {:induction false} DisciplineAttributes(events: seq<Event>)
    requires Possible(events) && Disciplined(events)
    ensures OwnAnswers(Run(events)) && EarlierAnswered(Run(events))
  {
    if events != [] {
      var init, e := events[..|events| - 1], events[|events| - 1];
      var s := Run(init);
      DisciplineAttributes(init);
      RunSound(init);
      if e.Begin? {
        BeginAlone(s, e.call);
        if !s.closed && s.requestCount > 0 {
          assert s.callOf[s.requestCount - 1] in s.begun;
        }
      }
      StepOwnAnswers(s, e);
    }
  }

  // ---------- When an answer can go astray ----------

  /** Request `id` has been sent and the process has not ended it yet. */
  predicate Out(s: State, id: nat) {
    1 <= id <= s.requestCount && id !in s.answers
  }

  /**
   Some answer is still out that could be credited to another request: with a prompt pending, that of
   an earlier request; with none pending, that of any request while the client takes prompts.
   */
  ghost predicate AtRisk(s: State) {
    (s.pending.Some? || !s.closed) && exists id: nat :: Out(s, id) && (s.pending.Some? ==> id < s.requestCount)
  }

  lemma RiskExactly(s: State)
    ensures AtRisk(s) <==> (s.pending.Some? || !s.closed) && !(EarlierAnswered(s) && LatestAnswered(s))
  {
    if !EarlierAnswered(s) {
      var id :| 1 <= id < s.requestCount && id !in s.answers;
      assert Out(s, id);
    }
    if !LatestAnswered(s) {
      assert Out(s, s.requestCount);
    }
  }

  /** None of the events `more` that follow `events` is a soft failure. */
  predicate NoSoftFailures(events: seq<Event>, more: seq<Event>) {
    more != [] ==>
      && NoSoftFailures(events, more[..|more| - 1])
      && !FailsSoftly(Run(events + more[..|more| - 1]), more[|more| - 1])
  }

  /** Calls, their turns and the ends of requests. */
  predicate OnlyTurns(events: seq<Event>) {
    forall i :: 0 <= i < |events| ==> events[i].Call? || events[i].Begin? || events[i].AgentEnd?
  }

  lemma {:induction false} TurnsAreNoFailures(events: seq<Event>, more: seq<Event>)
    requires OnlyTurns(more)
    ensures NoSoftFailures(events, more)
  {
    if more != [] {
      assert OnlyTurns(more[..|more| - 1]);
      TurnsAreNoFailures(events, more[..|more| - 1]);
    }
  }

  /** A closed client without a pending prompt resolves nothing any more. */
  lemma StepAtRest(s: State, e: Event)
    requires Sound(s) && Enabled(s, e) && OwnAnswers(s) && s.closed && s.pending.None?
    ensures OwnAnswers(Step(s, e)) && Step(s, e).closed && Step(s, e).pending.None?
  {
    if e.WriteError? {
      WriteErrorStep(s, e.id);
    }
  }

  lemma StepNotAtRisk(s: State, e: Event)
    requires Sound(s) && Enabled(s, e) && OwnAnswers(s) && !AtRisk(s) && !FailsSoftly(s, e)
    ensures OwnAnswers(Step(s, e)) && !AtRisk(Step(s, e))
  {
    RiskExactly(s);
    RiskExactly(Step(s, e));
    if s.closed && s.pending.None? {
      StepAtRest(s, e);
    } else {
      if e.Begin? {
        BeginAlone(s, e.call);
      }
      StepOwnAnswers(s, e);
      StepLatestAnswered(s, e);
    }
  }

  lemma {:induction false} NotAtRiskStays(events: seq<Event>, more: seq<Event>)
    requires Possible(events + more) && OwnAnswers(Run(events)) && !AtRisk(Run(events)) && NoSoftFailures(events, more)
    ensures OwnAnswers(Run(events + more)) && !AtRisk(Run(events + more))
    decreases |more|
  {
    if more == [] {
      assert events + more == events;
    } else {
      var init, e := more[..|more| - 1], more[|more| - 1];
      assert (events + more)[..|events + more| - 1] == events + init;
      NotAtRiskStays(events, init);
      RunSound(events + init);
      StepNotAtRisk(Run(events + init), e);
    }
  }

  lemma StrayStep(s: State, id: nat, text: string)
    requires Sound(s) && s.pending.Some? && Out(s, id) && id < s.requestCount
    requires s.requestCount in s.answers ==> s.answers[s.requestCount] != Some(text)
    ensures !OwnAnswers(Step(s, AgentEnd(id, Some(text))))
  {
    var last := s.requestCount;
    var s1 := s.(answers := s.answers[id := Some(text)]);
    QuietSound(s, s1);
    SettlePendingSound(s1, Resolved(text));
    var s' := Settled(s1, Resolved(text));
    assert s'.callOf[last - 1] in s'.settled && s'.settled[s'.callOf[last - 1]] == Resolved(text);
  }

  /** An answer that arrives while a later request is pending is credited to that request. */
  lemma StrayAnswer(events: seq<Event>, id: nat) returns (e: Event)
    requires Possible(events) && Run(events).pending.Some? && Out(Run(events), id) && id < Run(events).requestCount
    ensures e.AgentEnd? && Possible(events + [e]) && !OwnAnswers(Run(events + [e]))
  {
    var s := Run(events);
    RunSound(events);
    var text := if s.requestCount in s.answers && s.answers[s.requestCount] == Some("") then "x" else "";
    e := AgentEnd(id, Some(text));
    StrayStep(s, id, text);
    Extend(events, e);
  }

  /** When nothing is pending, the first call that has not begun can begin. */
  lemma {:induction false} NextCall(s: State, n: nat) returns (call: nat)
    requires Sound(s) && s.pending.None? && n <= |s.waitsFor|
    requires forall m :: 0 <= m < n ==> m in s.begun
    ensures n <= call <= |s.waitsFor| && call !in s.begun
    ensures forall m :: 0 <= m < call ==> m in s.begun
    decreases |s.waitsFor| - n
  {
    call := n;
    if n in s.begun {
      call := NextCall(s, n + 1);
    }
  }

  /** When nothing is pending, some call can begin, if need be one made now. */
  lemma ReadyCall(events: seq<Event>) returns (made: seq<Event>, call: nat)
    requires Possible(events) && Run(events).pending.None?
    ensures OnlyTurns(made) && Possible(events + made) && Enabled(Run(events + made), Begin(call))
    ensures Run(events + made) == Run(events) || Run(events + made) == Step(Run(events), Call)
  {
    RunSound(events);
    call := NextCall(Run(events), 0);
    made := if call == |Run(events).waitsFor| then [Call] else [];
    if made == [] {
      assert events + made == events;
    } else {
      Extend(events, Call);
    }
    RunSound(events + made);
    assert call > 0 ==> call - 1 in Run(events + made).begun;
  }

  /** A call that begins on an open client sends a request. */
  lemma BeginSends(s: State, n: nat)
    requires !s.closed
    ensures var s' := Step(s, Begin(n));
            s'.pending.Some? && s'.requestCount == s.requestCount + 1 && s'.answers == s.answers
  {
  }

  /** An open client with nothing pending can always be brought to send one more request. */
  lemma OneMoreRequest(events: seq<Event>) returns (more: seq<Event>)
    requires Possible(events) && Run(events).pending.None? && !Run(events).closed
    ensures OnlyTurns(more) && Possible(events + more) && Run(events + more).pending.Some?
    ensures Run(events + more).requestCount == Run(events).requestCount + 1
    ensures Run(events + more).answers == Run(events).answers
  {
    var made, call := ReadyCall(events);
    var ready := events + made;
    Extend(ready, Begin(call));
    BeginSends(Run(ready), call);
    more := made + [Begin(call)];
    Regroup(events, made, [Begin(call)]);
  }

  /** From a client at risk, turns and ends of requests alone lead some answer to another request. */
  lemma RiskRealised(events: seq<Event>) returns (more: seq<Event>)
    requires Possible(events) && AtRisk(Run(events))
    ensures OnlyTurns(more) && Possible(events + more) && !OwnAnswers(Run(events + more))
  {
    var s := Run(events);
    var id: nat :| Out(s, id) && (s.pending.Some? ==> id < s.requestCount);
    more := [];
    assert events + more == events;
    if s.pending.None? {
      more := OneMoreRequest(events);
    }
    var e := StrayAnswer(events + more, id);
    assert events + more + [e] == events + (more + [e]);
    more := more + [e];
  }

  /**
   While every answer so far has gone to its own request, whatever failures there were: without a
   further soft failure an answer can go to another request if and only if the client is at risk.
   */
  lemma {:induction false} StrayAnswerExactly(events: seq<Event>)
    requires Possible(events) && OwnAnswers(Run(events))
    ensures AtRisk(Run(events)) <==>
            exists more :: NoSoftFailures(events, more) && Possible(events + more) && !OwnAnswers(Run(events + more))
  {
    if AtRisk(Run(events)) {
      var more := RiskRealised(events);
      TurnsAreNoFailures(events, more);
    } else {
      forall more | NoSoftFailures(events, more) && Possible(events + more)
        ensures OwnAnswers(Run(events + more))
      {
        NotAtRiskStays(events, more);
      }
    }
  }

  /** The end of the pending request is still to come. */
  ghost predicate PendingOut(s: State) {
    s.pending.Some? ==> Out(s, s.requestCount)
  }

  lemma StepPendingOut(s: State, e: Event)
    requires Sound(s) && Enabled(s, e) && PendingOut(s)
    ensures PendingOut(Step(s, e))
  {
    StepSound(s, e);
    match e
    case AgentEnd(origin, result) =>
      QuietSound(s, s.(answers := s.answers[origin := result]));
      SettlePendingSound(s.(answers := s.answers[origin := result]),
                         if result.Some? then Resolved(result.value) else Rejected(AgentError));
    case Timer(id) => TimerStep(s, id);
    case WriteError(id) => WriteErrorStep(s, id);
    case _ =>
  }

  lemma {:induction false} PendingIsOut(events: seq<Event>)
    requires Possible(events)
    ensures PendingOut(Run(events))
  {
    if events != [] {
      var init := events[..|events| - 1];
      PendingIsOut(init);
      RunSound(init);
      StepPendingOut(Run(init), events[|events| - 1]);
    }
  }

  /** Every soft failure of an open client puts it at risk, whichever prompt fails and whatever came before. */
  lemma {:induction false} SoftFailureRisks(events: seq<Event>, e: Event)
    requires Possible(events + [e]) && FailsSoftly(Run(events), e) && !Run(events).closed
    ensures AtRisk(Run(events + [e]))
  {
    assert (events + [e])[..|events|] == events;
    RunSound(events);
    PendingIsOut(events);
    SoftlySettled(Run(events), e);
    assert Out(Run(events + [e]), Run(events).requestCount);
  }

  /** For each kind of soft failure a shortest run: the answer to the failed prompt resolves the next one. */
  lemma LateAnswerMisattributed(failure: Event, text: string)
    requires failure in {Response(1, false), WriteError(1), ProcessError}
    ensures var events := [Call] + [Call] + [Begin(0)] + [failure] + [Begin(1)] + [AgentEnd(1, Some(text))];
            && Possible(events)
            && Run(events).callOf == [0, 1]
            && 1 in Run(events).settled && Run(events).settled[1] == Resolved(text)
  {
    var failed := [Call] + [Call] + [Begin(0)] + [failure];
    FailedPrompt(failure);
    Extend(failed, Begin(1));
    Extend(failed + [Begin(1)], AgentEnd(1, Some(text)));
  }

  lemma FailedPrompt(failure: Event)
    requires failure in {Response(1, false), WriteError(1), ProcessError}
    ensures var events := [Call] + [Call] + [Begin(0)] + [failure];
            && Possible(events) && Enabled(Run(events), Begin(1)) && !Run(events).closed
            && Run(events).callOf == [0] && Run(events).requestCount == 1 && Run(events).answers == map[]
            && 1 !in Run(events).settled
  {
    FirstSent();
    Extend([Call] + [Call] + [Begin(0)], failure);
  }

  // Two calls have been made, and the request of the first has been sent.
  const SENT := State(false, Some(PendingPrompt(1, false)), 1, Some(1), [None, Some(0)], {0}, [0], map[], {1}, map[])

  lemma FirstSent()
    ensures Possible([Call] + [Call] + [Begin(0)]) && Run([Call] + [Call] + [Begin(0)]) == SENT
  {
    Extend([], Call);
    assert [] + [Call] == [Call];
    Extend([Call], Call);
    Extend([Call] + [Call], Begin(0));
  }

  lemma {:induction false} Extend(events: seq<Event>, e: Event)
    requires Possible(events) && Enabled(Run(events), e)
    ensures Possible(events + [e]) && Run(events + [e]) == Step(Run(events), e)
  {
    assert (events + [e])[..|events|] == events;
  }
}
