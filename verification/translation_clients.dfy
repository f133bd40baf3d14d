/**
 The clients of one locale's translation, and translateBatch on them (openclaw/scripts/control-ui-i18n.ts):
 a client is made when a batch needs one and closed after each failure.
 */
module TranslationClients {
  import opened Prelude
  import opened RpcClient
  import opened TranslationBatches
  import opened TranslationLog
  import opened TranslationScripts

  class ClientAccess {
    const world: World
    var client: PiRpcClient?
    var attempts: nat
    ghost var events: seq<Event>     // what has happened to the client
    ghost var past: seq<seq<Event>>  // and to each client before it, until it was closed
    ghost var log: seq<Tried>        // what each attempt came to

    /** The client's state is what its history makes of it. */
    ghost predicate Tied()
      reads this, client
    {
      client != null ==> client.Model() == Run(events)
    }

    ghost function Current(): Option<seq<Event>>
      reads this
    {
      if client == null then None else Some(events)
    }

    /** Between two attempts: the clients are those that the log leaves behind. */
    ghost predicate Valid()
      reads this, client
    {
      && Tied() && attempts == |log| && (client != null ==> GoodRest(events))
      && Current() == Kept(world, log) && past == Closed(world, log)
    }

    constructor (world: World)
      ensures Valid() && client == null && past == [] && log == [] && this.world == world
    {
      this.world, client, attempts, events, past, log := world, null, 0, [], [], [];
    }

    /** `spawns` says whether a new process can be started if one is needed. */
    method GetClient(spawns: bool) returns (ok: bool)
      requires Tied()
      modifies this`client, this`events
      ensures Tied() && ok == (old(client) != null || spawns) && (ok <==> client != null)
      ensures old(client) != null ==> client == old(client) && events == old(events)
      ensures old(client) == null && ok ==> fresh(client) && events == []
    {
      if client == null && spawns {
        client := new PiRpcClient();
        events := [];
      }
      ok := client != null;
    }

    method ResetClient()
      requires Tied()
      modifies this`client, this`events, this`past, client
      ensures client == null && (old(client) != null ==> old(client).closed)
      ensures past == if old(client) == null then old(past) else old(past) + [old(events) + [Close]]
    {
      if client == null {
        return;
      }
      client.CloseClient();
      past := past + [events + [Close]];
      client, events := null, [];
    }

    /** One event that comes from the client's process or timers. */
    method Happen(e: Event)
      requires Tied() && client != null && FromOutside(e) && Enabled(client.Model(), e)
      modifies this`events, client
      ensures Tied() && events == old(events) + [e]
    {
      assert (events + [e])[..|events|] == events;
      if e.Timer? {
        client.OnTimer(e.id);
      } else if e.WriteError? {
        client.OnWriteError(e.id);
      } else if e.ProcessError? {
        client.OnProcessError();
      } else if e.ProcessClose? {
        client.OnProcessClose();
      } else {
        client.HandleStdoutLine(e);
      }
      events := events + [e];
    }

    /** What happens to the client between two prompts, or before its first. */
    method Idle(script: seq<Event>)
      requires Tied() && client != null
      modifies this`events, client
      ensures Tied() && events == Idled(old(events), script)
    {
      for i := 0 to |script|
        invariant Tied() && events == Idled(old(events), script[..i])
      {
        OneMore(script, i);
        if FromOutside(script[i]) && Enabled(client.Model(), script[i]) {
          Happen(script[i]);
        }
      }
      assert script[..|script|] == script;
    }

    /** prompt() is called on a client at rest, so its turn comes at once. */
    method Send() returns (call: nat)
      requires Tied() && client != null && GoodRest(events)
      modifies this`events, client
      ensures Tied() && call == old(Calls(events)) && events == old(events) + [Call, Begin(call)]
    {
      Asking(events);
      call := client.Prompt();
      client.RunPrompt(call);
      events := events + [Call, Begin(call)];
    }

    /** The script until the call settles; if nothing of it does, the timer settles it. */
    method AwaitSettlement(call: nat, script: seq<Event>) returns (how: Settlement)
      requires Tied() && client != null && GoodAsked(events, call)
      modifies this`events, client
      ensures Tied() && events == SettledBy(old(events), call, script)
      ensures call in Run(events).settled && how == Run(events).settled[call]
    {
      ghost var before := events;
      SettledByExact(before, call, script);
      for i := 0 to |script|
        invariant Tied() && events == HeardUntil(before, call, script[..i])
      {
        if call in client.settled {
          HeardStops(before, call, script, i);
          return client.settled[call];
        }
        OneMore(script, i);
        if FromOutside(script[i]) && Enabled(client.Model(), script[i]) {
          Happen(script[i]);
        }
      }
      assert script[..|script|] == script;
      if call !in client.settled {
        HeardAsked(before, call, script);
        RunSound(events);
        AskedHasTimer(Run(events), call);
        Happen(Timer(client.requestCount));
      }
      how := client.settled[call];
    }

    /** The idle script, a prompt, and what the process does until it settles. */
    method Ask(outside: Outside) returns (how: Settlement)
      requires Tied() && client != null && GoodRest(events)
      modifies this`events, client
      ensures Tied() && events == HistoryOf(old(events), outside) && how == How(events)
      ensures how.Resolved? ==> GoodRest(events)
    {
      IdledRests(events, outside.idle);
      HistoryExact(events, outside);
      Idle(outside.idle);
      Asking(events);
      var call := Send();
      SettledByExact(events, call, outside.busy);
      how := AwaitSettlement(call, outside.busy);
    }

    /** The reply is read; without a usable one the client is closed. */
    method Judge(items: seq<Item>, reply: Reply) returns (r: Result<map<string, string>, string>)
      requires Tied() && client != null
      modifies this`client, this`events, this`past, client
      ensures Tied() && r == ReadReply(items, reply)
      ensures if r.Ok? then client == old(client) && events == old(events) && past == old(past)
              else client == null && past == old(past) + [old(events) + [Close]]
    {
      r := ReadItems(items, reply);
      if r.Err? {
        ResetClient();
      }
    }

    /** The prompt of an attempt, and the reply that is read from it. */
    method Hear(outside: Outside) returns (reply: Reply)
      requires Tied() && client != null && GoodRest(events)
      modifies this`events, client
      ensures Tied() && events == HistoryOf(old(events), outside)
      ensures reply == ReplyOf(world, Prompted([], 0, events, How(events)))
      ensures reply.Parsed? ==> GoodRest(events)
    {
      var how := Ask(outside);
      reply := if how.Resolved? then world.parse(how.text) else Throws(world.message(how.reason));
    }

    /** An attempt on a client that is at rest, or new. */
    method TryClient(items: seq<Item>, outside: Outside, ghost before: seq<Tried>)
      returns (r: Result<map<string, string>, string>)
      requires Tied() && client != null && GoodRest(events) && attempts == |before| + 1
      requires events == (if Kept(world, before).Some? then Kept(world, before).value else [])
      requires outside == world.around(|before|) && past == Closed(world, before)
      requires Kept(world, before).Some? || outside.spawns
      modifies this`client, this`events, this`past, this`log, client
      ensures Valid() && (client == null || client == old(client))
      ensures log == before + [NextTried(world, before, items)] && r == ReadOf(world, NextTried(world, before, items))
    {
      var reply := Hear(outside);
      PromptNext(world, before, items, events);
      log := before + [NextTried(world, before, items)];
      r := Judge(items, reply);
      ParsedOnly(items, reply);
    }

    /** An attempt for which there is no process. */
    method TryNothing(items: seq<Item>, ghost before: seq<Tried>) returns (r: Result<map<string, string>, string>)
      requires client == null && attempts == |before| + 1 && Kept(world, before).None?
      requires !world.around(|before|).spawns && past == Closed(world, before)
      modifies this`client, this`events, this`past, this`log
      ensures Valid() && client == null
      ensures log == before + [NextTried(world, before, items)] && r == ReadOf(world, NextTried(world, before, items))
    {
      NoneNext(world, before, items);
      log := before + [NoProcess(items)];
      ResetClient();
      r := Err(world.noProcess);
    }

    /**
     One attempt of translateBatch for some items: on the client left open, or on a new one if a process
     can be started, it comes to what the process makes of it.
     */
    method Attempt(items: seq<Item>) returns (r: Result<map<string, string>, string>)
      requires Valid()
      modifies this, client
      ensures Valid() && (client == null || client == old(client) || fresh(client))
      ensures log == old(log) + [NextTried(world, old(log), items)]
      ensures r == ReadOf(world, NextTried(world, old(log), items))
    {
      GoodStart();
      var outside := world.around(attempts);
      attempts := attempts + 1;
      var ok := GetClient(outside.spawns);
      if ok {
        r := TryClient(items, outside, log);
      } else {
        r := TryNothing(items, log);
      }
    }

    /** translateBatch: its result and its attempts are those that the outside world determines. */
    method TranslateBatch(items: seq<Item>) returns (r: Result<map<string, string>, string>)
      requires Valid()
      modifies this, client
      ensures Valid() && (client == null || client == old(client) || fresh(client))
      ensures (r, log) == RunBatch(world, items, old(log), 0)
      decreases |items|
    {
      r := Err("translation failed");
      var attempt := 0;
      while attempt < TRANSLATE_MAX_ATTEMPTS
        invariant Valid() && (client == null || client == old(client) || fresh(client))
        invariant attempt <= TRANSLATE_MAX_ATTEMPTS
        invariant if attempt < TRANSLATE_MAX_ATTEMPTS
                  then RunBatch(world, items, log, attempt) == RunBatch(world, items, old(log), 0)
                  else (r, log) == RunBatch(world, items, old(log), 0)
      {
        r := Attempt(items);
        if r.Ok? {
          return;
        }
        if IsPromptTimeoutError(r.error) && |items| > 1 {
          r := TranslateHalves(items);
          return;
        }
        if IsPromptTimeoutError(r.error) {
          break;
        }
        attempt := attempt + 1;
      }
    }

    /** The halves of a batch whose attempt has timed out. */
    method TranslateHalves(items: seq<Item>) returns (r: Result<map<string, string>, string>)
      requires Valid() && |items| > 1
      modifies this, client
      ensures Valid() && (client == null || client == old(client) || fresh(client))
      ensures (r, log) == RunHalves(world, items, old(log))
      decreases |items|, 0
    {
      var midpoint := Midpoint(items);
      var left := TranslateBatch(items[..midpoint]);
      if left.Err? {
        return left;
      }
      var right := TranslateBatch(items[midpoint..]);
      if right.Err? {
        return right;
      }
      return Ok(left.value + right.value);
    }
  }
}
