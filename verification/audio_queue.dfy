/**
 The re-chunking audio queue of the voice listener (voice-listener/voice_listener.py): the sound
 card's thread puts chunks of any size, the listener takes samples in the sizes it needs.
 */
module AudioQueue {
  import opened Prelude

  // ---------- The queue between calls ----------

  datatype State<T> = State(remainder: seq<T>, queue: seq<seq<T>>)

  /** Every sample that has been produced and not yet taken, in order. */
  function Waiting<T>(s: State<T>): seq<T> {
    s.remainder + Concat(s.queue)
  }

  function Put<T>(s: State<T>, chunk: seq<T>): State<T> {
    s.(queue := s.queue + [chunk])
  }

  function PutAll<T>(s: State<T>, chunks: seq<seq<T>>): State<T> {
    s.(queue := s.queue + chunks)
  }

  function Drain<T>(s: State<T>): State<T> {
    State([], [])
  }

  // What a call for samples ends with: the samples, waiting for a chunk that is not there, or the
  // error of joining an empty list of arrays.
  datatype Outcome<T> = Taken(samples: seq<T>) | Blocked | NothingToJoin

  /** Joins whole chunks to what has been gathered until there are n samples. */
  function Gather<T>(gathered: seq<T>, queue: seq<seq<T>>, n: nat): (seq<T>, seq<seq<T>>)
    decreases |queue|
  {
    if |gathered| >= n || queue == [] then (gathered, queue) else Gather(gathered + queue[0], queue[1..], n)
  }

  /** get_audio_samples when nothing is put meanwhile. */
  function Get<T(==)>(s: State<T>, n: nat): (Outcome<T>, State<T>) {
    var (gathered, queue) := Gather(s.remainder, s.queue, n);
    if |gathered| < n then (Blocked, State([], queue))
    else if n == 0 && s.remainder == [] then (NothingToJoin, s)
    else (Taken(gathered[..n]), State(gathered[n..], queue))
  }

  lemma {:induction false} GatherKeeps<T>(gathered: seq<T>, queue: seq<seq<T>>, n: nat)
    ensures var (all, rest) := Gather(gathered, queue, n);
            all + Concat(rest) == gathered + Concat(queue) && (|all| < n ==> rest == [])
    decreases |queue|
  {
    if |gathered| < n && queue != [] {
      GatherKeeps(gathered + queue[0], queue[1..], n);
      assert gathered + Concat(queue) == gathered + queue[0] + Concat(queue[1..]);
    }
  }

  /** Gathering can stop and go on with what has been put meanwhile. */
  lemma {:induction false} GatherLater<T>(gathered: seq<T>, queue: seq<seq<T>>, more: seq<seq<T>>, n: nat)
    ensures var (all, rest) := Gather(gathered, queue, n);
            Gather(gathered, queue + more, n) == Gather(all, rest + more, n)
    decreases |queue|
  {
    if |gathered| < n && queue != [] {
      assert (queue + more)[0] == queue[0] && (queue + more)[1..] == queue[1..] + more;
      GatherLater(gathered + queue[0], queue[1..], more, n);
    }
  }

  /** One call takes the next n samples, wherever the chunks end; it blocks just when there are fewer. */
  lemma GetTakesNext<T>(s: State<T>, n: nat)
    ensures var (outcome, after) := Get(s, n);
            match outcome
            case Taken(samples) =>
              n <= |Waiting(s)| && samples == Waiting(s)[..n] && Waiting(after) == Waiting(s)[n..]
            case Blocked => |Waiting(s)| < n
            case NothingToJoin => after == s
    ensures Get(s, n).0.NothingToJoin? <==> n == 0 && s.remainder == []
  {
    GatherKeeps(s.remainder, s.queue, n);
    var (all, rest) := Gather(s.remainder, s.queue, n);
    assert Waiting(s) == all + Concat(rest);
    if |all| < n {
      assert Waiting(s) == all;
    } else {
      assert Waiting(s)[..n] == all[..n];
      assert Waiting(s)[n..] == all[n..] + Concat(rest);
    }
  }

  // ---------- The two threads ----------

  class AudioInput<T(==)> {
    var remainder: seq<T>
    var queue: seq<seq<T>>
    var upcoming: seq<seq<T>> // what the sound card will still deliver

    ghost function Model(): State<T>
      reads this
    {
      State(remainder, queue)
    }

    constructor (upcoming: seq<seq<T>>)
      ensures Model() == State([], []) && this.upcoming == upcoming
    {
      remainder, queue := [], [];
      this.upcoming := upcoming;
    }

    method AudioCallback()
      requires upcoming != []
      modifies this
      ensures Model() == Put(old(Model()), old(upcoming)[0]) && upcoming == old(upcoming)[1..]
    {
      queue := queue + [upcoming[0]];
      upcoming := upcoming[1..];
    }

    /** Any number of callbacks, at least `least` of them if there are as many; `arrived` holds their chunks. */
    method Elapse(least: nat) returns (ghost arrived: seq<seq<T>>)
      modifies this
      ensures Model() == PutAll(old(Model()), arrived) && old(upcoming) == arrived + upcoming
      ensures least <= |arrived| || upcoming == []
    {
      var k: nat :| k <= |upcoming| && (least <= k || k == |upcoming|) by {
        assert |upcoming| <= |upcoming|;
      }
      arrived := [];
      assert queue + arrived == queue && arrived + upcoming == upcoming;
      ghost var before, all := queue, upcoming;
      for i := 0 to k
        invariant |arrived| == i && remainder == old(remainder) && queue == before + arrived
        invariant all == arrived + upcoming
      {
        assert before + (arrived + [upcoming[0]]) == queue + [upcoming[0]];
        assert arrived + upcoming == (arrived + [upcoming[0]]) + upcoming[1..];
        arrived := arrived + [upcoming[0]];
        AudioCallback();
      }
    }

    /**
     get_audio_samples while the sound card's thread puts chunks at any moment. Its effect is that
     of one indivisible call made after the chunks that arrive while it runs.
     */
    method GetAudioSamples(n: nat) returns (outcome: Outcome<T>, ghost arrived: seq<seq<T>>)
      modifies this
      ensures (outcome, Model()) == Get(PutAll(old(Model()), arrived), n)
      ensures old(upcoming) == arrived + upcoming
      ensures outcome.Blocked? ==> upcoming == []
    {
      arrived := [];
      ghost var start, offered := remainder, queue;
      assert queue + arrived == queue && arrived + upcoming == upcoming;
      var gathered := remainder;
      var joined := remainder != [];
      remainder := [];
      while |gathered| < n
        invariant Gather(gathered, queue, n) == Gather(start, offered, n)
        invariant offered == old(queue) + arrived && old(upcoming) == arrived + upcoming && remainder == []
        invariant if joined then start != [] || n > 0 else gathered == start == []
        invariant n == 0 ==> queue == offered && gathered == start
        decreases |queue| + |upcoming|
      {
        ghost var before := queue;
        ghost var more := Elapse(if queue == [] then 1 else 0);
        GatherLater(start, offered, more, n);
        GatherLater(gathered, before, more, n);
        Regroup(old(queue), arrived, more);
        Regroup(arrived, more, upcoming);
        arrived, offered := arrived + more, offered + more;
        if queue == [] {
          return Blocked, arrived;
        }
        gathered := gathered + queue[0];
        queue := queue[1..];
        joined := true;
      }
      if !joined {
        return NothingToJoin, arrived;
      }
      assert |gathered| == n ==> gathered[n..] == [];
      if |gathered| > n {
        remainder := gathered[n..];
      }
      outcome := Taken(gathered[..n]);
    }

    /** drain_queue while chunks arrive: everything that is there when it returns has arrived since. */
    method DrainQueue() returns (ghost arrived: seq<seq<T>>)
      modifies this
      ensures Model() == Drain(PutAll(old(Model()), arrived)) && old(upcoming) == arrived + upcoming
    {
      remainder := [];
      arrived := Elapse(0);
      while queue != []
        invariant old(upcoming) == arrived + upcoming && remainder == []
        decreases |queue| + |upcoming|
      {
        queue := queue[1..];
        ghost var more := Elapse(0);
        arrived := arrived + more;
      }
    }
  }

  // ---------- Whole runs ----------

  datatype Event<T> = Chunk(samples: seq<T>) | Ask(n: nat) | Discard

  /** What leaves the queue at each event, with the final state; None once a call blocks or fails. */
  function Run<T(==)>(s: State<T>, events: seq<Event<T>>): Option<(seq<seq<T>>, State<T>)>
    decreases |events|
  {
    if events == [] then Some(([], s))
    else match events[0]
         case Chunk(samples) => Run(Put(s, samples), events[1..])
         case Discard => Emit(Waiting(s), Run(Drain(s), events[1..]))
         case Ask(n) =>
           var (outcome, after) := Get(s, n);
           if outcome.Taken? then Emit(outcome.samples, Run(after, events[1..])) else None
  }

  function Emit<T, S>(left: seq<T>, later: Option<(seq<seq<T>>, S)>): Option<(seq<seq<T>>, S)> {
    match later
    case None => None
    case Some((lefts, end)) => Some(([left] + lefts, end))
  }

  /** The same on a plain stream of samples. */
  function PlainRun<T>(stream: seq<T>, events: seq<Event<T>>): Option<(seq<seq<T>>, seq<T>)>
    decreases |events|
  {
    if events == [] then Some(([], stream))
    else match events[0]
         case Chunk(samples) => PlainRun(stream + samples, events[1..])
         case Discard => Emit(stream, PlainRun([], events[1..]))
         case Ask(n) =>
           if n <= |stream| then Emit(stream[..n], PlainRun(stream[n..], events[1..])) else None
  }

  function Produced<T>(events: seq<Event<T>>): seq<T> {
    if events == [] then []
    else (if events[0].Chunk? then events[0].samples else []) + Produced(events[1..])
  }

  /** The sizes asked for, in order; None for a discard. */
  function Sizes<T>(events: seq<Event<T>>): seq<Option<nat>> {
    if events == [] then []
    else
      match events[0]
      case Chunk(_) => Sizes(events[1..])
      case Ask(n) => [Some(n)] + Sizes(events[1..])
      case Discard => [None] + Sizes(events[1..])
  }

  /** For sizes of at least 1 the queue behaves as the plain stream does, whatever the chunks are. */
  lemma {:induction false} RunIsPlain<T>(s: State<T>, events: seq<Event<T>>)
    requires forall e :: e in events && e.Ask? ==> e.n >= 1
    ensures Run(s, events).None? <==> PlainRun(Waiting(s), events).None?
    ensures Run(s, events).Some? ==>
              && Run(s, events).value.0 == PlainRun(Waiting(s), events).value.0
              && Waiting(Run(s, events).value.1) == PlainRun(Waiting(s), events).value.1
    decreases |events|
  {
    if events == [] {
    } else {
      assert forall e :: e in events[1..] ==> e in events;
      match events[0]
      case Chunk(samples) =>
        PutWaiting(s, samples);
        RunIsPlain(Put(s, samples), events[1..]);
      case Discard =>
        RunIsPlain(Drain(s), events[1..]);
      case Ask(n) =>
        assert events[0] in events && events[0].n >= 1;
        GetTakesNext(s, n);
        RunIsPlain(Get(s, n).1, events[1..]);
    }
  }

  lemma PutWaiting<T>(s: State<T>, samples: seq<T>)
    ensures Waiting(Put(s, samples)) == Waiting(s) + samples
  {
    ConcatJoin(s.queue, [samples]);
    assert Concat([samples]) == samples + Concat([]) == samples;
  }

  /**
   In any run, the pieces that left the queue and what still waits are, joined in order, exactly
   what was there and what was produced.
   */
  lemma {:induction false} SamplesConserved<T>(s: State<T>, events: seq<Event<T>>)
    requires Run(s, events).Some?
    ensures var (lefts, end) := Run(s, events).value;
            Concat(lefts) + Waiting(end) == Waiting(s) + Produced(events)
    decreases |events|
  {
    if events == [] {
      assert Concat<T>([]) + Waiting(s) == Waiting(s) + Produced<T>([]);
    } else {
      var (lefts, end) := Run(s, events).value;
      var later := Produced(events[1..]);
      SamplesConserved(Next(s, events[0]), events[1..]);
      NextKeeps(s, events[0]);
      match events[0]
      case Chunk(samples) =>
        assert (Waiting(s) + samples) + later == Waiting(s) + (samples + later);
      case _ =>
        assert lefts == [lefts[0]] + Run(Next(s, events[0]), events[1..]).value.0;
        Regroup(lefts[0], Concat(lefts[1..]), Waiting(end));
        Regroup(lefts[0], Waiting(Next(s, events[0])), later);
        assert [] + later == later;
    }
  }

  function Next<T(==)>(s: State<T>, e: Event<T>): State<T> {
    match e
    case Chunk(samples) => Put(s, samples)
    case Discard => Drain(s)
    case Ask(n) => Get(s, n).1
  }

  lemma NextKeeps<T>(s: State<T>, e: Event<T>)
    requires e.Ask? ==> Get(s, e.n).0.Taken?
    ensures match e
            case Chunk(samples) => Waiting(Next(s, e)) == Waiting(s) + samples
            case Discard => Waiting(s) + Waiting(Next(s, e)) == Waiting(s)
            case Ask(n) => Get(s, n).0.samples + Waiting(Next(s, e)) == Waiting(s)
  {
    match e
    case Chunk(samples) => PutWaiting(s, samples);
    case Discard =>
    case Ask(n) => GetTakesNext(s, n);
  }

  /** Each piece that a call returned has the length that the call asked for. */
  lemma {:induction false} LengthsAsAsked<T>(s: State<T>, events: seq<Event<T>>, i: nat)
    requires Run(s, events).Some?
    ensures |Run(s, events).value.0| == |Sizes(events)|
    ensures i < |Sizes(events)| && Sizes(events)[i].Some? ==>
              |Run(s, events).value.0[i]| == Sizes(events)[i].value
    decreases |events|
  {
    if events != [] {
      if events[0].Chunk? {
        LengthsAsAsked(Next(s, events[0]), events[1..], i);
      } else {
        LengthsAsAsked(Next(s, events[0]), events[1..], if i > 0 then i - 1 else 0);
      }
    }
  }
}
