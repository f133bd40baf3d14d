/**
 Wake-word confirmation in the voice listener (voice-listener/voice_listener.py): which model's
 score counts for a chunk, and when enough chunks have confirmed one wake word.
 */
module WakeWord {
  import opened Prelude

  datatype Scored = Scored(name: string, score: real)

  datatype Settings = Settings(threshold: real, resetThreshold: real, confirmChunks: int, accepted: set<string>)

  // ---------- One chunk ----------

  predicate Accepts(cfg: Settings, s: Scored) {
    cfg.accepted == {} || s.name in cfg.accepted
  }

  /** The accepted predictions, in order. */
  function Accepted(cfg: Settings, prediction: seq<Scored>): (kept: seq<Scored>)
    ensures forall s :: s in kept <==> s in prediction && Accepts(cfg, s)
  {
    if prediction == [] then []
    else
      var last := prediction[|prediction| - 1];
      Accepted(cfg, prediction[..|prediction| - 1]) + if Accepts(cfg, last) then [last] else []
  }

  /** `max(items, key=score)`: the first of the items with the greatest score. */
  function FirstMax(items: seq<Scored>): (best: nat)
    requires items != []
    ensures best < |items|
    ensures forall i :: 0 <= i < best ==> items[i].score < items[best].score
    ensures forall i :: best < i < |items| ==> items[i].score <= items[best].score
  {
    var init := items[..|items| - 1];
    if init == [] then 0
    else if items[|items| - 1].score > init[FirstMax(init)].score then |items| - 1 else FirstMax(init)
  }

  /**
   The prediction that counts is an accepted one that no accepted one beats; there is none if none is accepted.
   Without any names to accept, all are accepted.
   */
  function GetAcceptedPrediction(cfg: Settings, prediction: seq<Scored>): (best: Option<Scored>)
    ensures best.None? <==> forall s :: s in prediction ==> cfg.accepted != {} && s.name !in cfg.accepted
    ensures best.Some? ==>
              && best.value in prediction && (cfg.accepted == {} || best.value.name in cfg.accepted)
              && forall s :: s in prediction && (cfg.accepted == {} || s.name in cfg.accepted) ==>
                               s.score <= best.value.score
  {
    var kept := Accepted(cfg, prediction);
    if kept == [] then
      assert forall s :: s in prediction ==> !Accepts(cfg, s) by {
        assert forall s :: s in prediction && Accepts(cfg, s) ==> s in kept;
      }
      None
    else
      assert kept[0] in kept;
      Some(kept[FirstMax(kept)])
  }

  /** Filtering keeps the order. */
  lemma {:induction false} AcceptedInOrder(cfg: Settings, prediction: seq<Scored>, n: nat, b: nat) returns (k: nat)
    requires n <= |prediction| && b < |Accepted(cfg, prediction[..n])|
    ensures k < n && prediction[k] == Accepted(cfg, prediction[..n])[b]
    ensures forall j :: 0 <= j < k && Accepts(cfg, prediction[j]) ==>
                          prediction[j] in Accepted(cfg, prediction[..n])[..b]
  {
    OneMore(prediction, n - 1);
    var before := Accepted(cfg, prediction[..n - 1]);
    if b < |before| {
      k := AcceptedInOrder(cfg, prediction, n - 1, b);
      assert Accepted(cfg, prediction[..n])[..b] == before[..b];
    } else {
      k := n - 1;
      assert Accepted(cfg, prediction[..n])[..b] == before;
      assert forall j :: 0 <= j < k ==> prediction[j] in prediction[..n - 1];
    }
  }

  /** Among equal scores the earliest prediction counts. */
  lemma EarliestBest(cfg: Settings, prediction: seq<Scored>) returns (k: nat)
    requires GetAcceptedPrediction(cfg, prediction).Some?
    ensures k < |prediction| && GetAcceptedPrediction(cfg, prediction) == Some(prediction[k])
    ensures forall j :: 0 <= j < k && (cfg.accepted == {} || prediction[j].name in cfg.accepted) ==>
                          prediction[j].score < prediction[k].score
  {
    assert prediction[..|prediction|] == prediction;
    k := AcceptedInOrder(cfg, prediction, |prediction|, FirstMax(Accepted(cfg, prediction)));
  }

  // ---------- The confirmation state ----------

  datatype State = State(name: string, score: real, count: int)

  const IDLE := State("", 0.0, 0)

  predicate Hit(cfg: Settings, p: Option<Scored>) {
    p.Some? && p.value.score >= cfg.threshold
  }

  /** A prediction that is neither a hit nor above the reset threshold. */
  predicate Low(cfg: Settings, p: Option<Scored>) {
    p.Some? && p.value.score < cfg.threshold && p.value.score < cfg.resetThreshold
  }

  function Count(cfg: Settings, s: State, p: Scored): State {
    if p.score >= cfg.threshold then
      if p.name == s.name then s.(count := s.count + 1, score := if p.score > s.score then p.score else s.score)
      else State(p.name, p.score, 1)
    else if p.score < cfg.resetThreshold then IDLE
    else s
  }

  /** One pass of the listening loop: whether the wake word is detected, and the state after it. */
  function Step(cfg: Settings, s: State, p: Option<Scored>): (bool, State) {
    if p.None? then (false, s.(count := 0))
    else
      var after := Count(cfg, s, p.value);
      if after.count < cfg.confirmChunks then (false, after) else (true, IDLE)
  }

  class WakeConfirmation {
    var candidateName: string
    var candidateScore: real
    var confirmCount: int

    ghost function Model(): State
      reads this
    {
      State(candidateName, candidateScore, confirmCount)
    }

    constructor ()
      ensures Model() == IDLE
    {
      candidateName, candidateScore, confirmCount := "", 0.0, 0;
    }

    /** The wake part of one pass of main's loop. */
    method Observe(cfg: Settings, prediction: seq<Scored>) returns (detected: bool)
      modifies this
      ensures (detected, Model()) == Step(cfg, old(Model()), GetAcceptedPrediction(cfg, prediction))
    {
      var accepted := GetAcceptedPrediction(cfg, prediction);
      if accepted.None? {
        confirmCount := 0;
        return false;
      }
      var best := accepted.value;
      if best.score >= cfg.threshold {
        if best.name == candidateName {
          confirmCount := confirmCount + 1;
          candidateScore := if best.score > candidateScore then best.score else candidateScore;
        } else {
          candidateName, candidateScore, confirmCount := best.name, best.score, 1;
        }
      } else if best.score < cfg.resetThreshold {
        candidateName, candidateScore, confirmCount := "", 0.0, 0;
      }
      if confirmCount < cfg.confirmChunks {
        return false;
      }
      candidateName, candidateScore, confirmCount := "", 0.0, 0;
      return true;
    }
  }

  // ---------- Histories ----------

  /** The state before chunk i. */
  function StateBefore(cfg: Settings, ps: seq<Option<Scored>>, i: nat): State
    requires i <= |ps|
  {
    if i == 0 then IDLE else Step(cfg, StateBefore(cfg, ps, i - 1), ps[i - 1]).1
  }

  predicate Fires(cfg: Settings, ps: seq<Option<Scored>>, i: nat)
    requires i < |ps|
  {
    Step(cfg, StateBefore(cfg, ps, i), ps[i]).0
  }

  /** How many of the chunks from..to are hits. */
  function Hits(cfg: Settings, ps: seq<Option<Scored>>, from: nat, to: nat): nat
    requires from <= to <= |ps|
  {
    if from == to then 0 else Hits(cfg, ps, from, to - 1) + if Hit(cfg, ps[to - 1]) then 1 else 0
  }

  /** A chunk that does not break a run of hits of a name. */
  predicate Supports(cfg: Settings, p: Option<Scored>, name: string) {
    p.Some? && !Low(cfg, p) && (Hit(cfg, p) ==> p.value.name == name)
  }

  /** The chunks from..to start with a hit of a name, none breaks the run and none is a detection. */
  ghost predicate Unbroken(cfg: Settings, ps: seq<Option<Scored>>, from: nat, to: nat, name: string)
    requires from < to <= |ps|
  {
    && Hit(cfg, ps[from])
    && (forall j :: from <= j < to ==> Supports(cfg, ps[j], name))
    && (forall j :: from <= j < to - 1 ==> !Fires(cfg, ps, j))
  }

  /** The chunks from..i are a run that ends with its last hit and has just the hits that are asked for. */
  ghost predicate Confirms(cfg: Settings, ps: seq<Option<Scored>>, from: nat, i: nat)
    requires i < |ps|
  {
    && from <= i && Hit(cfg, ps[i]) && Unbroken(cfg, ps, from, i + 1, ps[i].value.name)
    && Hits(cfg, ps, from, i + 1) == cfg.confirmChunks
  }

  lemma {:induction false} CountBelow(cfg: Settings, ps: seq<Option<Scored>>, i: nat)
    requires i <= |ps| && cfg.confirmChunks >= 1
    ensures 0 <= StateBefore(cfg, ps, i).count < cfg.confirmChunks
  {
    if i > 0 {
      CountBelow(cfg, ps, i - 1);
    }
  }

  /** A positive count always has a run of hits behind it, back to a first hit. */
  lemma {:induction false} CountHasRun(cfg: Settings, ps: seq<Option<Scored>>, i: nat) returns (from: nat)
    requires i <= |ps| && cfg.confirmChunks >= 1
    requires StateBefore(cfg, ps, i).count > 0
    ensures from < i && Unbroken(cfg, ps, from, i, StateBefore(cfg, ps, i).name) && !Fires(cfg, ps, i - 1)
    ensures Hits(cfg, ps, from, i) == StateBefore(cfg, ps, i).count
    ensures forall j :: from <= j < i && Hit(cfg, ps[j]) ==> ps[j].value.score <= StateBefore(cfg, ps, i).score
  {
    var before := StateBefore(cfg, ps, i - 1);
    CountBelow(cfg, ps, i - 1);
    if Hit(cfg, ps[i - 1]) && (before.count == 0 || before.name != ps[i - 1].value.name) {
      from := i - 1;
      assert Hits(cfg, ps, from, from) == 0;
    } else {
      from := CountHasRun(cfg, ps, i - 1);
    }
  }

  /** Within an unbroken run, the count is at least the hits of the run. */
  lemma {:induction false} RunIsCounted(cfg: Settings, ps: seq<Option<Scored>>, from: nat, to: nat, name: string)
    requires from < to <= |ps| && cfg.confirmChunks >= 1
    requires Unbroken(cfg, ps, from, to, name) && !Fires(cfg, ps, to - 1)
    ensures StateBefore(cfg, ps, to).name == name && StateBefore(cfg, ps, to).count >= Hits(cfg, ps, from, to)
  {
    if to == from + 1 {
      CountBelow(cfg, ps, from);
      assert Supports(cfg, ps[from], name) && Hits(cfg, ps, from, from) == 0;
    } else {
      assert Supports(cfg, ps[to - 1], name) && !Fires(cfg, ps, to - 2);
      RunIsCounted(cfg, ps, from, to - 1, name);
    }
  }

  /**
   The listener fires at a chunk if and only if that chunk is the last of a run of exactly
   `confirmChunks` hits of one name, with no missing prediction, no score below the reset threshold,
   no hit of another name and no earlier detection within the run.
   */
  lemma FiresExactly(cfg: Settings, ps: seq<Option<Scored>>, i: nat)
    requires i < |ps| && cfg.confirmChunks >= 1
    ensures Fires(cfg, ps, i) <==> exists from: nat :: Confirms(cfg, ps, from, i)
  {
    CountBelow(cfg, ps, i);
    if Fires(cfg, ps, i) {
      var before := StateBefore(cfg, ps, i);
      if before.count > 0 && before.name == ps[i].value.name {
        var from := CountHasRun(cfg, ps, i);
        assert Confirms(cfg, ps, from, i);
      } else {
        assert Hits(cfg, ps, i, i) == 0 && Confirms(cfg, ps, i, i);
      }
    }
    forall from: nat | Confirms(cfg, ps, from, i)
      ensures Fires(cfg, ps, i)
    {
      if from < i {
        RunIsCounted(cfg, ps, from, i, ps[i].value.name);
      } else {
        assert Hits(cfg, ps, i, i) == 0;
      }
    }
  }

  /** The positions of the hits among the chunks from..to. */
  lemma {:induction false} HitPositions(cfg: Settings, ps: seq<Option<Scored>>, from: nat, to: nat)
    returns (at: seq<nat>)
    requires from <= to <= |ps|
    ensures |at| == Hits(cfg, ps, from, to) && forall a, b :: 0 <= a < b < |at| ==> at[a] < at[b]
    ensures forall a :: 0 <= a < |at| ==> from <= at[a] < to && Hit(cfg, ps[at[a]])
    ensures forall j :: from <= j < to && Hit(cfg, ps[j]) ==> j in at
  {
    at := [];
    if from < to {
      at := HitPositions(cfg, ps, from, to - 1);
      if Hit(cfg, ps[to - 1]) {
        at := at + [to - 1];
      }
    }
  }

  lemma {:induction false} HitsCounted(cfg: Settings, ps: seq<Option<Scored>>, from: nat, to: nat, at: seq<nat>)
    requires from <= to <= |ps| && forall a, b :: 0 <= a < b < |at| ==> at[a] < at[b]
    requires forall a :: 0 <= a < |at| ==> from <= at[a] < to && Hit(cfg, ps[at[a]])
    requires forall j :: from <= j < to && Hit(cfg, ps[j]) ==> j in at
    ensures Hits(cfg, ps, from, to) == |at|
  {
    if from < to {
      if Hit(cfg, ps[to - 1]) {
        var init := at[..|at| - 1];
        assert at[|at| - 1] == to - 1;
        assert at == init + [to - 1];
        HitsCounted(cfg, ps, from, to - 1, init);
      } else {
        assert forall a :: 0 <= a < |at| ==> at[a] != to - 1;
        HitsCounted(cfg, ps, from, to - 1, at);
      }
    }
  }

  /**
   The chunks `at`, the last of which is i, are as many as have to confirm. Each has a score that reaches the
   threshold, all of one name; every chunk between them has a score below it that reaches the reset threshold;
   and none before i fires.
   */
  ghost predicate ConfirmedBy(cfg: Settings, ps: seq<Option<Scored>>, i: nat, at: seq<nat>)
    requires i < |ps|
  {
    && |at| == cfg.confirmChunks && |at| > 0 && at[|at| - 1] == i
    && (forall a, b :: 0 <= a < b < |at| ==> at[a] < at[b])
    && (forall a :: 0 <= a < |at| ==>
                      && at[a] <= i && ps[at[a]].Some? && ps[i].Some?
                      && ps[at[a]].value.score >= cfg.threshold && ps[at[a]].value.name == ps[i].value.name)
    && (forall j :: at[0] <= j < i ==>
                      && ps[j].Some? && !Fires(cfg, ps, j)
                      && (j in at || cfg.resetThreshold <= ps[j].value.score < cfg.threshold))
  }

  lemma ConfirmingHits(cfg: Settings, ps: seq<Option<Scored>>, from: nat, i: nat) returns (at: seq<nat>)
    requires i < |ps| && cfg.confirmChunks >= 1 && Confirms(cfg, ps, from, i)
    ensures ConfirmedBy(cfg, ps, i, at)
  {
    at := HitPositions(cfg, ps, from, i + 1);
    assert from in at && i in at;
    assert at[0] == from && at[|at| - 1] == i;
    forall j | from <= j <= i
      ensures Supports(cfg, ps[j], ps[i].value.name)
    {
    }
  }

  lemma HitsConfirm(cfg: Settings, ps: seq<Option<Scored>>, i: nat, at: seq<nat>)
    requires i < |ps| && cfg.confirmChunks >= 1 && ConfirmedBy(cfg, ps, i, at)
    ensures Confirms(cfg, ps, at[0], i)
  {
    assert at[|at| - 1] in at && at[0] in at;
    forall j | at[0] <= j <= i
      ensures Supports(cfg, ps[j], ps[i].value.name)
      ensures Hit(cfg, ps[j]) ==> j in at
    {
      if j in at {
        var a :| 0 <= a < |at| && at[a] == j;
      }
    }
    HitsCounted(cfg, ps, at[0], i + 1, at);
  }

  /** The listener fires at a chunk exactly if such chunks confirm it. */
  lemma FiresOnHits(cfg: Settings, ps: seq<Option<Scored>>, i: nat)
    requires i < |ps| && cfg.confirmChunks >= 1
    ensures Fires(cfg, ps, i) <==> exists at :: ConfirmedBy(cfg, ps, i, at)
  {
    FiresExactly(cfg, ps, i);
    if Fires(cfg, ps, i) {
      var from: nat :| Confirms(cfg, ps, from, i);
      var at := ConfirmingHits(cfg, ps, from, i);
    }
    forall at | ConfirmedBy(cfg, ps, i, at)
      ensures Fires(cfg, ps, i)
    {
      HitsConfirm(cfg, ps, i, at);
    }
  }

  /** The hits behind one detection come after every earlier detection: two detections share no hit. */
  lemma DetectionsShareNoHit(cfg: Settings, ps: seq<Option<Scored>>, i: nat, j: nat)
    returns (first: nat, second: nat)
    requires i < j < |ps| && cfg.confirmChunks >= 1 && Fires(cfg, ps, i) && Fires(cfg, ps, j)
    ensures first <= i < second <= j && Confirms(cfg, ps, first, i) && Confirms(cfg, ps, second, j)
  {
    FiresExactly(cfg, ps, i);
    FiresExactly(cfg, ps, j);
    first :| Confirms(cfg, ps, first, i);
    second :| Confirms(cfg, ps, second, j);
  }

  /** A setting below 1 confirms nothing: every chunk with a prediction that counts fires. */
  lemma {:induction false} FiresAlways(cfg: Settings, ps: seq<Option<Scored>>, i: nat)
    requires i < |ps| && cfg.confirmChunks <= 0
    ensures StateBefore(cfg, ps, i).count == 0
    ensures Fires(cfg, ps, i) <==> ps[i].Some?
  {
    if i > 0 {
      FiresAlways(cfg, ps, i - 1);
    }
  }
}
