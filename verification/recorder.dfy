/**
 The utterance recorder of the voice listener (record_utterance in voice-listener/voice_listener.py).
 Whether a frame is speech is the answer of the voice-activity detector, taken as given.
 */
module Recorder {
  import opened Prelude

  /** The last n frames up to and including frame j are all speech. */
  predicate SpeechRun(speech: seq<bool>, n: int, j: nat)
    requires j < |speech|
  {
    n <= j + 1 && forall i :: 0 <= i <= j && j - n < i ==> speech[i]
  }

  /** The last n frames up to and including frame j come after frame t and none of them is speech. */
  predicate SilentRun(speech: seq<bool>, n: int, t: nat, j: nat)
    requires t < j < |speech|
  {
    n <= j - t && forall i :: t < i <= j && j - n < i ==> !speech[i]
  }

  /** Frame t is the first of the `limit` frames that ends a run of `startFrames` speech frames. */
  ghost predicate Trigger(speech: seq<bool>, limit: int, startFrames: int, t: nat)
    requires limit <= |speech|
  {
    && t < limit && SpeechRun(speech, startFrames, t)
    && forall j :: 0 <= j < t ==> !SpeechRun(speech, startFrames, j)
  }

  /** Frame e is the first after t that ends a run of `endFrames` silent frames, or else the last frame. */
  ghost predicate Last(speech: seq<bool>, limit: int, endFrames: int, t: nat, e: nat)
    requires limit <= |speech|
  {
    && t <= e < limit
    && (e == limit - 1 || (t < e && SilentRun(speech, endFrames, t, e)))
    && forall j :: t < j < e ==> !SilentRun(speech, endFrames, t, j)
  }

  /** The first frame of the padding before the trigger. */
  function From(padding: int, t: nat): nat {
    if padding < 0 then t + 1 else if padding > t then 0 else t + 1 - padding
  }

  /** The padding up to the trigger, the trigger frame again, and what follows it. */
  function Window<T>(frames: seq<seq<T>>, padding: int, t: nat, e: nat): seq<seq<T>>
    requires t <= e < |frames|
  {
    frames[From(padding, t)..t + 1] + [frames[t]] + frames[t + 1..e + 1]
  }

  /** What the ring buffer holds once j frames have been read. */
  function Ring<T>(frames: seq<seq<T>>, padding: int, j: nat): seq<seq<T>>
    requires j <= |frames|
  {
    if j == 0 then []
    else
      var pushed := Ring(frames, padding, j - 1) + [frames[j - 1]];
      if |pushed| > padding then pushed[1..] else pushed
  }

  /** What is recorded once j frames have been read, if recording started at frame t. */
  function Recorded<T>(frames: seq<seq<T>>, padding: int, t: nat, j: nat): seq<seq<T>>
    requires t < j <= |frames|
  {
    if j == t + 1 then Ring(frames, padding, j) + [frames[t]]
    else Recorded(frames, padding, t, j - 1) + [frames[j - 1]]
  }

  lemma Slice<T>(xs: seq<T>, from: nat, to: nat)
    requires from <= to < |xs|
    ensures xs[from..to] + [xs[to]] == xs[from..to + 1]
    ensures (xs[from..to] + [xs[to]])[1..] == xs[from + 1..to + 1]
  {
  }

  /** What one more frame makes of a ring buffer that holds the frames from..j. */
  lemma {:induction false} RingNext<T>(frames: seq<seq<T>>, padding: int, from: nat, j: nat)
    requires from <= j < |frames| && Ring(frames, padding, j) == frames[from..j]
    ensures j + 1 - from > padding ==> Ring(frames, padding, j + 1) == frames[from + 1..j + 1]
    ensures j + 1 - from <= padding ==> Ring(frames, padding, j + 1) == frames[from..j + 1]
  {
    Slice(frames, from, j);
  }

  lemma FromNext(padding: int, t: nat)
    ensures From(padding, t) <= t + 1
    ensures t + 2 - From(padding, t) > padding ==> From(padding, t + 1) == From(padding, t) + 1
    ensures t + 2 - From(padding, t) <= padding ==> From(padding, t + 1) == From(padding, t)
  {
  }

  lemma {:induction false} RingIsPadding<T>(frames: seq<seq<T>>, padding: int, t: nat)
    requires t < |frames|
    ensures Ring(frames, padding, t + 1) == frames[From(padding, t)..t + 1]
  {
    if t == 0 {
      assert Ring(frames, padding, 0) == frames[0..0];
      RingNext(frames, padding, 0, 0);
    } else {
      RingIsPadding(frames, padding, t - 1);
      FromNext(padding, t - 1);
      RingNext(frames, padding, From(padding, t - 1), t);
    }
  }

  lemma {:induction false} RecordedIsWindow<T>(frames: seq<seq<T>>, padding: int, t: nat, e: nat)
    requires t <= e < |frames|
    ensures Recorded(frames, padding, t, e + 1) == Window(frames, padding, t, e)
  {
    var start := frames[From(padding, t)..t + 1] + [frames[t]];
    if e == t {
      RingIsPadding(frames, padding, t);
      assert start + frames[t + 1..t + 1] == start;
    } else {
      RecordedIsWindow(frames, padding, t, e - 1);
      Slice(frames, t + 1, e);
      Regroup(start, frames[t + 1..e], [frames[e]]);
      assert Window(frames, padding, t, e - 1) == start + frames[t + 1..e];
    }
  }

  /** How many speech frames in a row end at frame j - 1. */
  function Streak(speech: seq<bool>, j: nat): (n: nat)
    requires j <= |speech|
  {
    if j == 0 || !speech[j - 1] then 0 else 1 + Streak(speech, j - 1)
  }

  lemma {:induction false} StreakIsRun(speech: seq<bool>, n: int, j: nat)
    requires j < |speech|
    ensures Streak(speech, j + 1) >= n <==> SpeechRun(speech, n, j)
    decreases j
  {
    if j > 0 {
      StreakIsRun(speech, n - 1, j - 1);
    }
  }

  /** How many silent frames in a row after frame t end at frame j - 1. */
  function Silence(speech: seq<bool>, t: nat, j: nat): (n: nat)
    requires t < j <= |speech|
  {
    if j == t + 1 || speech[j - 1] then 0 else 1 + Silence(speech, t, j - 1)
  }

  lemma {:induction false} SilenceIsRun(speech: seq<bool>, n: int, t: nat, j: nat)
    requires t < j < |speech|
    ensures Silence(speech, t, j + 1) >= n <==> SilentRun(speech, n, t, j)
    decreases j
  {
    if j > t + 1 {
      SilenceIsRun(speech, n - 1, t, j - 1);
    }
  }

  /** The frame among the first j at which recording starts. */
  function Started(speech: seq<bool>, n: int, j: nat): Option<nat>
    requires j <= |speech|
  {
    if j == 0 then None
    else if Started(speech, n, j - 1).Some? then Started(speech, n, j - 1)
    else if Streak(speech, j) >= n then Some(j - 1)
    else None
  }

  /** Some frame after t among the first j ends the recording. */
  predicate Stopped(speech: seq<bool>, n: int, t: nat, j: nat)
    requires t < j <= |speech|
  {
    j > t + 1 && (Stopped(speech, n, t, j - 1) || Silence(speech, t, j) >= n)
  }

  lemma {:induction false} StartedIsTrigger(speech: seq<bool>, n: int, j: nat)
    requires j <= |speech|
    ensures match Started(speech, n, j)
            case None => forall i :: 0 <= i < j ==> !SpeechRun(speech, n, i)
            case Some(t) => Trigger(speech, j, n, t)
  {
    if j > 0 {
      StartedIsTrigger(speech, n, j - 1);
      StreakIsRun(speech, n, j - 1);
    }
  }

  lemma {:induction false} StoppedIsLast(speech: seq<bool>, n: int, t: nat, j: nat)
    requires t < j <= |speech|
    ensures Stopped(speech, n, t, j) <==> exists i :: t < i < j && SilentRun(speech, n, t, i)
  {
    if j > t + 1 {
      StoppedIsLast(speech, n, t, j - 1);
      SilenceIsRun(speech, n, t, j - 1);
    }
  }

  lemma Found(speech: seq<bool>, limit: int, startFrames: int, endFrames: int, t: nat, read: nat)
    requires t < read <= limit <= |speech|
    requires Started(speech, startFrames, read) == Some(t)
    requires read > t + 1 ==> !Stopped(speech, endFrames, t, read - 1)
    requires read == limit || Stopped(speech, endFrames, t, read)
    ensures Trigger(speech, limit, startFrames, t) && Last(speech, limit, endFrames, t, read - 1)
  {
    StartedIsTrigger(speech, startFrames, read);
    if read > t + 1 {
      StoppedIsLast(speech, endFrames, t, read - 1);
      StoppedIsLast(speech, endFrames, t, read);
    }
  }

  /** There is at most one trigger frame and one last frame. */
  lemma OneWindow(speech: seq<bool>, limit: int, endFrames: int, startFrames: int, t: nat, e: nat, t': nat, e': nat)
    requires limit <= |speech|
    requires Trigger(speech, limit, startFrames, t) && Last(speech, limit, endFrames, t, e)
    requires Trigger(speech, limit, startFrames, t') && Last(speech, limit, endFrames, t', e')
    ensures t == t' && e == e'
  {
    assert SpeechRun(speech, startFrames, t) && SpeechRun(speech, startFrames, t');
    assert t == t';
    assert t < e < limit - 1 ==> SilentRun(speech, endFrames, t, e);
    assert t < e' < limit - 1 ==> SilentRun(speech, endFrames, t, e');
  }

  /** Some frame is the last of the recording. */
  function FirstLast(speech: seq<bool>, limit: int, endFrames: int, t: nat, from: nat): (e: nat)
    requires t <= from < limit <= |speech|
    requires forall j :: t < j < from ==> !SilentRun(speech, endFrames, t, j)
    ensures Last(speech, limit, endFrames, t, e)
    decreases limit - from
  {
    if from == limit - 1 || (t < from && SilentRun(speech, endFrames, t, from)) then from
    else FirstLast(speech, limit, endFrames, t, from + 1)
  }

  /** The recording of the first `limit` frames, and how many of them are read. */
  function Utterance<T>(frames: seq<seq<T>>, speech: seq<bool>, limit: nat, endFrames: int, padding: int,
                        startFrames: int): (seq<T>, nat)
    requires limit <= |frames| == |speech|
  {
    StartedIsTrigger(speech, startFrames, limit);
    match Started(speech, startFrames, limit)
    case None => ([], limit)
    case Some(t) =>
      var e := FirstLast(speech, limit, endFrames, t, t);
      (Concat(Window(frames, padding, t, e)), e + 1)
  }

  /** The recording is the declared window, whenever there is one; if no frame ends a run of speech it is empty. */
  lemma UtteranceExact<T>(frames: seq<seq<T>>, speech: seq<bool>, limit: nat, endFrames: int, padding: int,
                          startFrames: int, t: nat, e: nat)
    requires limit <= |frames| == |speech|
    ensures Trigger(speech, limit, startFrames, t) && Last(speech, limit, endFrames, t, e) ==>
              Utterance(frames, speech, limit, endFrames, padding, startFrames)
              == (Concat(Window(frames, padding, t, e)), e + 1)
    ensures (forall j :: 0 <= j < limit ==> !SpeechRun(speech, startFrames, j)) ==>
              Utterance(frames, speech, limit, endFrames, padding, startFrames) == ([], limit)
  {
    StartedIsTrigger(speech, startFrames, limit);
    if Started(speech, startFrames, limit).Some? {
      var t' := Started(speech, startFrames, limit).value;
      var e' := FirstLast(speech, limit, endFrames, t', t');
      assert SpeechRun(speech, startFrames, t');
      if Trigger(speech, limit, startFrames, t) && Last(speech, limit, endFrames, t, e) {
        OneWindow(speech, limit, endFrames, startFrames, t, e, t', e');
      }
    }
  }

  /**
   Recording starts at the first frame t that ends `startFrames` frames of speech, and goes on to the first
   frame after it that ends `endFrames` silent ones, or else to the end. What is recorded are up to `padding`
   frames that end with frame t, frame t itself, and the frames after it.
   */
  lemma RecordsExactly<T>(frames: seq<seq<T>>, speech: seq<bool>, limit: nat, endFrames: int, padding: int,
                          startFrames: int, t: nat, e: nat)
    requires t <= e < limit <= |frames| == |speech|
    requires startFrames <= t + 1 && forall i :: 0 <= i <= t && t - startFrames < i ==> speech[i]
    requires forall j {:trigger speech[j]} :: 0 <= j < t && startFrames <= j + 1 ==>
                                                exists i :: 0 <= i <= j && j - startFrames < i && !speech[i]
    requires || e == limit - 1
             || (t < e && endFrames <= e - t && forall i :: t < i <= e && e - endFrames < i ==> !speech[i])
    requires forall j {:trigger speech[j]} :: t < j < e && endFrames <= j - t ==>
                                                exists i :: t < i <= j && j - endFrames < i && speech[i]
    ensures var from := if padding <= 0 then t + 1 else if padding > t + 1 then 0 else t + 1 - padding;
            Utterance(frames, speech, limit, endFrames, padding, startFrames) ==
            (Concat(frames[from..t + 1] + [frames[t]] + frames[t + 1..e + 1]), e + 1)
  {
    forall j | 0 <= j < t
      ensures !SpeechRun(speech, startFrames, j)
    {
      if startFrames <= j + 1 {
        var _ := speech[j];
        var i :| 0 <= i <= j && j - startFrames < i && !speech[i];
      }
    }
    forall j | t < j < e
      ensures !SilentRun(speech, endFrames, t, j)
    {
      if endFrames <= j - t {
        var _ := speech[j];
        var i :| t < i <= j && j - endFrames < i && speech[i];
      }
    }
    UtteranceExact(frames, speech, limit, endFrames, padding, startFrames, t, e);
  }

  /** After `read` frames recording has not started; the ring buffer and the run of speech are up to date. */
  ghost predicate Waiting<T>(frames: seq<seq<T>>, speech: seq<bool>, padding: int, startFrames: int, read: nat,
                             ring: seq<seq<T>>, streak: nat)
  {
    && read <= |frames| == |speech| && Started(speech, startFrames, read) == None
    && ring == Ring(frames, padding, read) && streak == Streak(speech, read)
  }

  /** After `read` frames recording has been going on since frame t. */
  ghost predicate Recording<T>(frames: seq<seq<T>>, speech: seq<bool>, padding: int, startFrames: int, t: nat,
                               read: nat, recorded: seq<seq<T>>, silence: nat)
  {
    && t < read <= |frames| == |speech| && Started(speech, startFrames, read) == Some(t)
    && recorded == Recorded(frames, padding, t, read) && silence == Silence(speech, t, read)
  }

  /** A frame read while waiting goes into the ring buffer, and may start the recording. */
  lemma {:induction false} WaitingStep<T>(frames: seq<seq<T>>, speech: seq<bool>, padding: int, startFrames: int,
                                          read: nat, ring: seq<seq<T>>, streak: nat, ring': seq<seq<T>>, streak': nat)
    requires read < |frames| && Waiting(frames, speech, padding, startFrames, read, ring, streak)
    requires var pushed := ring + [frames[read]]; ring' == if |pushed| > padding then pushed[1..] else pushed
    requires streak' == if speech[read] then streak + 1 else 0
    ensures if streak' >= startFrames
            then Recording(frames, speech, padding, startFrames, read, read + 1, ring' + [frames[read]], 0)
            else Waiting(frames, speech, padding, startFrames, read + 1, ring', streak')
  {
    assert Ring(frames, padding, read + 1) == ring';
    assert Streak(speech, read + 1) == streak';
  }

  /** A frame read while recording is recorded; it ends the recording exactly if it completes the silence. */
  lemma {:induction false} RecordingStep<T>(frames: seq<seq<T>>, speech: seq<bool>, padding: int, startFrames: int,
                                            endFrames: int, t: nat, read: nat, recorded: seq<seq<T>>, silence: nat)
    requires read < |frames| && Recording(frames, speech, padding, startFrames, t, read, recorded, silence)
    requires !Stopped(speech, endFrames, t, read)
    ensures var silence' := if speech[read] then 0 else silence + 1;
            && Recording(frames, speech, padding, startFrames, t, read + 1, recorded + [frames[read]], silence')
            && (Stopped(speech, endFrames, t, read + 1) <==> silence' >= endFrames)
  {
  }

  /** What has been recorded when the loop ends is the utterance. */
  lemma {:induction false} RecordingEnds<T>(frames: seq<seq<T>>, speech: seq<bool>, limit: nat, endFrames: int,
                                            padding: int, startFrames: int, t: nat, read: nat,
                                            recorded: seq<seq<T>>, silence: nat)
    requires read <= limit <= |frames|
    requires Recording(frames, speech, padding, startFrames, t, read, recorded, silence)
    requires read > t + 1 ==> !Stopped(speech, endFrames, t, read - 1)
    requires read == limit || Stopped(speech, endFrames, t, read)
    ensures (Concat(recorded), read) == Utterance(frames, speech, limit, endFrames, padding, startFrames)
  {
    RecordedIsWindow(frames, padding, t, read - 1);
    Found(speech, limit, startFrames, endFrames, t, read);
    UtteranceExact(frames, speech, limit, endFrames, padding, startFrames, t, read - 1);
  }

  /** record_utterance over the frames it could read; `read` counts the frames it did read. */
  method RecordUtterance<T>(frames: seq<seq<T>>, speech: seq<bool>, maxFrames: int, endSilenceFrames: int,
                            paddingFrames: int, startFrames: int)
    returns (audio: seq<T>, read: nat)
    requires maxFrames <= |frames| == |speech|
    ensures (audio, read) == Utterance(frames, speech, if maxFrames < 0 then 0 else maxFrames, endSilenceFrames,
                                       paddingFrames, startFrames)
  {
    var ringBuffer: seq<seq<T>>, recorded: seq<seq<T>> := [], [];
    var triggered, silenceCount: nat, speechStreak: nat := false, 0, 0;
    ghost var t: nat := 0;
    read := 0;
    while read < maxFrames
      invariant read <= maxFrames || read == 0
      invariant !triggered ==> Waiting(frames, speech, paddingFrames, startFrames, read, ringBuffer, speechStreak)
      invariant !triggered ==> recorded == [] && silenceCount == 0
      invariant triggered ==> Recording(frames, speech, paddingFrames, startFrames, t, read, recorded, silenceCount)
      invariant triggered ==> !Stopped(speech, endSilenceFrames, t, read)
    {
      var frame, isSpeech := frames[read], speech[read];
      ghost var ring, streak := ringBuffer, speechStreak;
      read := read + 1;
      if !triggered {
        ringBuffer := ringBuffer + [frame];
        if |ringBuffer| > paddingFrames {
          ringBuffer := ringBuffer[1..];
        }
        speechStreak := if isSpeech then speechStreak + 1 else 0;
        WaitingStep(frames, speech, paddingFrames, startFrames, read - 1, ring, streak, ringBuffer, speechStreak);
        if speechStreak >= startFrames {
          triggered := true;
          assert recorded + ringBuffer == ringBuffer;
          recorded := recorded + ringBuffer;
          ringBuffer := [];
          recorded := recorded + [frame];
          t := read - 1;
        }
      } else {
        RecordingStep(frames, speech, paddingFrames, startFrames, endSilenceFrames, t, read - 1, recorded,
                      silenceCount);
        recorded := recorded + [frame];
        silenceCount := if isSpeech then 0 else silenceCount + 1;
        if silenceCount >= endSilenceFrames {
          break;
        }
      }
    }
    ghost var limit: nat := if maxFrames < 0 then 0 else maxFrames;
    if triggered {
      RecordingEnds(frames, speech, limit, endSilenceFrames, paddingFrames, startFrames, t, read, recorded,
                    silenceCount);
    }
    audio := if recorded == [] then [] else Concat(recorded);
  }

  /** Once some frame ends a run of speech, the window is there, and its length is within the bound. */
  lemma WindowExists<T>(frames: seq<seq<T>>, speech: seq<bool>, limit: int, endFrames: int, padding: int,
                        startFrames: int, j: nat) returns (t: nat, e: nat)
    requires limit <= |frames| == |speech| && j < limit && SpeechRun(speech, startFrames, j)
    ensures Trigger(speech, limit, startFrames, t) && Last(speech, limit, endFrames, t, e) && t <= j
    ensures |Window(frames, padding, t, e)| == (e - From(padding, t) + 1) + 1 <= limit + 1
    ensures padding <= 0 ==> Window(frames, padding, t, e) == frames[t..e + 1]
  {
    StartedIsTrigger(speech, startFrames, limit);
    t := Started(speech, startFrames, limit).value;
    e := FirstLast(speech, limit, endFrames, t, t);
    assert frames[t..t] + [frames[t]] + frames[t + 1..e + 1] == frames[t..e + 1];
  }

  /** With any padding, the trigger frame is recorded twice in a row, and the rest is contiguous. */
  lemma TriggerTwice<T>(frames: seq<seq<T>>, padding: int, t: nat, e: nat)
    requires t <= e < |frames| && padding >= 1
    ensures var window, at := Window(frames, padding, t, e), t - From(padding, t);
            && window[at] == window[at + 1] == frames[t]
            && window[..at] + window[at + 1..] == frames[From(padding, t)..e + 1]
  {
  }
}
