/**
 Grouping the pending texts into prompts, and the retrying, splitting translation of one group
 (openclaw/scripts/control-ui-i18n.ts).
 */
module TranslationBatches {
  import opened Prelude

  datatype Item = Item(cacheKey: string, key: string, text: string, textHash: string)

  const MAX_BATCH_ITEMS: nat := 20
  const TRANSLATE_MAX_ATTEMPTS: nat := 2

  // ---------- Batches ----------

  function EstimateBatchChars(items: seq<Item>): nat {
    if items == [] then 2
    else EstimateBatchChars(items[..|items| - 1]) + |items[|items| - 1].key| + |items[|items| - 1].text| + 8
  }

  /** What the running total holds for a group: two characters more per item than the estimate. */
  function RunningChars(items: seq<Item>): nat {
    EstimateBatchChars(items) + 2 * |items|
  }

  ghost predicate Fits(batch: seq<Item>, budget: real) {
    1 <= |batch| <= MAX_BATCH_ITEMS && (|batch| > 1 ==> RunningChars(batch) as real <= budget)
  }

  /** The estimate is the length of all keys and texts, with 8 characters per item and 2 for the whole. */
  lemma {:induction false} EstimateExact(items: seq<Item>)
    ensures EstimateBatchChars(items) ==
            2 + 8 * |items| + |Concat(seq(|items|, i requires 0 <= i < |items| => items[i].key + items[i].text))|
  {
    var texts := seq(|items|, i requires 0 <= i < |items| => items[i].key + items[i].text);
    if items != [] {
      var n := |items| - 1;
      var init := items[..n];
      EstimateExact(init);
      assert texts == seq(n, i requires 0 <= i < n => init[i].key + init[i].text) + [items[n].key + items[n].text];
      ConcatAppend(texts[..n], texts[n]);
      assert texts[..n] == seq(n, i requires 0 <= i < n => init[i].key + init[i].text);
    }
  }

  /**
   A group of several items fits if they are at most 20 and their keys and texts, with ten characters more
   for each item and 2 for the group, stay within the budget; a single item always fits.
   */
  lemma FitsExactly(batch: seq<Item>, budget: real)
    ensures var texts := seq(|batch|, i requires 0 <= i < |batch| => batch[i].key + batch[i].text);
            Fits(batch, budget)
            <==> 1 <= |batch| <= 20 && (|batch| == 1 || (|Concat(texts)| + 10 * |batch| + 2) as real <= budget)
  {
    EstimateExact(batch);
  }

  /** Every group fits, and none could also have taken the first item of the next group. */
  ghost predicate Greedy(batches: seq<seq<Item>>, budget: real) {
    && (forall i :: 0 <= i < |batches| ==> Fits(batches[i], budget))
    && (forall i :: 0 <= i < |batches| - 1 ==> !Fits(batches[i] + [batches[i + 1][0]], budget))
  }

  lemma {:induction false} EstimateAppend(items: seq<Item>, item: Item)
    ensures EstimateBatchChars(items + [item]) == EstimateBatchChars(items) + EstimateBatchChars([item]) - 2
  {
    assert (items + [item])[..|items|] == items;
    assert [item][..0] == [];
  }

  /** The next item starts a group of its own, because the open group could not take it. */
  lemma GreedyNext(batches: seq<seq<Item>>, open: seq<Item>, item: Item, budget: real)
    requires Greedy(batches + [open], budget) && !Fits(open + [item], budget)
    ensures Greedy(batches + [open] + [[item]], budget)
  {
    var all, n := batches + [open] + [[item]], |batches|;
    assert all[..n + 1] == batches + [open] && all[n] == open && all[n + 1] == [item];
    forall i | 0 <= i < |all| - 1
      ensures !Fits(all[i] + [all[i + 1][0]], budget)
    {
      if i < n {
        assert all[i] == (batches + [open])[i] && all[i + 1] == (batches + [open])[i + 1];
      }
    }
  }

  /** The open group takes the next item. */
  lemma GreedyGrows(batches: seq<seq<Item>>, open: seq<Item>, item: Item, budget: real)
    requires Greedy(batches + [open], budget) && open != [] && Fits(open + [item], budget)
    ensures Greedy(batches + [open + [item]], budget)
  {
    var before, all := batches + [open], batches + [open + [item]];
    assert (open + [item])[0] == open[0];
    forall i | 0 <= i < |all|
      ensures Fits(all[i], budget) && before[i] != [] && all[i][0] == before[i][0]
    {
      assert i < |batches| ==> all[i] == before[i];
    }
    forall i | 0 <= i < |all| - 1
      ensures !Fits(all[i] + [all[i + 1][0]], budget)
    {
      assert before[i] == all[i];
    }
  }

  method BuildTranslationBatches(items: seq<Item>, budget: real) returns (batches: seq<seq<Item>>)
    ensures Concat(batches) == items
    ensures Greedy(batches, budget)
  {
    batches := [];
    var current: seq<Item> := [];
    var currentChars := 2;
    for i := 0 to |items|
      invariant Concat(batches) + current == items[..i]
      invariant currentChars == RunningChars(current)
      invariant current == [] ==> i == 0 && batches == []
      invariant current != [] ==> Greedy(batches + [current], budget)
    {
      var item := items[i];
      assert items[..i + 1] == items[..i] + [item];
      var itemChars := EstimateBatchChars([item]);
      EstimateAppend(current, item);
      EstimateAppend([], item);
      var wouldOverflow := |current| > 0 && (currentChars + itemChars) as real > budget;
      var reachedMaxItems := |current| >= MAX_BATCH_ITEMS;
      if wouldOverflow || reachedMaxItems {
        GreedyNext(batches, current, item, budget);
        ConcatAppend(batches, current);
        batches := batches + [current];
        current := [];
        currentChars := 2;
      } else if current != [] {
        GreedyGrows(batches, current, item, budget);
      }
      Regroup(Concat(batches), current, [item]);
      current := current + [item];
      currentChars := currentChars + itemChars;
    }
    assert items[..|items|] == items;
    if |current| > 0 {
      ConcatAppend(batches, current);
      batches := batches + [current];
    }
  }

  lemma {:induction false} EstimateMonotone(items: seq<Item>, n: nat)
    requires n <= |items|
    ensures RunningChars(items[..n]) <= RunningChars(items)
  {
    if n < |items| {
      EstimateMonotone(items[..|items| - 1], n);
      assert items[..|items| - 1][..n] == items[..n];
    } else {
      assert items[..n] == items;
    }
  }

  // The shorter of two greedy first groups would have had room for one more item.
  lemma {:induction false} GreedyFirst(a: seq<seq<Item>>, b: seq<seq<Item>>, budget: real)
    requires Greedy(a, budget) && Greedy(b, budget) && Concat(a) == Concat(b) && a != [] && b != []
    ensures |a[0]| >= |b[0]|
  {
    var items := Concat(a);
    if |a[0]| < |b[0]| {
      assert Concat(a[1..]) != [];
      assert Concat(a[1..]) == a[1] + Concat(a[1..][1..]);
      assert items[|a[0]|] == a[1][0] == b[0][|a[0]|];
      var more := a[0] + [a[1][0]];
      assert a[0] == items[..|a[0]|] && b[0] == items[..|b[0]|];
      assert forall i :: 0 <= i < |more| ==> more[i] == items[i];
      assert more == b[0][..|a[0]| + 1];
      EstimateMonotone(b[0], |a[0]| + 1);
      assert false;
    }
  }

  lemma {:induction false} ConcatNonEmpty(a: seq<seq<Item>>, budget: real)
    requires Greedy(a, budget)
    ensures a == [] <==> Concat(a) == []
  {
    if a != [] {
      assert |Concat(a)| >= |a[0]|;
    }
  }

  /** The grouping contract leaves no choice: a greedy grouping of the same items is the same grouping. */
  lemma {:induction false} GreedyUnique(a: seq<seq<Item>>, b: seq<seq<Item>>, budget: real)
    requires Greedy(a, budget) && Greedy(b, budget) && Concat(a) == Concat(b)
    ensures a == b
    decreases |a|
  {
    if a == [] || b == [] {
      ConcatNonEmpty(a, budget);
      ConcatNonEmpty(b, budget);
    } else {
      GreedyFirst(a, b, budget);
      GreedyFirst(b, a, budget);
      assert a[0] == Concat(a)[..|a[0]|] && b[0] == Concat(b)[..|b[0]|];
      assert Concat(a[1..]) == Concat(a)[|a[0]|..] && Concat(b[1..]) == Concat(b)[|b[0]|..];
      assert Greedy(a[1..], budget) by {
        assert forall i :: 0 <= i < |a[1..]| ==> a[1..][i] == a[i + 1];
      }
      assert Greedy(b[1..], budget) by {
        assert forall i :: 0 <= i < |b[1..]| ==> b[1..][i] == b[i + 1];
      }
      GreedyUnique(a[1..], b[1..], budget);
      assert a == [a[0]] + a[1..] && b == [b[0]] + b[1..];
    }
  }

  // ---------- Translating one batch ----------

  // How one prompt ends: an exception with its message, or a parsed JSON object whose
  // non-string properties appear as None.
  datatype Reply = Throws(message: string) | Parsed(values: map<string, Option<string>>)

  function LowerChar(c: char): char {
    if 'A' <= c <= 'Z' then ((c as int) + 32) as char else c
  }

  function Lower(s: string): (t: string)
    ensures |t| == |s|
  {
    seq(|s|, i requires 0 <= i < |s| => LowerChar(s[i]))
  }

  predicate OccursAt(s: string, part: string, i: int) {
    0 <= i <= |s| - |part| && s[i..i + |part|] == part
  }

  predicate Contains(s: string, part: string) {
    exists i :: 0 <= i <= |s| && OccursAt(s, part, i)
  }

  predicate IsPromptTimeoutError(message: string) {
    Contains(Lower(message), "timed out")
  }

  /** A message is taken for a timeout exactly if "timed out" stands somewhere in it, in small letters or capitals. */
  lemma TimeoutExactly(message: string)
    ensures IsPromptTimeoutError(message)
            <==> exists a, w, b ::
                   && message == a + w + b && |w| == 9
                   && forall i :: 0 <= i < 9 ==>
                                    || w[i] == "timed out"[i]
                                    || ("timed out"[i] != ' ' && w[i] as int + 32 == "timed out"[i] as int)
  {
    var part := "timed out";
    if IsPromptTimeoutError(message) {
      var i :| 0 <= i <= |message| && OccursAt(Lower(message), part, i);
      var a, w, b := message[..i], message[i..i + 9], message[i + 9..];
      assert message == a + w + b;
      assert forall j :: 0 <= j < 9 ==> Lower(message)[i..i + 9][j] == LowerChar(w[j]) == part[j];
    }
    forall a, w, b | message == a + w + b && |w| == 9
                     && forall i :: 0 <= i < 9 ==>
                                      w[i] == part[i] || (part[i] != ' ' && w[i] as int + 32 == part[i] as int)
      ensures IsPromptTimeoutError(message)
    {
      assert forall j :: 0 <= j < 9 ==> Lower(message)[|a|..|a| + 9][j] == LowerChar(w[j]) == part[j];
      assert OccursAt(Lower(message), part, |a|);
    }
  }

  /** The value a reply gives to a key, unless it is missing, not a string, or blank. */
  function Usable(reply: Reply, key: string): Option<string> {
    if reply.Parsed? && key in reply.values && reply.values[key].Some? && !IsBlank(reply.values[key].value)
    then reply.values[key] else None
  }

  /** Reading the requested keys out of a reply, item by item. */
  function ReadReply(items: seq<Item>, reply: Reply): Result<map<string, string>, string> {
    if reply.Throws? then Err(reply.message)
    else if items == [] then Ok(map[])
    else
      var before := ReadReply(items[..|items| - 1], reply);
      var last := items[|items| - 1];
      if before.Err? then before
      else if Usable(reply, last.key).None? then Err("missing translation for " + last.key)
      else Ok(before.value[last.key := Usable(reply, last.key).value])
  }

  type Replies = nat -> Reply

  function Midpoint(items: seq<Item>): (m: nat)
    ensures |items| > 1 ==> 1 <= m < |items| && m == |items| - |items| / 2
  {
    (|items| + 1) / 2
  }

  /** translateBatch from a given attempt on, with the number of the next prompt going in and coming out. */
  function Translate(items: seq<Item>, replies: Replies, at: nat, attempt: nat)
    : (Result<map<string, string>, string>, nat)
    requires attempt < TRANSLATE_MAX_ATTEMPTS
    decreases |items|, TRANSLATE_MAX_ATTEMPTS - attempt
  {
    var read := ReadReply(items, replies(at));
    if read.Ok? then (read, at + 1)
    else if IsPromptTimeoutError(read.error) && |items| > 1 then
      var (left, middle) := Translate(items[..Midpoint(items)], replies, at + 1, 0);
      if left.Err? then (left, middle)
      else
        var (right, end) := Translate(items[Midpoint(items)..], replies, middle, 0);
        if right.Err? then (right, end) else (Ok(left.value + right.value), end)
    else if IsPromptTimeoutError(read.error) || attempt + 1 == TRANSLATE_MAX_ATTEMPTS then (read, at + 1)
    else Translate(items, replies, at + 1, attempt + 1)
  }

  /** The keys are read out item by item; the first without a usable text ends it. */
  method ReadItems(items: seq<Item>, reply: Reply) returns (r: Result<map<string, string>, string>)
    ensures r == ReadReply(items, reply)
  {
    if reply.Throws? {
      ReadThrows(items, reply);
      return Err(reply.message);
    }
    var translated: map<string, string> := map[];
    for i := 0 to |items|
      invariant ReadReply(items[..i], reply) == Ok(translated)
    {
      assert items[..i + 1][..i] == items[..i];
      var value := Usable(reply, items[i].key);
      if value.None? {
        ReadStops(items, reply, i + 1);
        return Err("missing translation for " + items[i].key);
      }
      translated := translated[items[i].key := value.value];
    }
    assert items[..|items|] == items;
    return Ok(translated);
  }

  lemma {:induction false} ReadThrows(items: seq<Item>, reply: Reply)
    requires reply.Throws?
    ensures ReadReply(items, reply) == Err(reply.message)
  {
  }

  /** Only a parsed reply is accepted. */
  lemma {:induction false} ParsedOnly(items: seq<Item>, reply: Reply)
    ensures ReadReply(items, reply).Ok? ==> reply.Parsed?
  {
  }

  lemma {:induction false} ReadStops(items: seq<Item>, reply: Reply, n: nat)
    requires n <= |items| && ReadReply(items[..n], reply).Err?
    ensures ReadReply(items, reply) == ReadReply(items[..n], reply)
  {
    if n < |items| {
      assert items[..|items| - 1][..n] == items[..n];
      ReadStops(items[..|items| - 1], reply, n);
    } else {
      assert items[..n] == items;
    }
  }

  function Keys(items: seq<Item>): set<string> {
    set i | 0 <= i < |items| :: items[i].key
  }

  /** A reply is accepted exactly if it holds a text that is not blank for every item; those texts are the result. */
  lemma {:induction false} ReadReplyExact(items: seq<Item>, reply: Reply)
    ensures ReadReply(items, reply).Ok?
            <==> reply.Parsed? && forall k :: k in Keys(items) ==>
                                                && k in reply.values && reply.values[k].Some?
                                                && !IsBlank(reply.values[k].value)
    ensures var r := ReadReply(items, reply);
            r.Ok? ==>
              && r.value.Keys == Keys(items)
              && forall k :: k in r.value ==> k in reply.values && reply.values[k] == Some(r.value[k])
  {
    if items != [] {
      var init, last := items[..|items| - 1], items[|items| - 1];
      ReadReplyExact(init, reply);
      assert Keys(items) == Keys(init) + {last.key} by {
        assert items == init + [last];
      }
    }
  }

  /** A prompt that throws gives its message; a parsed reply that is not accepted names the first key without a text. */
  lemma {:induction false} ReadReplyFails(items: seq<Item>, reply: Reply) returns (i: nat)
    requires ReadReply(items, reply).Err?
    ensures reply.Throws? ==> ReadReply(items, reply).error == reply.message
    ensures reply.Parsed? ==>
              && i < |items| && ReadReply(items, reply).error == "missing translation for " + items[i].key
              && (items[i].key in reply.values && reply.values[items[i].key].Some? ==>
                    IsBlank(reply.values[items[i].key].value))
              && forall j :: 0 <= j < i ==>
                               && items[j].key in reply.values && reply.values[items[j].key].Some?
                               && !IsBlank(reply.values[items[j].key].value)
  {
    i := 0;
    if reply.Parsed? {
      var n := |items| - 1;
      if ReadReply(items[..n], reply).Err? {
        i := ReadReplyFails(items[..n], reply);
        assert forall j :: 0 <= j < n ==> items[..n][j] == items[j];
      } else {
        i := n;
        ReadReplyExact(items[..n], reply);
        assert forall j :: 0 <= j < n ==> items[..n][j].key in Keys(items[..n]);
      }
    }
  }

  /** Every text of a result was given by one of the prompts spent on it. */
  ghost predicate Answered(key: string, text: string, replies: Replies, from: nat, to: nat) {
    exists j :: from <= j < to && replies(j).Parsed? && key in replies(j).values && replies(j).values[key] == Some(text)
  }

  /** `texts` has exactly the items' keys, each with a non-blank text from one of the prompts spent. */
  ghost predicate GivenFor(items: seq<Item>, texts: map<string, string>, replies: Replies, from: nat, to: nat) {
    && texts.Keys == Keys(items)
    && forall k :: k in texts ==> !IsBlank(texts[k]) && Answered(k, texts[k], replies, from, to)
  }

  lemma KeysSplit(items: seq<Item>, m: nat)
    requires m <= |items|
    ensures Keys(items) == Keys(items[..m]) + Keys(items[m..])
  {
    forall k | k in Keys(items)
      ensures k in Keys(items[..m]) + Keys(items[m..])
    {
      var i :| 0 <= i < |items| && items[i].key == k;
      if i < m {
        assert items[..m][i].key == k;
      } else {
        assert items[m..][i - m].key == k;
      }
    }
  }

  lemma KeysJoined(a: seq<Item>, b: seq<Item>)
    ensures Keys(a + b) == Keys(a) + Keys(b)
  {
    assert (a + b)[..|a|] == a && (a + b)[|a|..] == b;
    KeysSplit(a + b, |a|);
  }

  lemma AnsweredWithin(key: string, text: string, replies: Replies, from: nat, to: nat, from': nat, to': nat)
    requires Answered(key, text, replies, from, to) && from' <= from && to <= to'
    ensures Answered(key, text, replies, from', to')
  {
  }

  lemma GivenJoined(a: seq<Item>, b: seq<Item>, left: map<string, string>, right: map<string, string>,
                    replies: Replies, from: nat, middle: nat, to: nat)
    requires GivenFor(a, left, replies, from, middle) && GivenFor(b, right, replies, middle, to) && from <= middle <= to
    ensures GivenFor(a + b, left + right, replies, from, to)
  {
    KeysJoined(a, b);
    var texts := left + right;
    forall k | k in texts
      ensures !IsBlank(texts[k]) && Answered(k, texts[k], replies, from, to)
    {
      if k in right {
        AnsweredWithin(k, right[k], replies, middle, to, from, to);
      } else {
        AnsweredWithin(k, left[k], replies, from, middle, from, to);
      }
    }
  }

  lemma GivenWithin(items: seq<Item>, texts: map<string, string>, replies: Replies, from: nat, to: nat, from': nat)
    requires GivenFor(items, texts, replies, from, to) && from' <= from
    ensures GivenFor(items, texts, replies, from', to)
  {
    forall k | k in texts
      ensures Answered(k, texts[k], replies, from', to)
    {
      AnsweredWithin(k, texts[k], replies, from, to, from', to);
    }
  }

  lemma SplitGiven(items: seq<Item>, m: nat, left: map<string, string>, right: map<string, string>,
                   replies: Replies, at: nat, middle: nat, end: nat)
    requires m <= |items| && GivenFor(items[..m], left, replies, at + 1, middle) && at + 1 <= middle <= end
    requires GivenFor(items[m..], right, replies, middle, end)
    ensures GivenFor(items, left + right, replies, at, end)
  {
    TakeAndDrop(items, m);
    GivenJoined(items[..m], items[m..], left, right, replies, at + 1, middle, end);
    GivenWithin(items, left + right, replies, at + 1, end, at);
  }

  /** What the parts of a split or retried batch give, the batch gives. */
  lemma {:induction false} SplitExact(items: seq<Item>, replies: Replies, at: nat, attempt: nat)
    requires attempt < TRANSLATE_MAX_ATTEMPTS && |items| > 1
    requires ReadReply(items, replies(at)).Err? && IsPromptTimeoutError(ReadReply(items, replies(at)).error)
    requires Translates(items[..Midpoint(items)], replies, at + 1, 0)
    requires var (left, middle) := Translate(items[..Midpoint(items)], replies, at + 1, 0);
             left.Ok? ==> Translates(items[Midpoint(items)..], replies, middle, 0)
    ensures Translates(items, replies, at, attempt)
  {
    var m := Midpoint(items);
    var (left, middle) := Translate(items[..m], replies, at + 1, 0);
    if left.Ok? {
      var (right, end) := Translate(items[m..], replies, middle, 0);
      if right.Ok? {
        SplitGiven(items, m, left.value, right.value, replies, at, middle, end);
      }
    }
  }

  lemma {:induction false} RetryExact(items: seq<Item>, replies: Replies, at: nat, attempt: nat)
    requires attempt + 1 < TRANSLATE_MAX_ATTEMPTS
    requires Translate(items, replies, at, attempt) == Translate(items, replies, at + 1, attempt + 1)
    requires Translates(items, replies, at + 1, attempt + 1)
    ensures Translates(items, replies, at, attempt)
  {
    var (r, end) := Translate(items, replies, at, attempt);
    if r.Ok? {
      GivenWithin(items, r.value, replies, at + 1, end, at);
    }
  }

  /** A result holds exactly the items' keys, each with a non-blank text from a prompt spent on it. */
  ghost predicate Translates(items: seq<Item>, replies: Replies, at: nat, attempt: nat)
    requires attempt < TRANSLATE_MAX_ATTEMPTS
  {
    var (r, end) := Translate(items, replies, at, attempt);
    at < end && (r.Ok? ==> GivenFor(items, r.value, replies, at, end))
  }

  /** A batch that does not throw translates exactly its keys, each with a non-blank text from a reply. */
  lemma {:induction false} TranslateExact(items: seq<Item>, replies: Replies, at: nat, attempt: nat)
    requires attempt < TRANSLATE_MAX_ATTEMPTS
    ensures Translates(items, replies, at, attempt)
    decreases |items|, TRANSLATE_MAX_ATTEMPTS - attempt
  {
    var read := ReadReply(items, replies(at));
    if read.Ok? {
      ReadGiven(items, replies, at);
    } else if IsPromptTimeoutError(read.error) && |items| > 1 {
      var m := Midpoint(items);
      TranslateExact(items[..m], replies, at + 1, 0);
      var (left, middle) := Translate(items[..m], replies, at + 1, 0);
      if left.Ok? {
        TranslateExact(items[m..], replies, middle, 0);
      }
      SplitExact(items, replies, at, attempt);
    } else if !IsPromptTimeoutError(read.error) && attempt + 1 < TRANSLATE_MAX_ATTEMPTS {
      TranslateExact(items, replies, at + 1, attempt + 1);
      RetryExact(items, replies, at, attempt);
    }
  }

  lemma {:induction false} ReadGiven(items: seq<Item>, replies: Replies, at: nat)
    requires ReadReply(items, replies(at)).Ok?
    ensures GivenFor(items, ReadReply(items, replies(at)).value, replies, at, at + 1)
  {
    ReadReplyExact(items, replies(at));
  }

  // ---------- Translating all batches ----------

  /** The loop over the batches: each is translated in turn, and the first that throws ends it. */
  function TranslateAll(batches: seq<seq<Item>>, replies: Replies, at: nat)
    : (Result<map<string, string>, string>, nat)
  {
    if batches == [] then (Ok(map[]), at)
    else
      var (before, middle) := TranslateAll(batches[..|batches| - 1], replies, at);
      if before.Err? then (before, middle)
      else
        var (last, end) := Translate(batches[|batches| - 1], replies, middle, 0);
        if last.Err? then (last, end) else (Ok(before.value + last.value), end)
  }

  /** What is given for all batches: exactly their keys, each text from a reply to a prompt spent on the way. */
  lemma {:induction false} TranslateAllExact(batches: seq<seq<Item>>, replies: Replies, at: nat)
    ensures var (r, end) := TranslateAll(batches, replies, at);
            && at <= end
            && (r.Ok? ==> GivenFor(Concat(batches), r.value, replies, at, end))
  {
    if batches != [] {
      var init, last := batches[..|batches| - 1], batches[|batches| - 1];
      TranslateAllExact(init, replies, at);
      var (before, middle) := TranslateAll(init, replies, at);
      TranslateExact(last, replies, middle, 0);
      var (r, end) := Translate(last, replies, middle, 0);
      if before.Ok? && r.Ok? {
        assert batches == init + [last];
        ConcatAppend(init, last);
        GivenJoined(Concat(init), last, before.value, r.value, replies, at, middle, end);
      }
    }
  }

  /** A batch that throws ends the loop with its error. */
  lemma {:induction false} TranslateAllStops(batches: seq<seq<Item>>, replies: Replies, at: nat, n: nat)
    requires n <= |batches| && TranslateAll(batches[..n], replies, at).0.Err?
    ensures TranslateAll(batches, replies, at) == TranslateAll(batches[..n], replies, at)
  {
    if n < |batches| {
      assert batches[..|batches| - 1][..n] == batches[..n];
      TranslateAllStops(batches[..|batches| - 1], replies, at, n);
    } else {
      assert batches[..n] == batches;
    }
  }

  /** If the loop ends with an error, it is that of some batch, and nothing is spent after it. */
  lemma {:induction false} TranslateAllFails(batches: seq<seq<Item>>, replies: Replies, at: nat) returns (b: nat)
    requires TranslateAll(batches, replies, at).0.Err?
    ensures b < |batches| && TranslateAll(batches[..b], replies, at).0.Ok?
    ensures TranslateAll(batches, replies, at) ==
            Translate(batches[b], replies, TranslateAll(batches[..b], replies, at).1, 0)
  {
    b := |batches| - 1;
    if TranslateAll(batches[..b], replies, at).0.Err? {
      var init := batches[..b];
      b := TranslateAllFails(init, replies, at);
      assert init[..b] == batches[..b];
    }
  }

  // ---------- What a batch costs ----------

  /** n items cost at most 4n - 2 prompts. */
  lemma {:induction false} TranslateCost(items: seq<Item>, replies: Replies, at: nat, attempt: nat)
    requires items != [] && attempt < TRANSLATE_MAX_ATTEMPTS
    ensures Translate(items, replies, at, attempt).1 - at <= 4 * |items| - 2 - attempt
    decreases |items|, TRANSLATE_MAX_ATTEMPTS - attempt
  {
    var read := ReadReply(items, replies(at));
    if read.Ok? {
    } else if IsPromptTimeoutError(read.error) && |items| > 1 {
      var m := Midpoint(items);
      TranslateCost(items[..m], replies, at + 1, 0);
      var (left, middle) := Translate(items[..m], replies, at + 1, 0);
      TranslateCost(items[m..], replies, middle, 0);
    } else if !IsPromptTimeoutError(read.error) && attempt + 1 < TRANSLATE_MAX_ATTEMPTS {
      TranslateCost(items, replies, at + 1, attempt + 1);
    }
  }

  function FailThenTimeOut(): (replies: seq<Reply>)
    ensures |replies| == 2
  {
    [Throws(""), Throws("timed out")]
  }

  function FailThenAnswer(item: Item): (replies: seq<Reply>)
    ensures |replies| == 2
  {
    [Throws(""), Parsed(map[item.key := Some("x")])]
  }

  /** The most expensive run: every group fails once, then times out, and every single item fails once. */
  function Worst(items: seq<Item>): (w: seq<Reply>)
    requires items != []
    ensures |w| == 4 * |items| - 2
  {
    if |items| == 1 then FailThenAnswer(items[0])
    else
      FailThenTimeOut() + Worst(items[..Midpoint(items)]) + Worst(items[Midpoint(items)..])
  }

  ghost predicate Plays(replies: Replies, at: nat, script: seq<Reply>) {
    forall i :: at <= i < at + |script| ==> replies(i) == script[i - at]
  }

  lemma PlaysParts(replies: Replies, at: nat, a: seq<Reply>, b: seq<Reply>, c: seq<Reply>, middle: nat)
    requires |a| == 2 && middle == at + 2 + |b| && Plays(replies, at, a + b + c)
    ensures Plays(replies, at, a) && Plays(replies, at + 2, b) && Plays(replies, middle, c)
  {
    var script := a + b + c;
    forall i | at <= i < at + 2
      ensures replies(i) == a[i - at]
    {
      assert script[i - at] == a[i - at];
    }
    forall i | at + 2 <= i < middle
      ensures replies(i) == b[i - (at + 2)]
    {
      assert script[i - at] == b[i - (at + 2)];
    }
    forall i | middle <= i < middle + |c|
      ensures replies(i) == c[i - middle]
    {
      assert script[i - at] == c[i - middle];
    }
  }

  lemma {:induction false} WorstPlays(items: seq<Item>, replies: Replies, at: nat, middle: nat)
    requires |items| > 1 && Plays(replies, at, Worst(items)) && middle == at + 4 * Midpoint(items)
    ensures Plays(replies, at, FailThenTimeOut())
    ensures Plays(replies, at + 2, Worst(items[..Midpoint(items)]))
    ensures Plays(replies, middle, Worst(items[Midpoint(items)..]))
  {
    WorstIs(items);
    PlaysParts(replies, at, FailThenTimeOut(), Worst(items[..Midpoint(items)]), Worst(items[Midpoint(items)..]),
               middle);
  }

  lemma {:induction false} WorstIs(items: seq<Item>)
    requires |items| > 1
    ensures Worst(items) == FailThenTimeOut() + Worst(items[..Midpoint(items)]) + Worst(items[Midpoint(items)..])
  {
  }

  /** The batch is translated, and the next prompt after it is number `end`. */
  ghost predicate EndsAt(items: seq<Item>, replies: Replies, at: nat, end: nat) {
    Translate(items, replies, at, 0).0.Ok? && Translate(items, replies, at, 0).1 == end
  }

  /** A group that fails and then times out is split; after two prompts come those of its halves. */
  lemma FailThenTimeout(items: seq<Item>, replies: Replies, at: nat, middle: nat, end: nat)
    requires |items| > 1 && Plays(replies, at, FailThenTimeOut())
    requires EndsAt(items[..Midpoint(items)], replies, at + 2, middle)
    requires EndsAt(items[Midpoint(items)..], replies, middle, end)
    ensures EndsAt(items, replies, at, end)
  {
    assert replies(at) == FailThenTimeOut()[0] && replies(at + 1) == FailThenTimeOut()[1];
    ReadReplyExact(items, replies(at));
    ReadReplyExact(items, replies(at + 1));
    NotATimeout();
    ATimeout();
    assert Translate(items, replies, at, 0) == Translate(items, replies, at + 1, 1);
  }

  lemma {:induction false} WorstOfOne(items: seq<Item>, replies: Replies, at: nat)
    requires |items| == 1 && Plays(replies, at, Worst(items))
    ensures EndsAt(items, replies, at, at + 2)
  {
    assert replies(at) == FailThenAnswer(items[0])[0] && replies(at + 1) == FailThenAnswer(items[0])[1];
    ReadReplyExact(items, replies(at));
    ReadReplyExact(items, replies(at + 1));
    NotATimeout();
    assert Keys(items) == {items[0].key};
    assert !IsBlank("x") by {
      assert !IsSpace("x"[0]);
    }
    assert Translate(items, replies, at, 0) == Translate(items, replies, at + 1, 1);
  }

  lemma {:induction false} WorstEnds(items: seq<Item>, replies: Replies, at: nat, end: nat)
    requires items != [] && Plays(replies, at, Worst(items)) && end == at + 4 * |items| - 2
    ensures EndsAt(items, replies, at, end)
    decreases |items|
  {
    if |items| == 1 {
      WorstOfOne(items, replies, at);
    } else {
      var m := Midpoint(items);
      var middle := at + 4 * m;
      WorstPlays(items, replies, at, middle);
      WorstEnds(items[..m], replies, at + 2, middle);
      WorstEnds(items[m..], replies, middle, end);
      FailThenTimeout(items, replies, at, middle, end);
    }
  }

  /** The bound is reached, for every batch, without the batch failing. */
  lemma {:induction false} TranslateCostReached(items: seq<Item>, replies: Replies, at: nat)
    requires items != []
    requires Plays(replies, at, Worst(items))
    ensures var (result, end) := Translate(items, replies, at, 0);
            result.Ok? && end - at == 4 * |items| - 2
  {
    WorstEnds(items, replies, at, at + 4 * |items| - 2);
  }

  lemma NotATimeout()
    ensures !IsPromptTimeoutError("")
  {
  }

  lemma ATimeout()
    ensures IsPromptTimeoutError("timed out")
  {
    var message := "timed out";
    assert Lower(message) == message;
    assert OccursAt(message, "timed out", 0);
  }
}
