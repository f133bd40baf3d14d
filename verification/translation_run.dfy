/** syncLocale as it runs: its loops over keys, batches and pending items (openclaw/scripts/control-ui-i18n.ts). */
module TranslationRun {
  import opened Prelude
  import opened Sorting
  import opened TranslationTree
  import Objects = TranslationObjects
  import opened TranslationMemory
  import opened TranslationBatches
  import opened TranslationClients
  import opened TranslationLog
  import opened TranslationPlan
  import opened TranslationSync

  datatype Options = Options(checkOnly: bool, force: bool, write: bool)
  datatype Outcome = Outcome(changed: bool, fallbackCount: nat, locale: string, wrote: bool, files: Files)

  // ---------- Placeholders ----------

  predicate IsWordChar(c: char) {
    'a' <= c <= 'z' || 'A' <= c <= 'Z' || '0' <= c <= '9' || c == '_'
  }

  /** `{name}` stands at text[i..j + 1]. */
  predicate PlaceholderAt(text: string, i: int, j: int) {
    0 <= i && i + 1 < j < |text| && text[i] == '{' && text[j] == '}' && forall k :: i < k < j ==> IsWordChar(text[k])
  }

  /** The placeholder names of a text, as extractTranslationPlaceholders collects them. */
  function Placeholders(text: string): set<string> {
    set i, j | 0 <= i < |text| && 0 <= j < |text| && PlaceholderAt(text, i, j) :: text[i + 1..j]
  }

  /** A placeholder is a name in braces, of one or more letters, digits and underscores. */
  lemma PlaceholdersExact(text: string, name: string)
    ensures name in Placeholders(text)
            <==> && name != "" && (exists a, b :: text == a + "{" + name + "}" + b)
                 && forall c :: c in name ==> 'a' <= c <= 'z' || 'A' <= c <= 'Z' || '0' <= c <= '9' || c == '_'
  {
    if name in Placeholders(text) {
      var i, j :| 0 <= i < |text| && 0 <= j < |text| && PlaceholderAt(text, i, j) && name == text[i + 1..j];
      assert text == text[..i] + "{" + name + "}" + text[j + 1..];
    }
    if name != "" && forall c :: c in name ==> IsWordChar(c) {
      forall a, b | text == a + "{" + name + "}" + b
        ensures name in Placeholders(text)
      {
        var i, j := |a|, |a| + 1 + |name|;
        assert text[i + 1..j] == name;
        assert forall k :: i < k < j ==> text[k] == name[k - i - 1];
        assert PlaceholderAt(text, i, j);
      }
    }
  }

  method FindPlaceholderMismatches(source: OrderedMap<string>, translated: map<string, string>)
    returns (mismatches: seq<string>)
    requires source.Valid()
    ensures forall key :: key in mismatches <==>
                            key in source.vals && Placeholders(source.vals[key])
                              != Placeholders(if key in translated then translated[key] else "")
  {
    mismatches := [];
    for i := 0 to |source.keys|
      invariant forall key :: key in mismatches <==>
                                key in source.keys[..i] && Placeholders(source.vals[key])
                                  != Placeholders(if key in translated then translated[key] else "")
    {
      var key := source.keys[i];
      assert key in source.keys;
      assert source.keys[..i + 1] == source.keys[..i] + [key];
      var text := if key in translated then translated[key] else "";
      if Placeholders(source.vals[key]) != Placeholders(text) {
        mismatches := mismatches + [key];
      }
    }
    assert source.keys[..|source.keys|] == source.keys;
  }

  ghost predicate Parity(source: map<string, string>, flat: map<string, string>) {
    flat.Keys == source.Keys && forall key :: key in source ==> Placeholders(source[key]) == Placeholders(flat[key])
  }

  /** assertPlaceholderParity: whether it lets a run go on. */
  method AssertPlaceholderParity(source: OrderedMap<string>, translated: map<string, string>) returns (ok: bool)
    requires source.Valid() && translated.Keys == source.vals.Keys
    ensures ok <==> Parity(source.vals, translated)
  {
    var mismatches := FindPlaceholderMismatches(source, translated);
    ok := |mismatches| == 0;
    if !ok {
      assert mismatches[0] in mismatches;
    }
  }

  // ---------- The scan ----------

  /** The texts decided by the scan over the first n keys. */
  function ScanFlat(inp: Inputs, n: nat): map<string, string>
    requires inp.source.Valid() && n <= |inp.source.keys|
  {
    if n == 0 then map[]
    else
      var key := inp.source.keys[n - 1];
      assert key in inp.source.keys;
      match Choose(inp, key)
      case Pending => ScanFlat(inp, n - 1)
      case _ => ScanFlat(inp, n - 1)[key := FinalText(inp, map[], key)]
  }

  lemma {:induction false} ScanFlatExact(inp: Inputs, n: nat)
    requires inp.source.Valid() && n <= |inp.source.keys|
    ensures forall key :: key in ScanFlat(inp, n) <==> key in inp.source.keys[..n] && !Choose(inp, key).Pending?
    ensures forall key :: key in ScanFlat(inp, n) ==> ScanFlat(inp, n)[key] == FinalText(inp, map[], key)
  {
    forall key: string
      ensures key in ScanFlat(inp, n) <==> key in inp.source.keys[..n] && !Choose(inp, key).Pending?
      ensures key in ScanFlat(inp, n) ==> ScanFlat(inp, n)[key] == FinalText(inp, map[], key)
    {
      ScanFlatAt(inp, n, key);
    }
  }

  lemma {:induction false} ScanFlatAt(inp: Inputs, n: nat, key: string)
    requires inp.source.Valid() && n <= |inp.source.keys|
    ensures key in ScanFlat(inp, n) <==> key in inp.source.keys[..n] && !Choose(inp, key).Pending?
    ensures key in ScanFlat(inp, n) ==> ScanFlat(inp, n)[key] == FinalText(inp, map[], key)
  {
    if n > 0 {
      ScanFlatAt(inp, n - 1, key);
      assert inp.source.keys[n - 1] in inp.source.keys;
      TakenTo(inp.source.keys, n, key);
    }
  }

  /**
   The scan leaves a key open exactly if the memory has no text for it in this locale, and it has no entry and
   is not listed, or fell back and can be translated now. The keys it decides have their final texts.
   */
  lemma {:induction false} ScanDecides(inp: Inputs, given: map<string, string>, key: string)
    requires Valid(inp) && Accepts(inp, given) && key in inp.source.vals
    ensures var hash := inp.env.hash(inp.source.vals[key]);
            key !in ScanFlat(inp, |inp.source.keys|)
            <==> && ((inp.allow && key in inp.previousFallback)
                     || (inp.env.cacheKey(key, hash) !in inp.memory.vals && key !in inp.existing))
                 && !exists c :: c in inp.memory.vals && inp.memory.vals[c].tgtLang == inp.env.locale
                                 && inp.memory.vals[c].textHash == hash && !IsBlank(inp.memory.vals[c].translated)
    ensures key in ScanFlat(inp, |inp.source.keys|) ==>
              ScanFlat(inp, |inp.source.keys|)[key] == NextFlat(inp, given)[key]
  {
    TextIsKnown(inp, key);
    ScanFlatExact(inp, |inp.source.keys|);
    assert inp.source.keys[..|inp.source.keys|] == inp.source.keys && key in inp.source.keys;
  }

  /** During the scan, the memory holds at the next key's cache key what it held before the scan. */
  lemma {:induction false} ScanUndisturbed(inp: Inputs, i: nat)
    requires Valid(inp) && i < |inp.source.keys|
    ensures inp.source.keys[i] in inp.source.vals
    ensures SameAt(ScanMemory(inp, i).vals, inp.memory.vals, KeyOf(inp, inp.source.keys[i]))
  {
    var key := inp.source.keys[i];
    assert key in inp.source.keys && key !in inp.source.keys[..i];
    ScanMemoryExact(inp, i, key);
  }

  /** One step of the scan, once the decision for its key is known. */
  lemma ScanStep(inp: Inputs, i: nat)
    requires inp.source.Valid() && i < |inp.source.keys|
    ensures inp.source.keys[i] in inp.source.vals
    ensures var key := inp.source.keys[i];
            var choice := Choose(inp, key);
            && ScanFlat(inp, i + 1) ==
               (if choice.Pending? then ScanFlat(inp, i) else ScanFlat(inp, i)[key := FinalText(inp, map[], key)])
            && ScanMemory(inp, i + 1) ==
               (if choice.Reused? then ScanMemory(inp, i).Put(KeyOf(inp, key), CopyFor(inp, key, choice.entry))
                else ScanMemory(inp, i))
            && ScanPending(inp, i + 1) ==
               (if choice.Pending? then ScanPending(inp, i) + [ItemFor(inp, key)] else ScanPending(inp, i))
            && ScanFallback(inp, i + 1) ==
               (if (choice.Cached? || choice.Kept?) && key in inp.previousFallback
                then ScanFallback(inp, i) + [key] else ScanFallback(inp, i))
  {
    assert inp.source.keys[i] in inp.source.keys;
  }

  /** Whether the key's text comes from the memory, from another key, from the existing file, or is open. */
  method Decide(inp: Inputs, key: string, tm: OrderedMap<Entry>) returns (choice: Choice)
    requires key in inp.source.vals && SameAt(tm.vals, inp.memory.vals, KeyOf(inp, key))
    ensures choice == Choose(inp, key)
  {
    var textHash := inp.env.hash(inp.source.vals[key]);
    var segmentCacheKey := inp.env.cacheKey(key, textHash);
    var shouldRefreshFallback := key in inp.previousFallback;
    if segmentCacheKey in tm.vals && !(inp.allow && shouldRefreshFallback) {
      return Cached(tm.vals[segmentCacheKey]);
    }
    if textHash in inp.byText && (shouldRefreshFallback || key !in inp.existing) {
      return Reused(inp.byText[textHash]);
    }
    if key in inp.existing && !(inp.allow && shouldRefreshFallback) {
      return Kept(inp.existing[key]);
    }
    return Pending;
  }

  /** What the scan does with the decision for a key. */
  method Record(inp: Inputs, key: string, choice: Choice, flat: map<string, string>, tm: OrderedMap<Entry>,
                pending: seq<Item>, fallbackKeys: seq<string>)
    returns (flat': map<string, string>, tm': OrderedMap<Entry>, pending': seq<Item>, fallbackKeys': seq<string>)
    requires key in inp.source.vals && choice == Choose(inp, key)
    ensures flat' == if choice.Pending? then flat else flat[key := FinalText(inp, map[], key)]
    ensures tm' == if choice.Reused? then tm.Put(KeyOf(inp, key), CopyFor(inp, key, choice.entry)) else tm
    ensures pending' == if choice.Pending? then pending + [ItemFor(inp, key)] else pending
    ensures fallbackKeys' ==
            if (choice.Cached? || choice.Kept?) && key in inp.previousFallback then fallbackKeys + [key]
            else fallbackKeys
  {
    flat', tm', pending', fallbackKeys' := flat, tm, pending, fallbackKeys;
    match choice {
      case Cached(cached) =>
        flat' := flat[key := cached.translated];
        if key in inp.previousFallback {
          fallbackKeys' := fallbackKeys + [key];
        }
      case Reused(cachedByText) =>
        flat' := flat[key := cachedByText.translated];
        tm' := tm.Put(KeyOf(inp, key), CopyFor(inp, key, cachedByText));
      case Kept(existing) =>
        flat' := flat[key := existing];
        if key in inp.previousFallback {
          fallbackKeys' := fallbackKeys + [key];
        }
      case Pending =>
        pending' := pending + [ItemFor(inp, key)];
    }
  }

  /** One pass of the scan. */
  method ScanKey(inp: Inputs, i: nat, flat: map<string, string>, tm: OrderedMap<Entry>,
                 pending: seq<Item>, fallbackKeys: seq<string>)
    returns (flat': map<string, string>, tm': OrderedMap<Entry>, pending': seq<Item>, fallbackKeys': seq<string>)
    requires Valid(inp) && i < |inp.source.keys|
    requires flat == ScanFlat(inp, i) && tm == ScanMemory(inp, i)
    requires pending == ScanPending(inp, i) && fallbackKeys == ScanFallback(inp, i)
    ensures flat' == ScanFlat(inp, i + 1) && tm' == ScanMemory(inp, i + 1)
    ensures pending' == ScanPending(inp, i + 1) && fallbackKeys' == ScanFallback(inp, i + 1)
  {
    ScanUndisturbed(inp, i);
    ScanStep(inp, i);
    var key := inp.source.keys[i];
    var choice := Decide(inp, key, tm);
    flat', tm', pending', fallbackKeys' := Record(inp, key, choice, flat, tm, pending, fallbackKeys);
  }

  method Scan(inp: Inputs)
    returns (nextFlat: map<string, string>, tm: OrderedMap<Entry>, pending: seq<Item>, fallbackKeys: seq<string>)
    requires Valid(inp)
    ensures nextFlat == ScanFlat(inp, |inp.source.keys|) && tm == ScanMemory(inp, |inp.source.keys|)
    ensures pending == PendingItems(inp) && fallbackKeys == ScanFallback(inp, |inp.source.keys|)
  {
    nextFlat, tm, pending, fallbackKeys := map[], inp.memory, [], [];
    for i := 0 to |inp.source.keys|
      invariant nextFlat == ScanFlat(inp, i) && tm == ScanMemory(inp, i)
      invariant pending == ScanPending(inp, i) && fallbackKeys == ScanFallback(inp, i)
    {
      nextFlat, tm, pending, fallbackKeys := ScanKey(inp, i, nextFlat, tm, pending, fallbackKeys);
    }
  }

  // ---------- The translation of the pending items ----------

  lemma {:induction false} StoreGivenAgree(env: Env, tm: OrderedMap<Entry>, items: seq<Item>,
                                           a: map<string, string>, b: map<string, string>, times: string -> string)
    requires Keys(items) <= a.Keys && Keys(items) <= b.Keys && forall k :: k in Keys(items) ==> a[k] == b[k]
    ensures StoreGiven(env, tm, items, a, times) == StoreGiven(env, tm, items, b, times)
  {
    if items != [] {
      KeysLast(items);
      StoreGivenAgree(env, tm, items[..|items| - 1], a, b, times);
    }
  }

  /** After the items `done`, the texts `given` for them have been taken over. */
  ghost predicate Stored(env: Env, flat0: map<string, string>, tm0: OrderedMap<Entry>, done: seq<Item>,
                         given: map<string, string>, times: string -> string,
                         flat: map<string, string>, tm: OrderedMap<Entry>)
  {
    && given.Keys == Keys(done) && (forall k :: k in given ==> !IsBlank(given[k]))
    && flat == flat0 + given
    && tm == StoreGiven(env, tm0, done, given, times)
  }

  lemma UpdateSum(a: map<string, string>, b: map<string, string>, key: string, text: string)
    ensures (a + b)[key := text] == a + b[key := text]
  {
  }

  lemma StoreGivenNext(env: Env, tm: OrderedMap<Entry>, done: seq<Item>, given: map<string, string>,
                       times: string -> string, item: Item, value: string)
    requires given.Keys == Keys(done) && item.key !in Keys(done)
    ensures given[item.key := value].Keys == Keys(done + [item])
    ensures StoreGiven(env, tm, done + [item], given[item.key := value], times) ==
            StoreGiven(env, tm, done, given, times).Put(item.cacheKey, NewEntry(env, item, value, times(item.key)))
  {
    var items, given' := done + [item], given[item.key := value];
    assert items[..|items| - 1] == done;
    KeysLast(items);
    assert forall k :: k in Keys(done) ==> k in given' && given[k] == given'[k];
    StoreGivenAgree(env, tm, done, given, given', times);
  }

  lemma BatchStep(done: seq<Item>, batch: seq<Item>, i: nat)
    requires i < |batch| && Distinct(ItemKeys(done + batch))
    ensures batch[i].key in Keys(batch) && batch[i].key !in Keys(done + batch[..i])
    ensures done + batch[..i] + [batch[i]] == done + batch[..i + 1]
  {
    var all := done + batch;
    assert all[..|done| + i] == done + batch[..i] && all[|done| + i] == batch[i];
    KeyOccursOnce(all, |done| + i);
  }

  lemma KeyOccursOnce(items: seq<Item>, n: nat)
    requires n < |items| && Distinct(ItemKeys(items))
    ensures items[n].key !in Keys(items[..n])
  {
    forall j | 0 <= j < n
      ensures items[..n][j].key != items[n].key
    {
      assert ItemKeys(items)[j] != ItemKeys(items)[n];
    }
  }

  method TakeItem(env: Env, item: Item, value: string, times: string -> string,
                  flat: map<string, string>, tm: OrderedMap<Entry>,
                  ghost flat0: map<string, string>, ghost tm0: OrderedMap<Entry>, ghost done: seq<Item>,
                  ghost given: map<string, string>)
    returns (flat': map<string, string>, tm': OrderedMap<Entry>, ghost given': map<string, string>)
    requires Stored(env, flat0, tm0, done, given, times, flat, tm) && item.key !in Keys(done) && !IsBlank(value)
    ensures given' == given[item.key := value]
    ensures Stored(env, flat0, tm0, done + [item], given', times, flat', tm')
  {
    StoreGivenNext(env, tm0, done, given, times, item, value);
    UpdateSum(flat0, given, item.key, value);
    given' := given[item.key := value];
    flat' := flat[item.key := value];
    tm' := tm.Put(item.cacheKey, NewEntry(env, item, value, times(item.key)));
  }

  /** `merged` is `given` with the texts of the items `taken` put over it. */
  ghost predicate Merged(given: map<string, string>, translated: map<string, string>, taken: seq<Item>,
                         merged: map<string, string>)
  {
    && merged.Keys == given.Keys + Keys(taken) && Keys(taken) <= translated.Keys
    && forall k :: k in merged ==> merged[k] == if k in Keys(taken) then translated[k] else given[k]
  }

  lemma MergedNext(given: map<string, string>, translated: map<string, string>, batch: seq<Item>, i: nat,
                   merged: map<string, string>)
    requires i < |batch| && translated.Keys == Keys(batch) && Merged(given, translated, batch[..i], merged)
    ensures batch[i].key in translated
    ensures Merged(given, translated, batch[..i + 1], merged[batch[i].key := translated[batch[i].key]])
  {
    OneMore(batch, i);
    KeysLast(batch[..i + 1]);
    assert batch[i].key in Keys(batch);
  }

  lemma MergedAll(given: map<string, string>, translated: map<string, string>, batch: seq<Item>,
                  merged: map<string, string>)
    requires translated.Keys == Keys(batch) && Merged(given, translated, batch, merged)
    ensures merged == given + translated
  {
  }

  /** The loop over one batch: takes over each item's text and stores a new memory entry for it. */
  method TakeBatch(env: Env, batch: seq<Item>, translated: map<string, string>, times: string -> string,
                   flat: map<string, string>, tm: OrderedMap<Entry>,
                   ghost flat0: map<string, string>, ghost tm0: OrderedMap<Entry>, ghost done: seq<Item>,
                   ghost given: map<string, string>)
    returns (flat': map<string, string>, tm': OrderedMap<Entry>, ghost given': map<string, string>)
    requires translated.Keys == Keys(batch) && forall k :: k in translated ==> !IsBlank(translated[k])
    requires Stored(env, flat0, tm0, done, given, times, flat, tm) && Distinct(ItemKeys(done + batch))
    ensures given' == given + translated
    ensures Stored(env, flat0, tm0, done + batch, given', times, flat', tm')
  {
    flat', tm', given' := flat, tm, given;
    assert done + batch[..0] == done;
    for i := 0 to |batch|
      invariant Stored(env, flat0, tm0, done + batch[..i], given', times, flat', tm')
      invariant Merged(given, translated, batch[..i], given')
    {
      BatchStep(done, batch, i);
      var item := batch[i];
      var value := translated[item.key];
      assert !IsBlank(value);
      if value == "" {
        assert false;
        continue;
      }
      MergedNext(given, translated, batch, i, given');
      flat', tm', given' := TakeItem(env, item, value, times, flat', tm', flat0, tm0, done + batch[..i], given');
    }
    assert batch[..|batch|] == batch;
    MergedAll(given, translated, batch, given');
  }

  lemma {:induction false} NextBatch(batches: seq<seq<Item>>, b: nat)
    requires b < |batches|
    ensures Concat(batches[..b + 1]) == Concat(batches[..b]) + batches[b] <= Concat(batches)
  {
    OneMore(batches, b);
    TakeAndDrop(batches, b + 1);
    ConcatAppend(batches[..b], batches[b]);
    ConcatJoin(batches[..b + 1], batches[b + 1..]);
  }

  lemma ItemKeysTaken(taken: seq<Item>, items: seq<Item>)
    requires taken <= items && Distinct(ItemKeys(items))
    ensures Distinct(ItemKeys(taken))
  {
    assert ItemKeys(taken) <= ItemKeys(items);
  }

  /** The batches before number b have been translated and taken over. */
  ghost predicate Taken(env: Env, world: World, groups: seq<seq<Item>>, b: nat, log: seq<Tried>,
                        given: map<string, string>, times: string -> string,
                        flat0: map<string, string>, tm0: OrderedMap<Entry>,
                        flat: map<string, string>, tm: OrderedMap<Entry>)
    requires b <= |groups|
  {
    && Stored(env, flat0, tm0, Concat(groups[..b]), given, times, flat, tm)
    && RunBatches(world, groups[..b]) == (Ok(given), log)
  }

  lemma {:induction false} NoneTaken(env: Env, world: World, groups: seq<seq<Item>>, times: string -> string,
                                     flat: map<string, string>, tm: OrderedMap<Entry>)
    ensures Taken(env, world, groups, 0, [], map[], times, flat, tm, flat, tm)
  {
    assert groups[..0] == [] && Concat<Item>([]) == [];
    assert flat + map[] == flat;
  }

  /** A batch that has been translated is taken over. */
  method TakeNext(env: Env, ghost world: World, groups: seq<seq<Item>>, b: nat, translated: map<string, string>,
                  times: string -> string, flat: map<string, string>, tm: OrderedMap<Entry>,
                  ghost flat0: map<string, string>, ghost tm0: OrderedMap<Entry>, ghost given: map<string, string>,
                  ghost before: seq<Tried>)
    returns (flat': map<string, string>, tm': OrderedMap<Entry>, ghost given': map<string, string>)
    requires b < |groups| && Taken(env, world, groups, b, before, given, times, flat0, tm0, flat, tm)
    requires Distinct(ItemKeys(Concat(groups))) && RunBatch(world, groups[b], before, 0).0 == Ok(translated)
    ensures var log := RunBatch(world, groups[b], before, 0).1;
            Taken(env, world, groups, b + 1, log, given', times, flat0, tm0, flat', tm')
  {
    ghost var done := Concat(groups[..b]);
    RunBatchExact(world, groups[b], before);
    RunBatchesNext(world, groups, b);
    NextBatch(groups, b);
    ItemKeysTaken(done + groups[b], Concat(groups));
    flat', tm', given' := TakeBatch(env, groups[b], translated, times, flat, tm, flat0, tm0, done, given);
  }

  /** The loop over the batches, up to the first that throws. */
  method TranslateGroups(env: Env, access: ClientAccess, groups: seq<seq<Item>>, times: string -> string,
                         flat: map<string, string>, tm: OrderedMap<Entry>)
    returns (failure: Option<string>, flat': map<string, string>, tm': OrderedMap<Entry>,
             ghost given: map<string, string>)
    requires access.Valid() && access.client == null && access.log == [] && Distinct(ItemKeys(Concat(groups)))
    modifies access
    ensures access.Valid() && (access.client == null || fresh(access.client))
    ensures (if failure.None? then Ok(given) else Err(failure.value), access.log) == RunBatches(access.world, groups)
    ensures failure.None? ==> Stored(env, flat, tm, Concat(groups), given, times, flat', tm')
  {
    flat', tm', given, failure := flat, tm, map[], None;
    NoneTaken(env, access.world, groups, times, flat, tm);
    for b := 0 to |groups|
      invariant access.Valid() && (access.client == null || fresh(access.client))
      invariant Taken(env, access.world, groups, b, access.log, given, times, flat, tm, flat', tm')
    {
      ghost var before := access.log;
      RunBatchesNext(access.world, groups, b);
      var translated := access.TranslateBatch(groups[b]);
      if translated.Err? {
        RunBatchesStops(access.world, groups, b + 1);
        return Some(translated.error), flat', tm', given;
      }
      flat', tm', given := TakeNext(env, access.world, groups, b, translated.value, times, flat', tm', flat, tm,
                                    given, before);
    }
    assert groups[..|groups|] == groups;
  }

  /**
   The batches of the pending items. Whether a batch throws, the texts taken over, the prompts sent and
   what happens to each client are those that RunBatches says for the greedy batches; at the end every
   client is closed, whether or not a batch threw.
   */
  method TranslatePending(env: Env, pending: seq<Item>, budget: real, world: World, times: string -> string,
                          flat: map<string, string>, tm: OrderedMap<Entry>)
    returns (failure: Option<string>, flat': map<string, string>, tm': OrderedMap<Entry>,
             ghost given: map<string, string>, ghost batches: seq<seq<Item>>, ghost access: ClientAccess)
    requires Distinct(ItemKeys(pending))
    ensures Concat(batches) == pending && Greedy(batches, budget)
    ensures (if failure.None? then Ok(given) else Err(failure.value), access.log) == RunBatches(world, batches)
    ensures failure.None? ==> Stored(env, flat, tm, pending, given, times, flat', tm')
    ensures fresh(access) && access.client == null && access.past == AllClosed(world, access.log)
  {
    var groups := BuildTranslationBatches(pending, budget);
    batches := groups;
    var clientAccess := new ClientAccess(world);
    access := clientAccess;
    failure, flat', tm', given := TranslateGroups(env, clientAccess, groups, times, flat, tm);
    clientAccess.ResetClient();
  }

  // ---------- The fallback for what is left ----------

  /** The English texts of the items. */
  function Texts(items: seq<Item>): map<string, string> {
    if items == [] then map[] else Texts(items[..|items| - 1])[items[|items| - 1].key := items[|items| - 1].text]
  }

  lemma {:induction false} TextsExact(items: seq<Item>)
    ensures Texts(items).Keys == Keys(items)
    ensures Distinct(ItemKeys(items)) ==>
              forall i :: 0 <= i < |items| ==>
                            items[i].key in Texts(items) && Texts(items)[items[i].key] == items[i].text
  {
    if items != [] {
      var init := items[..|items| - 1];
      TextsExact(init);
      KeysLast(items);
      if Distinct(ItemKeys(items)) {
        assert ItemKeys(init) == ItemKeys(items)[..|items| - 1];
        KeyOccursOnce(items, |items| - 1);
        forall i | 0 <= i < |items|
          ensures items[i].key in Texts(items) && Texts(items)[items[i].key] == items[i].text
        {
          if i < |items| - 1 {
            assert items[i] == init[i] && init[i].key in Keys(init);
          }
        }
      }
    }
  }

  /** The pending keys are listed with the given texts, or else with the English ones. */
  lemma OpenTexts(inp: Inputs, given: map<string, string>, key: string)
    requires inp.source.Valid() && Accepts(inp, given) && key in inp.source.vals && Choose(inp, key).Pending?
    ensures var open := if inp.allow then given else Texts(PendingItems(inp));
            key in open && open[key] == FinalText(inp, given, key)
  {
    var items := PendingItems(inp);
    PendingExact(inp);
    TextsExact(items);
    var i :| 0 <= i < |items| && items[i].key == key;
    assert items[i] == ItemFor(inp, key);
  }

  /** The texts for the pending keys: those given, or else the English ones. */
  function Open(inp: Inputs, given: map<string, string>): map<string, string>
    requires inp.source.Valid()
  {
    if inp.allow then given else Texts(PendingItems(inp))
  }

  lemma OpenKeys(inp: Inputs, given: map<string, string>, key: string)
    requires inp.source.Valid() && Accepts(inp, given)
    ensures key in Open(inp, given) <==> key in inp.source.vals && Choose(inp, key).Pending?
  {
    PendingExact(inp);
    TextsExact(PendingItems(inp));
  }

  lemma {:induction false} FinalAt(inp: Inputs, given: map<string, string>, key: string)
    requires inp.source.Valid() && Accepts(inp, given) && key in NextFlat(inp, given)
    ensures var scanned, open := ScanFlat(inp, |inp.source.keys|), Open(inp, given);
            if key in open then open[key] == NextFlat(inp, given)[key]
            else key in scanned && scanned[key] == NextFlat(inp, given)[key]
  {
    OpenKeys(inp, given, key);
    if Choose(inp, key).Pending? {
      OpenTexts(inp, given, key);
    } else {
      ScanFlatAt(inp, |inp.source.keys|, key);
      assert inp.source.keys[..|inp.source.keys|] == inp.source.keys && key in inp.source.keys;
    }
  }

  /** What the scan decided, together with the given texts or else the English ones, is the final list. */
  lemma {:induction false} FinalFlat(inp: Inputs, given: map<string, string>)
    requires inp.source.Valid() && Accepts(inp, given)
    ensures NextFlat(inp, given) ==
            ScanFlat(inp, |inp.source.keys|) + if inp.allow then given else Texts(PendingItems(inp))
  {
    var scanned, open, final := ScanFlat(inp, |inp.source.keys|), Open(inp, given), NextFlat(inp, given);
    forall key | key in final
      ensures if key in open then final[key] == open[key] else key in scanned && final[key] == scanned[key]
    {
      FinalAt(inp, given, key);
    }
    forall key | key in scanned || key in open
      ensures key in final
    {
      OpenKeys(inp, given, key);
      ScanFlatAt(inp, |inp.source.keys|, key);
      assert key in inp.source.keys ==> key in inp.source.vals;
    }
    SumOf(scanned, open, final);
  }

  lemma SumOf(a: map<string, string>, b: map<string, string>, c: map<string, string>)
    requires forall key :: key in c ==> if key in b then c[key] == b[key] else key in a && c[key] == a[key]
    requires forall key :: key in a || key in b ==> key in c
    ensures c == a + b
  {
  }

  /** Without a provider, a key is pending only if it has no existing text; with one, it is translated. */
  lemma {:induction false} PendingIsOpen(inp: Inputs, given: map<string, string>, i: nat)
    requires inp.source.Valid() && Accepts(inp, given) && i < |PendingItems(inp)|
    ensures var key := PendingItems(inp)[i].key;
            if inp.allow then key in given
            else key !in ScanFlat(inp, |inp.source.keys|) && key !in inp.existing
  {
    PendingExact(inp);
    ScanFlatExact(inp, |inp.source.keys|);
    assert PendingItems(inp)[i].key in Keys(PendingItems(inp));
  }

  lemma FillStep(items: seq<Item>, i: nat)
    requires i < |items|
    ensures ItemKeys(items[..i + 1]) == ItemKeys(items[..i]) + [items[i].key]
    ensures Texts(items[..i + 1]) == Texts(items[..i])[items[i].key := items[i].text]
    ensures Texts(items[..i]).Keys == Keys(items[..i])
  {
    assert items[..i + 1][..i] == items[..i];
    TextsExact(items[..i]);
  }

  /** One pass of the last loop: with a provider there is nothing to do, and without one nothing to find. */
  lemma {:induction false} FillNext(inp: Inputs, given: map<string, string>, flat: map<string, string>, i: nat)
    requires inp.source.Valid() && Accepts(inp, given) && i < |PendingItems(inp)|
    requires flat == if inp.allow then ScanFlat(inp, |inp.source.keys|) + given else ScanFlat(inp, |inp.source.keys|)
    ensures var pending := PendingItems(inp);
            var item, filled := pending[i], flat + Texts(pending[..i]);
            && ItemKeys(pending[..i + 1]) == ItemKeys(pending[..i]) + [item.key]
            && if inp.allow then item.key in flat
               else
                 && item.key !in filled && item.key !in inp.existing
                 && filled[item.key := item.text] == flat + Texts(pending[..i + 1])
  {
    var pending := PendingItems(inp);
    PendingExact(inp);
    PendingIsOpen(inp, given, i);
    FillStep(pending, i);
    KeyOccursOnce(pending, i);
    UpdateSum(flat, Texts(pending[..i]), pending[i].key, pending[i].text);
  }

  /**
   The last loop over the pending items. Its middle branch, which keeps an existing text unless the
   run is forced, is never taken, so forcing a run does not change its outcome.
   */
  method FillPending(inp: Inputs, force: bool, flat: map<string, string>, fallbackKeys: seq<string>,
                     pending: seq<Item>, ghost given: map<string, string>)
    returns (flat': map<string, string>, fallbackKeys': seq<string>)
    requires inp.source.Valid() && Accepts(inp, given) && pending == PendingItems(inp)
    requires flat == if inp.allow then ScanFlat(inp, |inp.source.keys|) + given else ScanFlat(inp, |inp.source.keys|)
    requires fallbackKeys == ScanFallback(inp, |inp.source.keys|)
    ensures flat' == NextFlat(inp, given)
    ensures fallbackKeys' == FallbackList(inp)
  {
    flat', fallbackKeys' := flat, fallbackKeys;
    PendingExact(inp);
    for i := 0 to |pending|
      invariant flat' == if inp.allow then flat else flat + Texts(pending[..i])
      invariant fallbackKeys' == if inp.allow then fallbackKeys else fallbackKeys + ItemKeys(pending[..i])
    {
      var item := pending[i];
      FillNext(inp, given, flat, i);
      if item.key in flat' {
        continue;
      }
      if item.key in inp.existing && !force {
        assert false;
        continue;
      }
      flat' := flat'[item.key := item.text];
      fallbackKeys' := fallbackKeys' + [item.key];
    }
    assert pending[..|pending|] == pending;
    FinalFlat(inp, given);
  }

  // ---------- The whole run ----------

  /** What a completed run reports and leaves behind. */
  function Completed(job: Job, options: Options, given: map<string, string>, times: string -> string, now: string)
    : Outcome
    requires ValidJob(job) && Accepts(Gather(job), given)
  {
    var next := Written(job, given, times, now);
    var changed := Differs(job.files, next);
    var writes := changed && !options.checkOnly && options.write;
    Outcome(changed, |NextMeta(job, now).fallbackKeys|, job.env.locale, writes, if writes then next else job.files)
  }

  /** A run reports a change exactly if writing would change the files, and writes only then, if asked to. */
  lemma CompletedExactly(job: Job, options: Options, given: map<string, string>, times: string -> string, now: string)
    requires ValidJob(job) && Accepts(Gather(job), given)
    ensures var outcome, next := Completed(job, options, given, times, now), Written(job, given, times, now);
            && (outcome.changed <==> next != job.files)
            && (outcome.wrote <==> outcome.files != job.files)
            && outcome.files == (if options.write && !options.checkOnly then next else job.files)
            && outcome.locale == job.env.locale && next.meta.Some?
            && outcome.fallbackCount == |next.meta.value.parsed.fallbackKeys|
  {
  }

  /** Comparing the files a run aims for with the files found, and writing them when asked to. */
  method Conclude(job: Job, options: Options, next: Files, fallbackCount: nat) returns (outcome: Outcome)
    ensures outcome.changed == Differs(job.files, next) && outcome.fallbackCount == fallbackCount
    ensures outcome.locale == job.env.locale
    ensures outcome.wrote == (outcome.changed && !options.checkOnly && options.write)
    ensures outcome.files == if outcome.wrote then next else job.files
  {
    var changed := Differs(job.files, next);
    var sameSource := job.files.meta.Some? && job.files.meta.value.parsed.sourceHash == job.sourceHash;
    if !changed || (sameSource && !options.force && !options.checkOnly && !options.write) {
      return Outcome(changed, fallbackCount, job.env.locale, false, job.files);
    }
    var files := job.files;
    if !options.checkOnly && options.write {
      files := next;
    }
    return Outcome(changed, fallbackCount, job.env.locale, !options.checkOnly && options.write && changed, files);
  }

  /** The files a run aims for, from what its loops have computed. */
  method Render(job: Job, nextMap: Kids, fallbackKeys: seq<string>, tm: OrderedMap<Entry>, now: string)
    returns (next: Files, fallbackCount: nat)
    requires ValidJob(job) && tm.Valid()
    ensures var sorted := Sort(job.env.le, Dedupe(fallbackKeys));
            var lines := TranslationMemory.Render(job.env.le, tm);
            && next == Files(
                         Some(Text(nextMap, true)), Some(Text(MetaFor(job, sorted, now), true)),
                         Some(Text(NextGlossary(job), true)),
                         if lines == [] && job.files.memory.None? then None else Some(Text(lines, true)))
            && fallbackCount == |MetaFor(job, sorted, now).fallbackKeys|
  {
    var nextMeta := MetaFor(job, Sort(job.env.le, Dedupe(fallbackKeys)), now);
    var lines := TranslationMemory.Render(job.env.le, tm);
    var memory := if lines == [] && job.files.memory.None? then None else Some(Text(lines, true));
    next := Files(Some(Text(nextMap, true)), Some(Text(nextMeta, true)), Some(Text(NextGlossary(job), true)), memory);
    fallbackCount := |nextMeta.fallbackKeys|;
  }

  /** The texts taken over for the pending items are accepted, and make the next memory. */
  lemma {:induction false} PendingTaken(inp: Inputs, given: map<string, string>, times: string -> string,
                     flat: map<string, string>, tm: OrderedMap<Entry>,
                     flat': map<string, string>, tm': OrderedMap<Entry>)
    requires inp.source.Valid() && inp.allow && tm == ScanMemory(inp, |inp.source.keys|)
    requires Stored(inp.env, flat, tm, PendingItems(inp), given, times, flat', tm')
    ensures Accepts(inp, given) && tm' == NextMemory(inp, given, times) && flat' == flat + given
  {
  }

  /** With nothing pending the empty map of texts is accepted, and the memory is the scanned one. */
  lemma {:induction false} NothingTaken(inp: Inputs, times: string -> string, flat: map<string, string>)
    requires inp.source.Valid() && (inp.allow ==> PendingItems(inp) == [])
    ensures Accepts(inp, map[]) && NextMemory(inp, map[], times) == ScanMemory(inp, |inp.source.keys|)
    ensures flat + map[] == flat
  {
  }

  /** The step between the two loops: with a provider, whatever is pending is translated. */
  method TranslateIfAllowed(inp: Inputs, pending: seq<Item>, budget: real, world: World,
                            times: string -> string, flat: map<string, string>, tm: OrderedMap<Entry>)
    returns (failure: Option<string>, flat': map<string, string>, tm': OrderedMap<Entry>,
             ghost given: map<string, string>, ghost batches: seq<seq<Item>>)
    requires inp.source.Valid() && pending == PendingItems(inp)
    requires flat == ScanFlat(inp, |inp.source.keys|) && tm == ScanMemory(inp, |inp.source.keys|)
    ensures Greedy(batches, budget) && Concat(batches) == if inp.allow then pending else []
    ensures RunBatches(world, batches).0 == if failure.None? then Ok(given) else Err(failure.value)
    ensures failure.None? ==> Accepts(inp, given) && tm' == NextMemory(inp, given, times)
    ensures failure.None? ==> flat' == if inp.allow then flat + given else flat
  {
    failure, flat', tm', given, batches := None, flat, tm, map[], [];
    PendingExact(inp);
    if inp.allow && |pending| > 0 {
      ghost var access;
      failure, flat', tm', given, batches, access :=
        TranslatePending(inp.env, pending, budget, world, times, flat, tm);
      if failure.None? {
        PendingTaken(inp, given, times, flat, tm, flat', tm');
      }
    } else {
      NothingTaken(inp, times, flat);
    }
  }

  lemma AimedFor(job: Job, given: map<string, string>, times: string -> string, now: string)
    requires ValidJob(job) && Accepts(Gather(job), given)
    ensures Valid(Gather(job)) && NextMemory(Gather(job), given, times).Valid()
    ensures var sorted := FallbackKeys(Gather(job));
            var lines := TranslationMemory.Render(job.env.le, NextMemory(Gather(job), given, times));
            Written(job, given, times, now) ==
            Files(Some(Text(Rebuild(job.source.keys, NextFlat(Gather(job), given)), true)),
                  Some(Text(MetaFor(job, sorted, now), true)), Some(Text(NextGlossary(job), true)),
                  if lines == [] && job.files.memory.None? then None else Some(Text(lines, true)))
  {
    GatherValid(job);
    NextMemoryFiled(Gather(job), given, times);
  }

  /** The locale object is built key by key, and the four files are rendered. */
  method Produce(job: Job, nextFlat: map<string, string>, tm: OrderedMap<Entry>, fallbackKeys: seq<string>,
                 times: string -> string, now: string, ghost given: map<string, string>)
    returns (next: Files, fallbackCount: nat)
    requires ValidJob(job) && Valid(Gather(job)) && Accepts(Gather(job), given)
    requires nextFlat == NextFlat(Gather(job), given) && fallbackKeys == FallbackList(Gather(job))
    requires tm == NextMemory(Gather(job), given, times)
    ensures next == Written(job, given, times, now) && fallbackCount == |NextMeta(job, now).fallbackKeys|
  {
    var translations := new Objects.TranslationObjects();
    var nextMap := translations.BuildLocale(job.source.keys, nextFlat);
    NextMemoryFiled(Gather(job), given, times);
    next, fallbackCount := Render(job, Objects.Contents(translations.objects, nextMap), fallbackKeys, tm, now);
    AimedFor(job, given, times, now);
  }

  /** What follows the loops over the pending items: the placeholder check, the files, and the outcome. */
  method Finish(job: Job, options: Options, nextFlat: map<string, string>, tm: OrderedMap<Entry>,
                fallbackKeys: seq<string>, times: string -> string, now: string, ghost given: map<string, string>)
    returns (r: Result<Outcome, string>)
    requires ValidJob(job) && Valid(Gather(job)) && Accepts(Gather(job), given)
    requires nextFlat == NextFlat(Gather(job), given) && fallbackKeys == FallbackList(Gather(job))
    requires tm == NextMemory(Gather(job), given, times)
    ensures r == if Parity(job.source.vals, nextFlat) then Ok(Completed(job, options, given, times, now))
                 else Err("placeholder mismatch")
  {
    var parity := AssertPlaceholderParity(job.source, nextFlat);
    if !parity {
      return Err("placeholder mismatch");
    }
    var next, fallbackCount := Produce(job, nextFlat, tm, fallbackKeys, times, now, given);
    var outcome := Conclude(job, options, next, fallbackCount);
    r := Ok(outcome);
  }

  /**
   The whole run, determined by the files and by what the processes do: it throws exactly if a batch of
   the pending items throws or a placeholder set differs; otherwise its outcome is the completed one for
   the texts that the processes answered.
   */
  method SyncLocale(job: Job, options: Options, budget: real, world: World, times: string -> string, now: string)
    returns (r: Result<Outcome, string>, ghost batches: seq<seq<Item>>)
    requires ValidJob(job)
    ensures Greedy(batches, budget) && Concat(batches) == if job.allow then PendingItems(Gather(job)) else []
    ensures match RunBatches(world, batches).0
            case Err(error) => r == Err(error)
            case Ok(given) =>
              && Accepts(Gather(job), given)
              && r == if Parity(job.source.vals, NextFlat(Gather(job), given))
                      then Ok(Completed(job, options, given, times, now))
                      else Err("placeholder mismatch")
  {
    GatherValid(job);
    var inp := Gather(job);
    var nextFlat, tm, pending, fallbackKeys := Scan(inp);
    var failure;
    ghost var given;
    failure, nextFlat, tm, given, batches := TranslateIfAllowed(inp, pending, budget, world, times, nextFlat, tm);
    if failure.Some? {
      return Err(failure.value), batches;
    }
    nextFlat, fallbackKeys := FillPending(inp, options.force, nextFlat, fallbackKeys, pending, given);
    r := Finish(job, options, nextFlat, tm, fallbackKeys, times, now, given);
  }
}
