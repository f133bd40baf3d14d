/**
 The decision that syncLocale takes for every source key, and what it makes of the translation
 memory, stated key by key (openclaw/scripts/control-ui-i18n.ts).
 */
module TranslationPlan {
  import opened Prelude
  import opened Sorting
  import opened TranslationMemory
  import opened TranslationBatches

  // What a run decides from: its environment, whether a translation provider is configured, the
  // flattened source and locale, the keys that fell back last time, and the memory with its index.
  datatype Inputs = Inputs(
    env: Env, allow: bool, source: OrderedMap<string>, existing: map<string, string>,
    previousFallback: set<string>, memory: OrderedMap<Entry>, byText: map<string, Entry>)

  ghost predicate Valid(inp: Inputs) {
    && ValidEnv(inp.env) && inp.source.Valid() && Filed(inp.memory)
    && inp.byText == ByText(inp.memory, inp.env.locale)
  }

  // ---------- The decision for one key ----------

  datatype Choice = Cached(entry: Entry) | Reused(entry: Entry) | Kept(text: string) | Pending

  function HashOf(inp: Inputs, key: string): string
    requires key in inp.source.vals
  {
    inp.env.hash(inp.source.vals[key])
  }

  function KeyOf(inp: Inputs, key: string): string
    requires key in inp.source.vals
  {
    inp.env.cacheKey(key, HashOf(inp, key))
  }

  function Choose(inp: Inputs, key: string): Choice
    requires key in inp.source.vals
  {
    var refresh := key in inp.previousFallback;
    if KeyOf(inp, key) in inp.memory.vals && !(inp.allow && refresh) then
      Cached(inp.memory.vals[KeyOf(inp, key)])
    else if HashOf(inp, key) in inp.byText && (refresh || key !in inp.existing) then
      Reused(inp.byText[HashOf(inp, key)])
    else if key in inp.existing && !(inp.allow && refresh) then
      Kept(inp.existing[key])
    else
      Pending
  }

  function CopyFor(inp: Inputs, key: string, e: Entry): Entry
    requires key in inp.source.vals
  {
    e.(cacheKey := KeyOf(inp, key), segmentId := key, sourcePath := inp.env.sourcePath)
  }

  function ItemFor(inp: Inputs, key: string): Item
    requires key in inp.source.vals
  {
    Item(KeyOf(inp, key), key, inp.source.vals[key], HashOf(inp, key))
  }

  function NewEntry(env: Env, item: Item, text: string, at: string): Entry {
    Entry(item.cacheKey, env.model, env.provider, item.key, env.sourcePath, "en", item.text, item.textHash,
          env.locale, text, at)
  }

  // ---------- The scan over the first n keys ----------

  function ScanMemory(inp: Inputs, n: nat): OrderedMap<Entry>
    requires inp.source.Valid() && n <= |inp.source.keys|
  {
    if n == 0 then inp.memory
    else
      var key := inp.source.keys[n - 1];
      assert key in inp.source.keys;
      match Choose(inp, key)
      case Reused(e) => ScanMemory(inp, n - 1).Put(KeyOf(inp, key), CopyFor(inp, key, e))
      case _ => ScanMemory(inp, n - 1)
  }

  function ScanPending(inp: Inputs, n: nat): seq<Item>
    requires inp.source.Valid() && n <= |inp.source.keys|
  {
    if n == 0 then []
    else
      var key := inp.source.keys[n - 1];
      assert key in inp.source.keys;
      if Choose(inp, key).Pending? then ScanPending(inp, n - 1) + [ItemFor(inp, key)] else ScanPending(inp, n - 1)
  }

  function ScanFallback(inp: Inputs, n: nat): seq<string>
    requires inp.source.Valid() && n <= |inp.source.keys|
  {
    if n == 0 then []
    else
      var key := inp.source.keys[n - 1];
      assert key in inp.source.keys;
      var choice := Choose(inp, key);
      if (choice.Cached? || choice.Kept?) && key in inp.previousFallback
      then ScanFallback(inp, n - 1) + [key] else ScanFallback(inp, n - 1)
  }

  function PendingItems(inp: Inputs): seq<Item>
    requires inp.source.Valid()
  {
    ScanPending(inp, |inp.source.keys|)
  }

  /** Storing the given texts of the items, in order. */
  function StoreGiven(env: Env, tm: OrderedMap<Entry>, items: seq<Item>, given: map<string, string>,
                      times: string -> string): OrderedMap<Entry>
    requires Keys(items) <= given.Keys
  {
    if items == [] then tm
    else
      var init, item := items[..|items| - 1], items[|items| - 1];
      KeysLast(items);
      StoreGiven(env, tm, init, given, times).Put(
        item.cacheKey, NewEntry(env, item, given[item.key], times(item.key)))
  }

  lemma KeysLast(items: seq<Item>)
    requires items != []
    ensures Keys(items) == Keys(items[..|items| - 1]) + {items[|items| - 1].key}
  {
    assert items == items[..|items| - 1] + [items[|items| - 1]];
  }

  // ---------- The result ----------

  /** The texts a provider returned for the pending keys: exactly those keys, none of them blank. */
  ghost predicate Accepts(inp: Inputs, given: map<string, string>)
    requires inp.source.Valid()
  {
    inp.allow ==> given.Keys == Keys(PendingItems(inp)) && forall k :: k in given ==> !IsBlank(given[k])
  }

  function FinalText(inp: Inputs, given: map<string, string>, key: string): string
    requires key in inp.source.vals
    requires inp.allow && Choose(inp, key).Pending? ==> key in given
  {
    match Choose(inp, key)
    case Cached(e) => e.translated
    case Reused(e) => e.translated
    case Kept(text) => text
    case Pending => if inp.allow then given[key] else inp.source.vals[key]
  }

  predicate IsFallback(inp: Inputs, key: string)
    requires key in inp.source.vals
  {
    match Choose(inp, key)
    case Cached(_) => key in inp.previousFallback
    case Reused(_) => false
    case Kept(_) => key in inp.previousFallback
    case Pending => !inp.allow
  }

  function NextFlat(inp: Inputs, given: map<string, string>): map<string, string>
    requires inp.source.Valid() && Accepts(inp, given)
  {
    PendingExact(inp);
    map key | key in inp.source.vals :: FinalText(inp, given, key)
  }

  function ItemKeys(items: seq<Item>): (keys: seq<string>)
    ensures |keys| == |items|
  {
    seq(|items|, i requires 0 <= i < |items| => items[i].key)
  }

  /** The keys reported as untranslated, in the order in which they are collected. */
  function FallbackList(inp: Inputs): seq<string>
    requires inp.source.Valid()
  {
    ScanFallback(inp, |inp.source.keys|) + if inp.allow then [] else ItemKeys(PendingItems(inp))
  }

  function NextMemory(inp: Inputs, given: map<string, string>, times: string -> string): OrderedMap<Entry>
    requires inp.source.Valid() && Accepts(inp, given)
  {
    var scanned := ScanMemory(inp, |inp.source.keys|);
    if inp.allow then StoreGiven(inp.env, scanned, PendingItems(inp), given, times) else scanned
  }

  // ---------- Exactness of the scan ----------

  ghost predicate ItemsOf(inp: Inputs, items: seq<Item>) {
    forall i :: 0 <= i < |items| ==> items[i].key in inp.source.vals && items[i] == ItemFor(inp, items[i].key)
  }

  lemma {:induction false} ScanPendingExact(inp: Inputs, n: nat)
    requires inp.source.Valid() && n <= |inp.source.keys|
    ensures forall key :: key in Keys(ScanPending(inp, n)) <==> key in inp.source.keys[..n] && Choose(inp, key).Pending?
    ensures ItemsOf(inp, ScanPending(inp, n))
    ensures Distinct(ItemKeys(ScanPending(inp, n)))
  {
    if n > 0 {
      ScanPendingExact(inp, n - 1);
      var key := inp.source.keys[n - 1];
      assert key in inp.source.keys;
      var before := ScanPending(inp, n - 1);
      assert inp.source.keys[..n] == inp.source.keys[..n - 1] + [key];
      assert key !in inp.source.keys[..n - 1];
      if Choose(inp, key).Pending? {
        var items := before + [ItemFor(inp, key)];
        assert items[..|items| - 1] == before;
        KeysLast(items);
        assert ItemKeys(items) == ItemKeys(before) + [key];
        forall i | 0 <= i < |before|
          ensures ItemKeys(before)[i] != key
        {
          assert before[i].key in Keys(before);
        }
      }
    }
  }

  /** The pending items are those of the undecided keys, each once. */
  lemma PendingExact(inp: Inputs)
    requires inp.source.Valid()
    ensures forall key :: key in Keys(PendingItems(inp)) <==> key in inp.source.vals && Choose(inp, key).Pending?
    ensures ItemsOf(inp, PendingItems(inp))
    ensures Distinct(ItemKeys(PendingItems(inp)))
  {
    ScanPendingExact(inp, |inp.source.keys|);
    assert inp.source.keys[..|inp.source.keys|] == inp.source.keys;
    assert forall key :: key in inp.source.keys <==> key in inp.source.vals;
  }

  lemma {:induction false} ScanFallbackExact(inp: Inputs, n: nat)
    requires inp.source.Valid() && n <= |inp.source.keys|
    ensures Distinct(ScanFallback(inp, n))
    ensures forall key :: key in ScanFallback(inp, n) <==>
                            key in inp.source.keys[..n] && !Choose(inp, key).Pending? && IsFallback(inp, key)
    ensures inp.allow ==> ScanFallback(inp, n) == []
  {
    if n > 0 {
      ScanFallbackExact(inp, n - 1);
      var key := inp.source.keys[n - 1];
      assert key in inp.source.keys;
      assert inp.source.keys[..n] == inp.source.keys[..n - 1] + [key];
      assert key !in inp.source.keys[..n - 1];
    }
  }

  lemma ItemKeysExact(items: seq<Item>, key: string)
    ensures key in ItemKeys(items) <==> key in Keys(items)
  {
    if key in Keys(items) {
      var i :| 0 <= i < |items| && items[i].key == key;
      assert ItemKeys(items)[i] == key;
    }
  }

  /** The reported keys are exactly the keys left untranslated, each once, and none when a provider translated. */
  lemma FallbackExact(inp: Inputs)
    requires inp.source.Valid()
    ensures Distinct(FallbackList(inp))
    ensures forall key :: key in FallbackList(inp) <==> key in inp.source.vals && IsFallback(inp, key)
    ensures inp.allow ==> FallbackList(inp) == []
  {
    var n := |inp.source.keys|;
    ScanFallbackExact(inp, n);
    PendingExact(inp);
    assert inp.source.keys[..n] == inp.source.keys;
    var scanned, items := ScanFallback(inp, n), PendingItems(inp);
    forall key
      ensures key in ItemKeys(items) <==> key in Keys(items)
      ensures key in inp.source.keys <==> key in inp.source.vals
    {
      ItemKeysExact(items, key);
    }
    if !inp.allow {
      forall i, j | 0 <= i < |scanned| && 0 <= j < |ItemKeys(items)|
        ensures scanned[i] != ItemKeys(items)[j]
      {
        assert scanned[i] in scanned && ItemKeys(items)[j] in ItemKeys(items);
      }
    }
  }

  // ---------- The memory after a run ----------

  ghost predicate SameAt(a: map<string, Entry>, b: map<string, Entry>, c: string) {
    (c in a <==> c in b) && (c in a ==> a[c] == b[c])
  }

  lemma ReusedEligible(inp: Inputs, key: string)
    requires Valid(inp) && key in inp.source.vals && Choose(inp, key).Reused?
    ensures var e := Choose(inp, key).entry;
            Eligible(e, inp.env.locale) && e.textHash == HashOf(inp, key) && Loadable(CopyFor(inp, key, e))
  {
    ByTextExact(inp.memory, inp.env.locale, HashOf(inp, key));
  }

  lemma {:induction false} ScanMemoryFiled(inp: Inputs, n: nat)
    requires Valid(inp) && n <= |inp.source.keys|
    ensures Filed(ScanMemory(inp, n))
  {
    if n > 0 {
      ScanMemoryFiled(inp, n - 1);
      var last := inp.source.keys[n - 1];
      assert last in inp.source.keys;
      if Choose(inp, last).Reused? {
        ReusedEligible(inp, last);
        ScanMemory(inp, n - 1).PutValid(KeyOf(inp, last), CopyFor(inp, last, Choose(inp, last).entry));
      }
    }
  }

  /** The scan stores copies under the cache keys of reused texts and touches no other key's entry. */
  lemma {:induction false} ScanMemoryExact(inp: Inputs, n: nat, key: string)
    requires Valid(inp) && n <= |inp.source.keys| && key in inp.source.vals
    ensures var vals := ScanMemory(inp, n).vals;
            if key in inp.source.keys[..n] && Choose(inp, key).Reused?
            then KeyOf(inp, key) in vals && vals[KeyOf(inp, key)] == CopyFor(inp, key, Choose(inp, key).entry)
            else SameAt(vals, inp.memory.vals, KeyOf(inp, key))
  {
    if n > 0 {
      var last := inp.source.keys[n - 1];
      assert last in inp.source.keys;
      ScanMemoryExact(inp, n - 1, key);
      TakenTo(inp.source.keys, n, key);
      if last == key {
        assert key !in inp.source.keys[..n - 1];
      } else {
        ScanOther(inp, n, key);
      }
    }
  }

  /** A step of the scan leaves the cache keys of the other keys alone. */
  lemma {:induction false} ScanOther(inp: Inputs, n: nat, key: string)
    requires Valid(inp) && 0 < n <= |inp.source.keys| && key in inp.source.vals && inp.source.keys[n - 1] != key
    ensures SameAt(ScanMemory(inp, n).vals, ScanMemory(inp, n - 1).vals, KeyOf(inp, key))
  {
    var last := inp.source.keys[n - 1];
    assert last in inp.source.keys;
    assert KeyOf(inp, last) != KeyOf(inp, key);
  }

  /** Which of some distinct keys the first n are. */
  lemma TakenTo(keys: seq<string>, n: nat, key: string)
    requires Distinct(keys) && 0 < n <= |keys|
    ensures key in keys[..n] <==> key in keys[..n - 1] || key == keys[n - 1]
    ensures keys[n - 1] !in keys[..n - 1]
  {
    assert keys[..n] == keys[..n - 1] + [keys[n - 1]];
  }

  /** The scan makes no text hash known that was not known before. */
  lemma {:induction false} ScanKnows(inp: Inputs, n: nat, textHash: string)
    requires Valid(inp) && n <= |inp.source.keys|
    requires Known(ScanMemory(inp, n).vals, inp.env.locale, textHash)
    ensures Known(inp.memory.vals, inp.env.locale, textHash)
  {
    if n > 0 {
      var vals := ScanMemory(inp, n).vals;
      var last := inp.source.keys[n - 1];
      assert last in inp.source.keys;
      var c :| c in vals && Eligible(vals[c], inp.env.locale) && vals[c].textHash == textHash;
      if Choose(inp, last).Reused? && c == KeyOf(inp, last) {
        ReusedEligible(inp, last);
        ByTextExact(inp.memory, inp.env.locale, textHash);
      } else {
        assert c in ScanMemory(inp, n - 1).vals;
        ScanKnows(inp, n - 1, textHash);
      }
    }
  }

  lemma {:induction false} StoreGivenFiled(
    env: Env, tm: OrderedMap<Entry>, items: seq<Item>, given: map<string, string>, times: string -> string)
    requires Filed(tm) && Keys(items) <= given.Keys && forall k :: k in given ==> !IsBlank(given[k])
    requires forall i :: 0 <= i < |items| ==> items[i].cacheKey != ""
    ensures Filed(StoreGiven(env, tm, items, given, times))
  {
    if items != [] {
      var init, item := items[..|items| - 1], items[|items| - 1];
      KeysLast(items);
      StoreGivenFiled(env, tm, init, given, times);
      StoreGiven(env, tm, init, given, times).PutValid(
        item.cacheKey, NewEntry(env, item, given[item.key], times(item.key)));
    }
  }

  lemma {:induction false} StoreGivenExact(
    inp: Inputs, tm: OrderedMap<Entry>, items: seq<Item>, given: map<string, string>, times: string -> string,
    key: string)
    requires Valid(inp) && key in inp.source.vals && Keys(items) <= given.Keys && ItemsOf(inp, items)
    ensures var vals := StoreGiven(inp.env, tm, items, given, times).vals;
            if key in Keys(items)
            then KeyOf(inp, key) in vals
              && vals[KeyOf(inp, key)] == NewEntry(inp.env, ItemFor(inp, key), given[key], times(key))
            else SameAt(vals, tm.vals, KeyOf(inp, key))
  {
    if items != [] {
      var init, item := items[..|items| - 1], items[|items| - 1];
      KeysLast(items);
      StoreGivenExact(inp, tm, init, given, times, key);
      if item.cacheKey == KeyOf(inp, key) {
        assert item.key == key;
      }
    }
  }

  /** After a run, the entry filed for a key holds the key's final text; a kept key and a fallback text have none. */
  lemma NextMemoryExact(inp: Inputs, given: map<string, string>, times: string -> string, key: string)
    requires Valid(inp) && Accepts(inp, given) && key in inp.source.vals
    ensures var vals := NextMemory(inp, given, times).vals;
            match Choose(inp, key)
            case Cached(e) => KeyOf(inp, key) in vals && vals[KeyOf(inp, key)] == e
            case Reused(e) => KeyOf(inp, key) in vals && vals[KeyOf(inp, key)] == CopyFor(inp, key, e)
            case Kept(_) => KeyOf(inp, key) !in vals
            case Pending =>
              if inp.allow
              then key in given && KeyOf(inp, key) in vals
                && vals[KeyOf(inp, key)] == NewEntry(inp.env, ItemFor(inp, key), given[key], times(key))
              else KeyOf(inp, key) !in vals
  {
    var n := |inp.source.keys|;
    assert inp.source.keys[..n] == inp.source.keys && key in inp.source.keys;
    ScanMemoryExact(inp, n, key);
    PendingExact(inp);
    if inp.allow {
      StoreGivenExact(inp, ScanMemory(inp, n), PendingItems(inp), given, times, key);
    }
  }

  lemma NextMemoryFiled(inp: Inputs, given: map<string, string>, times: string -> string)
    requires Valid(inp) && Accepts(inp, given)
    ensures Filed(NextMemory(inp, given, times))
  {
    ScanMemoryFiled(inp, |inp.source.keys|);
    PendingExact(inp);
    if inp.allow {
      StoreGivenFiled(inp.env, ScanMemory(inp, |inp.source.keys|), PendingItems(inp), given, times);
    }
  }

  /** Without a provider, no text hash becomes known. */
  lemma NoTextBecomesKnown(inp: Inputs, given: map<string, string>, times: string -> string, textHash: string)
    requires Valid(inp) && Accepts(inp, given) && !inp.allow
    requires Known(NextMemory(inp, given, times).vals, inp.env.locale, textHash)
    ensures Known(inp.memory.vals, inp.env.locale, textHash)
  {
    ScanKnows(inp, |inp.source.keys|, textHash);
  }

  /** So a key that fell back, and has no entry of its own, has no text to reuse afterwards. */
  lemma FallbackStaysUnknown(inp: Inputs, given: map<string, string>, times: string -> string, key: string)
    requires Valid(inp) && Accepts(inp, given) && !inp.allow && key in inp.source.vals
    requires IsFallback(inp, key) && !Choose(inp, key).Cached?
    ensures !Known(NextMemory(inp, given, times).vals, inp.env.locale, HashOf(inp, key))
  {
    ByTextExact(inp.memory, inp.env.locale, HashOf(inp, key));
    if Known(NextMemory(inp, given, times).vals, inp.env.locale, HashOf(inp, key)) {
      NoTextBecomesKnown(inp, given, times, HashOf(inp, key));
    }
  }

  // ---------- A run, in terms of the files it found ----------

  lemma TextIsKnown(inp: Inputs, key: string)
    requires Valid(inp) && key in inp.source.vals
    ensures HashOf(inp, key) in inp.byText
            <==> exists c :: c in inp.memory.vals && inp.memory.vals[c].tgtLang == inp.env.locale
                             && inp.memory.vals[c].textHash == inp.env.hash(inp.source.vals[key])
                             && !IsBlank(inp.memory.vals[c].translated)
  {
    ByTextExact(inp.memory, inp.env.locale, HashOf(inp, key));
    assert forall c :: c in inp.memory.vals && inp.memory.vals[c].textHash == inp.env.hash(inp.source.vals[key]) ==>
                         inp.memory.vals[c].textHash != "";
  }

  /** The item of the key at each position that is left open. */
  function OpenItems(inp: Inputs): (items: seq<Option<Item>>)
    requires inp.source.Valid()
    ensures |items| == |inp.source.keys|
    ensures forall i :: 0 <= i < |items| ==> inp.source.keys[i] in inp.source.vals && items[i] == OpenItem(inp, i)
  {
    assert forall i :: 0 <= i < |inp.source.keys| ==> inp.source.keys[i] in inp.source.keys;
    seq(|inp.source.keys|, i requires 0 <= i < |inp.source.keys| => OpenItem(inp, i))
  }

  function OpenItem(inp: Inputs, i: nat): Option<Item>
    requires i < |inp.source.keys| && inp.source.keys[i] in inp.source.vals
  {
    var key := inp.source.keys[i];
    if Choose(inp, key).Pending? then Some(ItemFor(inp, key)) else None
  }

  lemma {:induction false} ScanPendingSomes(inp: Inputs, n: nat)
    requires inp.source.Valid() && n <= |inp.source.keys|
    ensures ScanPending(inp, n) == Somes(OpenItems(inp)[..n])
  {
    if n > 0 {
      ScanPendingSomes(inp, n - 1);
      OneMore(OpenItems(inp), n - 1);
    }
  }

  lemma {:induction false} OpenAt(inp: Inputs) returns (at: seq<nat>)
    requires inp.source.Valid()
    ensures |at| == |PendingItems(inp)| && (forall i, j :: 0 <= i < j < |at| ==> at[i] < at[j])
    ensures forall i :: 0 <= i < |inp.source.keys| ==> inp.source.keys[i] in inp.source.vals
    ensures forall i :: 0 <= i < |at| ==>
                          at[i] < |inp.source.keys| && OpenItem(inp, at[i]) == Some(PendingItems(inp)[i])
    ensures forall k :: 0 <= k < |inp.source.keys| ==> (k in at <==> OpenItem(inp, k).Some?)
  {
    var items, n := OpenItems(inp), |inp.source.keys|;
    assert items[..n] == items;
    ScanPendingSomes(inp, n);
    at := SomesAt(items, n);
  }

  /** When the key at a position is left open, and with what item. */
  lemma OpenExactly(inp: Inputs, i: nat)
    requires Valid(inp) && i < |inp.source.keys| && inp.source.keys[i] in inp.source.vals
    ensures var key := inp.source.keys[i];
            var hash := inp.env.hash(inp.source.vals[key]);
            OpenItem(inp, i) ==
            if && ((inp.allow && key in inp.previousFallback)
                   || (inp.env.cacheKey(key, hash) !in inp.memory.vals && key !in inp.existing))
               && !exists c :: c in inp.memory.vals && inp.memory.vals[c].tgtLang == inp.env.locale
                               && inp.memory.vals[c].textHash == hash && !IsBlank(inp.memory.vals[c].translated)
            then Some(Item(inp.env.cacheKey(key, hash), key, inp.source.vals[key], hash)) else None
  {
    TextIsKnown(inp, inp.source.keys[i]);
  }

  /**
   The pending items stand in the order of the source. They are those of the keys for whose text the memory
   has nothing in this locale, and which either have no entry and are not listed, or fell back last time
   and can be translated now.
   */
  lemma PendingInOrder(inp: Inputs) returns (at: seq<nat>)
    requires Valid(inp)
    ensures |at| == |PendingItems(inp)| && (forall i, j :: 0 <= i < j < |at| ==> at[i] < at[j])
    ensures forall i :: 0 <= i < |at| ==> at[i] < |inp.source.keys|
    ensures forall i :: 0 <= i < |at| ==>
                          var key := inp.source.keys[at[i]];
                          key in inp.source.vals
                          && var text := inp.source.vals[key];
                             var hash := inp.env.hash(text);
                             PendingItems(inp)[i] == Item(inp.env.cacheKey(key, hash), key, text, hash)
    ensures forall k :: 0 <= k < |inp.source.keys| ==>
                          var key := inp.source.keys[k];
                          key in inp.source.vals
                          && var hash := inp.env.hash(inp.source.vals[key]);
                             (k in at
                             <==> && ((inp.allow && key in inp.previousFallback)
                                      || (inp.env.cacheKey(key, hash) !in inp.memory.vals && key !in inp.existing))
                                  && !exists c :: c in inp.memory.vals && inp.memory.vals[c].tgtLang == inp.env.locale
                                                  && inp.memory.vals[c].textHash == hash
                                                  && !IsBlank(inp.memory.vals[c].translated))
  {
    at := OpenAt(inp);
    forall i | 0 <= i < |inp.source.keys| {
      OpenExactly(inp, i);
    }
  }

  /**
   A key with an entry of its own keeps text and entry, unless it is fetched anew. A key that is listed and
   did not fall back keeps the listed text, and a key that fell back does so if its text is unknown and there
   is no provider. What is left gets the given text and an entry for it, or else the English text.
   */
  lemma DecidedTexts(inp: Inputs, given: map<string, string>, times: string -> string, key: string)
    requires Valid(inp) && Accepts(inp, given) && key in inp.source.vals
    ensures var hash := inp.env.hash(inp.source.vals[key]);
            var own, text := inp.env.cacheKey(key, hash), NextFlat(inp, given)[key];
            var fellBack, vals := key in inp.previousFallback, NextMemory(inp, given, times).vals;
            if own in inp.memory.vals && !(inp.allow && fellBack) then
              text == inp.memory.vals[own].translated && own in vals && vals[own] == inp.memory.vals[own]
            else if key in inp.existing && !fellBack then
              text == inp.existing[key] && own !in vals
            else
              (!exists c :: c in inp.memory.vals && inp.memory.vals[c].tgtLang == inp.env.locale
                            && inp.memory.vals[c].textHash == hash && !IsBlank(inp.memory.vals[c].translated))
              ==> if inp.allow then
                    && key in given && text == given[key] && own in vals
                    && vals[own] == Entry(own, inp.env.model, inp.env.provider, key, inp.env.sourcePath, "en",
                                          inp.source.vals[key], hash, inp.env.locale, given[key], times(key))
                  else
                    text == (if key in inp.existing then inp.existing[key] else inp.source.vals[key]) && own !in vals
  {
    TextIsKnown(inp, key);
    NextMemoryExact(inp, given, times, key);
  }

  /**
   Otherwise, a known text is reused, with or without a provider: it is that of the last entry of the locale
   for this text, and a copy of the entry is filed for the key.
   */
  lemma ReusedTexts(inp: Inputs, given: map<string, string>, times: string -> string, key: string) returns (i: nat)
    requires Valid(inp) && Accepts(inp, given) && key in inp.source.vals
    requires var own := inp.env.cacheKey(key, inp.env.hash(inp.source.vals[key]));
             own !in inp.memory.vals || (inp.allow && key in inp.previousFallback)
    requires key !in inp.existing || key in inp.previousFallback
    requires exists c :: c in inp.memory.vals && inp.memory.vals[c].tgtLang == inp.env.locale
                         && inp.memory.vals[c].textHash == inp.env.hash(inp.source.vals[key])
                         && !IsBlank(inp.memory.vals[c].translated)
    ensures i < |inp.memory.keys| && inp.memory.keys[i] in inp.memory.vals
    ensures var hash := inp.env.hash(inp.source.vals[key]);
            var own, e := inp.env.cacheKey(key, hash), inp.memory.vals[inp.memory.keys[i]];
            var vals := NextMemory(inp, given, times).vals;
            && e.tgtLang == inp.env.locale && e.textHash == hash && NextFlat(inp, given)[key] == e.translated
            && own in vals
            && vals[own] == Entry(own, e.model, e.provider, key, inp.env.sourcePath, e.srcLang, e.text, hash,
                                  inp.env.locale, e.translated, e.updatedAt)
    ensures forall j :: i < j < |inp.memory.keys| ==>
                          var e := inp.memory.vals[inp.memory.keys[j]];
                          || e.tgtLang != inp.env.locale || e.textHash != inp.env.hash(inp.source.vals[key])
                          || IsBlank(e.translated)
  {
    TextIsKnown(inp, key);
    i := IndexByTextLast(inp.memory, inp.env.locale, |inp.memory.keys|, HashOf(inp, key));
    NextMemoryExact(inp, given, times, key);
  }

  /**
   Without a provider a key is reported again if it was reported before and still has no other text than
   its own entry's or the listed one; a new key is reported if nothing is known for it.
   */
  lemma ReportedKeys(inp: Inputs, key: string)
    requires Valid(inp) && key in inp.source.vals
    ensures var hash := inp.env.hash(inp.source.vals[key]);
            key in FallbackList(inp)
            <==> && !inp.allow
                 && if inp.env.cacheKey(key, hash) in inp.memory.vals then key in inp.previousFallback
                    else
                      && (key in inp.existing ==> key in inp.previousFallback)
                      && !exists c :: c in inp.memory.vals && inp.memory.vals[c].tgtLang == inp.env.locale
                                      && inp.memory.vals[c].textHash == hash
                                      && !IsBlank(inp.memory.vals[c].translated)
  {
    TextIsKnown(inp, key);
    FallbackExact(inp);
  }

  /** Entries filed under other cache keys than those of the source's texts stay as they are. */
  lemma {:induction false} ScanKeepsOthers(inp: Inputs, n: nat, c: string)
    requires inp.source.Valid() && n <= |inp.source.keys|
    requires forall key :: key in inp.source.vals ==> KeyOf(inp, key) != c
    ensures SameAt(ScanMemory(inp, n).vals, inp.memory.vals, c)
  {
    if n > 0 {
      ScanKeepsOthers(inp, n - 1, c);
      assert inp.source.keys[n - 1] in inp.source.keys;
    }
  }

  lemma {:induction false} StoreKeepsOthers(
    env: Env, tm: OrderedMap<Entry>, items: seq<Item>, given: map<string, string>, times: string -> string, c: string)
    requires Keys(items) <= given.Keys && forall i :: 0 <= i < |items| ==> items[i].cacheKey != c
    ensures SameAt(StoreGiven(env, tm, items, given, times).vals, tm.vals, c)
  {
    if items != [] {
      KeysLast(items);
      StoreKeepsOthers(env, tm, items[..|items| - 1], given, times, c);
    }
  }

  lemma OtherEntriesStay(inp: Inputs, given: map<string, string>, times: string -> string, c: string)
    requires Valid(inp) && Accepts(inp, given)
    requires forall key :: key in inp.source.vals ==> inp.env.cacheKey(key, inp.env.hash(inp.source.vals[key])) != c
    ensures var vals := NextMemory(inp, given, times).vals;
            (c in vals <==> c in inp.memory.vals) && (c in vals ==> vals[c] == inp.memory.vals[c])
  {
    assert forall key :: key in inp.source.vals ==> KeyOf(inp, key) != c;
    ScanKeepsOthers(inp, |inp.source.keys|, c);
    PendingExact(inp);
    if inp.allow {
      StoreKeepsOthers(inp.env, ScanMemory(inp, |inp.source.keys|), PendingItems(inp), given, times, c);
    }
  }

  // ---------- Deciding again from what a run left behind ----------

  /** `again` finds the memory and the fallback keys that a run of `inp` left behind, and some existing texts. */
  ghost predicate Follows(again: Inputs, inp: Inputs, given: map<string, string>, times: string -> string)
    requires Valid(inp) && Accepts(inp, given)
  {
    && Valid(again) && again.env == inp.env && again.source == inp.source
    && again.memory.vals == NextMemory(inp, given, times).vals
    && forall key :: key in inp.source.vals ==> (key in again.previousFallback <==> IsFallback(inp, key))
  }

  /** After a run the memory has an entry of the key's own. */
  predicate Remembered(inp: Inputs, key: string)
    requires key in inp.source.vals
  {
    match Choose(inp, key)
    case Cached(_) => true
    case Reused(_) => true
    case Kept(_) => false
    case Pending => inp.allow
  }

  /** The existing file lists the key with this text. */
  predicate Lists(inp: Inputs, flat: map<string, string>, key: string) {
    key in inp.existing && key in flat && inp.existing[key] == flat[key]
  }

  /** Every key is remembered, or still listed with its text. */
  ghost predicate Lasts(again: Inputs, inp: Inputs, given: map<string, string>)
    requires inp.source.Valid() && Accepts(inp, given)
  {
    forall key :: key in inp.source.vals ==> Remembered(inp, key) || Lists(again, NextFlat(inp, given), key)
  }

  /** A remembered key that is not refreshed is decided from the cache, with its earlier text. */
  lemma RememberedAgain(again: Inputs, inp: Inputs, given: map<string, string>, times: string -> string, key: string)
    requires Valid(inp) && Accepts(inp, given) && Follows(again, inp, given, times) && key in inp.source.vals
    requires (again.allow ==> !IsFallback(inp, key)) && Remembered(inp, key)
    ensures Choose(again, key).Cached? && FinalText(again, map[], key) == NextFlat(inp, given)[key]
    ensures IsFallback(again, key) <==> IsFallback(inp, key)
  {
    NextMemoryExact(inp, given, times, key);
    assert KeyOf(again, key) == KeyOf(inp, key);
  }

  /** A key that is not remembered has no entry; if it was reported, it has no text to reuse either. */
  lemma ForgottenAgain(again: Inputs, inp: Inputs, given: map<string, string>, times: string -> string, key: string)
    requires Valid(inp) && Accepts(inp, given) && Follows(again, inp, given, times) && key in inp.source.vals
    requires !Remembered(inp, key)
    ensures KeyOf(again, key) !in again.memory.vals
    ensures IsFallback(inp, key) ==> HashOf(again, key) !in again.byText
  {
    NextMemoryExact(inp, given, times, key);
    assert KeyOf(again, key) == KeyOf(inp, key);
    if IsFallback(inp, key) {
      FallbackStaysUnknown(inp, given, times, key);
      ByTextExact(again.memory, again.env.locale, HashOf(again, key));
    }
  }

  /** A key that is not refreshed is decided from the cache or the existing file, with its earlier text. */
  lemma AgainChoice(again: Inputs, inp: Inputs, given: map<string, string>, times: string -> string, key: string)
    requires Valid(inp) && Accepts(inp, given) && Follows(again, inp, given, times) && key in inp.source.vals
    requires again.allow ==> !IsFallback(inp, key)
    requires Remembered(inp, key) || Lists(again, NextFlat(inp, given), key)
    ensures Choose(again, key).Cached? || Choose(again, key).Kept?
    ensures FinalText(again, map[], key) == NextFlat(inp, given)[key]
    ensures IsFallback(again, key) <==> IsFallback(inp, key)
  {
    if Remembered(inp, key) {
      RememberedAgain(again, inp, given, times, key);
    } else {
      ForgottenAgain(again, inp, given, times, key);
    }
  }

  ghost predicate SameOutcome(again: Inputs, given': map<string, string>, times': string -> string,
                              inp: Inputs, given: map<string, string>, times: string -> string)
    requires inp.source.Valid() && Accepts(inp, given) && again.source.Valid() && Accepts(again, given')
  {
    && NextFlat(again, given') == NextFlat(inp, given)
    && (forall key :: key in FallbackList(again) <==> key in FallbackList(inp))
    && NextMemory(again, given', times').vals == NextMemory(inp, given, times).vals
  }

  /**
   Deciding again changes nothing and leaves nothing pending, exactly if no provider has become
   available for keys that fell back, and every key is remembered or still listed with its text.
   */
  lemma DecideAgain(again: Inputs, given': map<string, string>, times': string -> string,
                    inp: Inputs, given: map<string, string>, times: string -> string)
    requires Valid(inp) && Accepts(inp, given) && Follows(again, inp, given, times) && Accepts(again, given')
    ensures SameOutcome(again, given', times', inp, given, times) && PendingItems(again) == []
            <==> (again.allow ==> FallbackList(inp) == []) && Lasts(again, inp, given)
  {
    FallbackExact(inp);
    FallbackExact(again);
    if again.allow && FallbackList(inp) != [] {
      assert FallbackList(inp)[0] in FallbackList(inp);
    } else if Lasts(again, inp, given) {
      AgainQuiet(again, given', times', inp, given, times);
    } else {
      var key :| key in inp.source.vals && !Remembered(inp, key) && !Lists(again, NextFlat(inp, given), key);
      LostShows(again, given', times', inp, given, times, key);
    }
  }

  /** A key that is neither remembered nor listed with its text shows: it is pending, or something changes. */
  lemma LostShows(again: Inputs, given': map<string, string>, times': string -> string,
                  inp: Inputs, given: map<string, string>, times: string -> string, key: string)
    requires Valid(inp) && Accepts(inp, given) && Follows(again, inp, given, times) && Accepts(again, given')
    requires key in inp.source.vals && !Remembered(inp, key) && !Lists(again, NextFlat(inp, given), key)
    ensures !SameOutcome(again, given', times', inp, given, times) || PendingItems(again) != []
  {
    ForgottenAgain(again, inp, given, times, key);
    NextMemoryExact(again, given', times', key);
    PendingExact(again);
    match Choose(again, key)
    case Kept(_) => assert NextFlat(again, given')[key] == again.existing[key];
    case Pending => assert key in Keys(PendingItems(again));
    case _ =>
  }

  /** A run that finds every key in the cache or the existing file changes neither the memory nor the texts. */
  ghost predicate Quiet(inp: Inputs, flat: map<string, string>)
    requires inp.source.Valid()
  {
    && flat.Keys == inp.source.vals.Keys
    && forall key :: key in inp.source.vals ==>
                       && (Choose(inp, key).Cached? || Choose(inp, key).Kept?)
                       && FinalText(inp, map[], key) == flat[key]
  }

  lemma AgainDecisions(again: Inputs, inp: Inputs, given: map<string, string>, times: string -> string)
    requires Valid(inp) && Accepts(inp, given) && Follows(again, inp, given, times) && Lasts(again, inp, given)
    requires again.allow ==> FallbackList(inp) == []
    ensures Quiet(again, NextFlat(inp, given))
    ensures forall key :: key in inp.source.vals ==> (IsFallback(again, key) <==> IsFallback(inp, key))
  {
    FallbackExact(inp);
    forall key | key in inp.source.vals
      ensures Choose(again, key).Cached? || Choose(again, key).Kept?
      ensures FinalText(again, map[], key) == NextFlat(inp, given)[key]
      ensures IsFallback(again, key) <==> IsFallback(inp, key)
    {
      assert again.allow ==> key !in FallbackList(inp);
      AgainChoice(again, inp, given, times, key);
    }
  }

  lemma QuietRun(inp: Inputs, flat: map<string, string>, given: map<string, string>, times: string -> string)
    requires inp.source.Valid() && Accepts(inp, given) && Quiet(inp, flat)
    ensures PendingItems(inp) == [] && NextFlat(inp, given) == flat && NextMemory(inp, given, times) == inp.memory
  {
    NothingPending(inp);
    QuietScan(inp, |inp.source.keys|);
  }

  lemma AgainQuiet(again: Inputs, given': map<string, string>, times': string -> string,
                   inp: Inputs, given: map<string, string>, times: string -> string)
    requires Valid(inp) && Accepts(inp, given) && Follows(again, inp, given, times) && Accepts(again, given')
    requires (again.allow ==> FallbackList(inp) == []) && Lasts(again, inp, given)
    ensures SameOutcome(again, given', times', inp, given, times) && PendingItems(again) == []
    ensures NextMemory(again, given', times') == again.memory
  {
    AgainDecisions(again, inp, given, times);
    QuietRun(again, NextFlat(inp, given), given', times');
    FallbackExact(inp);
    FallbackExact(again);
  }

  lemma NothingPending(inp: Inputs)
    requires inp.source.Valid() && forall key :: key in inp.source.vals ==> !Choose(inp, key).Pending?
    ensures PendingItems(inp) == []
  {
    PendingExact(inp);
    var items := PendingItems(inp);
    assert items != [] ==> items[0].key in Keys(items);
  }

  lemma {:induction false} QuietScan(inp: Inputs, n: nat)
    requires inp.source.Valid() && n <= |inp.source.keys|
    requires forall key :: key in inp.source.vals ==> !Choose(inp, key).Reused?
    ensures ScanMemory(inp, n) == inp.memory
  {
    if n > 0 {
      QuietScan(inp, n - 1);
      assert inp.source.keys[n - 1] in inp.source.keys;
    }
  }

  // ---------- What deciding again leaves in the files ----------

  /** A key that a run remembers, lists, or has reported before. */
  predicate Stays(again: Inputs, inp: Inputs, key: string)
    requires key in inp.source.vals
  {
    Remembered(inp, key) || key in again.existing || IsFallback(inp, key)
  }

  /** The text that the key gets then: its earlier one, the listed one, or the English one again. */
  function TextAgain(again: Inputs, inp: Inputs, given: map<string, string>, key: string): string
    requires inp.source.Valid() && Accepts(inp, given) && key in inp.source.vals
  {
    if Remembered(inp, key) then NextFlat(inp, given)[key]
    else if key in again.existing then again.existing[key]
    else inp.source.vals[key]
  }

  /** The second decision of a key that stays without an entry: it is listed, or was reported. */
  lemma ForgottenChoice(again: Inputs, inp: Inputs, given: map<string, string>, times: string -> string, key: string)
    requires Valid(inp) && Accepts(inp, given) && Follows(again, inp, given, times)
    requires key in inp.source.vals && Stays(again, inp, key) && (again.allow ==> !IsFallback(inp, key))
    requires !Remembered(inp, key)
    ensures Choose(again, key) == if key in again.existing then Kept(again.existing[key]) else Pending
    ensures Choose(again, key).Pending? ==> !again.allow
    ensures IsFallback(again, key) <==> IsFallback(inp, key)
  {
    ForgottenAgain(again, inp, given, times, key);
  }

  /** The second decision of a key that stays. */
  lemma StayingChoice(again: Inputs, given': map<string, string>, inp: Inputs, given: map<string, string>,
                      times: string -> string, key: string)
    requires Valid(inp) && Accepts(inp, given) && Follows(again, inp, given, times) && Accepts(again, given')
    requires key in inp.source.vals && Stays(again, inp, key) && (again.allow ==> !IsFallback(inp, key))
    ensures !Choose(again, key).Reused? && (Choose(again, key).Pending? ==> !again.allow)
    ensures IsFallback(again, key) <==> IsFallback(inp, key)
    ensures NextFlat(again, given')[key] == TextAgain(again, inp, given, key)
  {
    if Remembered(inp, key) {
      RememberedAgain(again, inp, given, times, key);
    } else {
      ForgottenChoice(again, inp, given, times, key);
    }
  }

  /** A key that does not stay gets an entry, or is reported for the first time. */
  lemma StrayChoice(again: Inputs, given': map<string, string>, times': string -> string,
                    inp: Inputs, given: map<string, string>, times: string -> string, key: string)
    requires Valid(inp) && Accepts(inp, given) && Follows(again, inp, given, times) && Accepts(again, given')
    requires key in inp.source.vals && !Stays(again, inp, key)
    ensures || NextMemory(again, given', times').vals != NextMemory(inp, given, times).vals
            || (IsFallback(again, key) && !IsFallback(inp, key))
  {
    ForgottenAgain(again, inp, given, times, key);
    NextMemoryExact(again, given', times', key);
  }

  lemma NothingStored(inp: Inputs, given: map<string, string>, times: string -> string)
    requires inp.source.Valid() && Accepts(inp, given)
    requires forall key :: key in inp.source.vals ==>
                             !Choose(inp, key).Reused? && (Choose(inp, key).Pending? ==> !inp.allow)
    ensures NextMemory(inp, given, times) == inp.memory
  {
    QuietScan(inp, |inp.source.keys|);
    if inp.allow {
      NothingPending(inp);
    }
  }

  /**
   Unless a provider has become available for keys that fell back: deciding again reports the same keys
   and leaves the same memory exactly if every key stays, and then with these texts.
   */
  lemma StayAgain(again: Inputs, given': map<string, string>, times': string -> string,
                  inp: Inputs, given: map<string, string>, times: string -> string)
    requires Valid(inp) && Accepts(inp, given) && Follows(again, inp, given, times) && Accepts(again, given')
    requires again.allow ==> FallbackList(inp) == []
    ensures (&& NextMemory(again, given', times').vals == NextMemory(inp, given, times).vals
             && forall key :: key in inp.source.vals ==> (IsFallback(again, key) <==> IsFallback(inp, key)))
            <==> forall key :: key in inp.source.vals ==> Stays(again, inp, key)
    ensures (forall key :: key in inp.source.vals ==> Stays(again, inp, key)) ==>
              forall key :: key in inp.source.vals ==>
                              NextFlat(again, given')[key] == TextAgain(again, inp, given, key)
  {
    FallbackExact(inp);
    if forall key :: key in inp.source.vals ==> Stays(again, inp, key) {
      forall key | key in inp.source.vals
        ensures !Choose(again, key).Reused? && (Choose(again, key).Pending? ==> !again.allow)
        ensures IsFallback(again, key) <==> IsFallback(inp, key)
        ensures NextFlat(again, given')[key] == TextAgain(again, inp, given, key)
      {
        assert again.allow ==> key !in FallbackList(inp);
        StayingChoice(again, given', inp, given, times, key);
      }
      NothingStored(again, given', times');
    } else {
      var key :| key in inp.source.vals && !Stays(again, inp, key);
      StrayChoice(again, given', times', inp, given, times, key);
    }
  }
}
