/**
 One run of syncLocale over a locale's files, and why `sync --write` followed by another run
 changes nothing (openclaw/scripts/control-ui-i18n.ts).
 */
module TranslationSync {
  import opened Prelude
  import opened Sorting
  import opened TranslationShape
  import opened TranslationTree
  import opened TranslationMemory
  import opened TranslationBatches
  import opened TranslationPlan

  // ---------- Files ----------

  // A file's text, up to what its parser and its renderer can tell: the parsed contents, and
  // whether the text is exactly what the renderer would write for them.
  datatype Text<T> = Text(parsed: T, canonical: bool)

  datatype Meta = Meta(
    fallbackKeys: seq<string>, generatedAt: string, locale: string, model: string, provider: string,
    sourceHash: string, totalKeys: nat, translatedKeys: int, workflow: nat)

  datatype GlossaryEntry = GlossaryEntry(source: string, target: string)

  datatype Files = Files(
    locale: Option<Text<Kids>>,
    meta: Option<Text<Meta>>,
    glossary: Option<Text<seq<GlossaryEntry>>>,
    memory: Option<Text<seq<Entry>>>)

  const CONTROL_UI_I18N_WORKFLOW: nat := 1

  // One run: its environment, whether a translation provider is configured, the English source
  // (flattened, with the hash of its file), the glossary to start from, and the locale's files.
  datatype Job = Job(
    env: Env, allow: bool, sourceHash: string, source: OrderedMap<string>,
    defaultGlossary: seq<GlossaryEntry>, files: Files)

  ghost predicate ValidJob(job: Job) {
    ValidEnv(job.env) && job.source.Valid()
  }

  function Parsed<T>(file: Option<Text<T>>, missing: T): T {
    if file.Some? then file.value.parsed else missing
  }

  function PreviousFallback(files: Files): set<string> {
    if files.meta.Some? then set key | key in files.meta.value.parsed.fallbackKeys else {}
  }

  function Gather(job: Job): Inputs {
    var memory := Load(Parsed(job.files.memory, []));
    LoadFiled(Parsed(job.files.memory, []));
    Inputs(job.env, job.allow, job.source, Flatten(Parsed(job.files.locale, Nil), "", EmptyMap()).vals,
           PreviousFallback(job.files), memory, ByText(memory, job.env.locale))
  }

  lemma GatherValid(job: Job)
    requires ValidJob(job)
    ensures Valid(Gather(job))
  {
    LoadFiled(Parsed(job.files.memory, []));
  }

  // ---------- The files a run aims for ----------

  function FallbackKeys(inp: Inputs): seq<string>
    requires inp.source.Valid()
  {
    Sort(inp.env.le, Dedupe(FallbackList(inp)))
  }

  function MetaFor(job: Job, fallbackKeys: seq<string>, now: string): Meta {
    var previous := job.files.meta;
    var provider :=
      if job.allow then job.env.provider else if previous.Some? then previous.value.parsed.provider else "";
    var model := if job.allow then job.env.model else if previous.Some? then previous.value.parsed.model else "";
    var next := Meta(fallbackKeys, now, job.env.locale, model, provider, job.sourceHash,
                     |job.source.keys|, |job.source.keys| - |fallbackKeys|, CONTROL_UI_I18N_WORKFLOW);
    if previous.Some? then
      var same := next.(generatedAt := previous.value.parsed.generatedAt);
      if previous.value.parsed == same then same else next
    else next
  }

  function NextMeta(job: Job, now: string): Meta
    requires job.source.Valid()
  {
    MetaFor(job, FallbackKeys(Gather(job)), now)
  }

  function NextGlossary(job: Job): seq<GlossaryEntry> {
    var glossary := Parsed(job.files.glossary, []);
    if glossary == [] then job.defaultGlossary else glossary
  }

  function NextLocale(job: Job, given: map<string, string>): Kids
    requires job.source.Valid() && Accepts(Gather(job), given)
  {
    Rebuild(job.source.keys, NextFlat(Gather(job), given))
  }

  function NextLines(job: Job, given: map<string, string>, times: string -> string): seq<Entry>
    requires ValidJob(job) && Accepts(Gather(job), given)
  {
    GatherValid(job);
    NextMemoryFiled(Gather(job), given, times);
    Render(job.env.le, NextMemory(Gather(job), given, times))
  }

  function MemoryText(file: Option<Text<seq<Entry>>>): Text<seq<Entry>> {
    if file.Some? then file.value else Text([], true)
  }

  /** The files after writing everything a run aims for. An absent, empty memory stays absent. */
  function Written(job: Job, given: map<string, string>, times: string -> string, now: string): Files
    requires ValidJob(job) && Accepts(Gather(job), given)
  {
    var lines := NextLines(job, given, times);
    Files(
      Some(Text(NextLocale(job, given), true)),
      Some(Text(NextMeta(job, now), true)),
      Some(Text(NextGlossary(job), true)),
      if lines == [] && job.files.memory.None? then None else Some(Text(lines, true)))
  }

  /** What a run starts from: the summary's fallback keys, the object's texts, and the last line of each cache key. */
  lemma Gathered(job: Job, key: string, c: string) returns (i: int)
    ensures key in Gather(job).previousFallback
            <==> job.files.meta.Some? && key in job.files.meta.value.parsed.fallbackKeys
    ensures Gather(job).existing ==
            if job.files.locale.Some? then Flatten(job.files.locale.value.parsed, "", EmptyMap()).vals else map[]
    ensures var lines := if job.files.memory.Some? then job.files.memory.value.parsed else [];
            && -1 <= i < |lines| && (i == -1 <==> c !in Gather(job).memory.vals)
            && (i >= 0 ==>
                  && Gather(job).memory.vals[c] == lines[i] && lines[i].cacheKey == c && c != ""
                  && !IsBlank(lines[i].translated))
            && forall j :: i < j < |lines| ==> lines[j].cacheKey != c || c == "" || IsBlank(lines[j].translated)
  {
    i := LoadExact(Parsed(job.files.memory, []), c);
  }

  /** Whether a file would change. */
  predicate Differs(files: Files, next: Files) {
    || files.locale != next.locale || files.meta != next.meta || files.glossary != next.glossary
    || MemoryText(files.memory) != MemoryText(next.memory)
  }

  // ---------- Accounting ----------

  lemma {:induction false} DistinctSize(xs: seq<string>, s: set<string>)
    requires Distinct(xs) && forall x :: x in xs <==> x in s
    ensures |xs| == |s|
  {
    if xs != [] {
      assert xs[0] in s && xs == [xs[0]] + xs[1..];
      DistinctSize(xs[1..], s - {xs[0]});
    }
  }

  /** The object, the glossary and the summary that a run aims for; this keeps its time if nothing else changes. */
  lemma WrittenTexts(job: Job, given: map<string, string>, times: string -> string, now: string)
    requires ValidJob(job) && Accepts(Gather(job), given)
    ensures var next := Written(job, given, times, now);
            && next.locale == Some(Text(Rebuild(job.source.keys, NextFlat(Gather(job), given)), true))
            && next.glossary ==
               (if job.files.glossary.Some? && job.files.glossary.value.parsed != []
                then Some(Text(job.files.glossary.value.parsed, true)) else Some(Text(job.defaultGlossary, true)))
            && next.meta.Some? && next.meta.value.canonical
    ensures var meta, previous := Written(job, given, times, now).meta.value.parsed, job.files.meta;
            && meta.locale == job.env.locale && meta.sourceHash == job.sourceHash && meta.workflow == 1
            && meta.provider == (if job.allow then job.env.provider
                                 else if previous.Some? then previous.value.parsed.provider else "")
            && meta.model == (if job.allow then job.env.model
                              else if previous.Some? then previous.value.parsed.model else "")
            && meta.generatedAt ==
               (if previous.Some? && previous.value.parsed == meta.(generatedAt := previous.value.parsed.generatedAt)
                then previous.value.parsed.generatedAt else now)
  {
  }

  /** The memory that a run aims for has a line per entry, by cache key; an absent one appears only with entries. */
  lemma WrittenMemory(job: Job, given: map<string, string>, times: string -> string, now: string)
    requires ValidJob(job) && Accepts(Gather(job), given)
    ensures var next, vals := Written(job, given, times, now).memory, NextMemory(Gather(job), given, times).vals;
            && (next.None? <==> job.files.memory.None? && vals == map[])
            && (next.Some? ==>
                  var lines := next.value.parsed;
                  && next.value.canonical && Load(lines).vals == vals
                  && forall i, j :: 0 <= i < j < |lines| ==>
                                      && lines[i].cacheKey != lines[j].cacheKey
                                      && job.env.le(lines[i].cacheKey, lines[j].cacheKey))
  {
    var tm := NextMemory(Gather(job), given, times);
    GatherValid(job);
    NextMemoryFiled(Gather(job), given, times);
    RenderRoundTrip(job.env.le, tm);
    RenderInOrder(job.env.le, tm);
  }

  lemma FallbackKeysExact(inp: Inputs)
    requires inp.source.Valid() && TotalOrder(inp.env.le)
    ensures Distinct(FallbackKeys(inp)) && Ascending(inp.env.le, FallbackKeys(inp))
    ensures forall key :: key in FallbackKeys(inp) <==> key in inp.source.vals && IsFallback(inp, key)
    ensures FallbackKeys(inp) == [] <==> FallbackList(inp) == []
  {
    FallbackExact(inp);
    DedupeDistinct(FallbackList(inp));
    SortKeepsDistinct(inp.env.le, FallbackList(inp));
    SortSorts(inp.env.le, FallbackList(inp));
  }

  lemma FallbackCount(inp: Inputs)
    requires inp.source.Valid() && TotalOrder(inp.env.le)
    ensures |inp.source.keys| == |inp.source.vals|
    ensures |FallbackKeys(inp)| + |set key | key in inp.source.vals && !IsFallback(inp, key)| == |inp.source.vals|
  {
    FallbackKeysExact(inp);
    DistinctSize(inp.source.keys, inp.source.vals.Keys);
    var reported := set key | key in inp.source.vals && IsFallback(inp, key);
    var translated := set key | key in inp.source.vals && !IsFallback(inp, key);
    DistinctSize(FallbackKeys(inp), reported);
    assert inp.source.vals.Keys == reported + translated;
    assert |inp.source.vals| == |inp.source.vals.Keys|;
  }

  /** Every source key is either translated or reported, never both; with a provider none is reported. */
  lemma SyncAccounting(job: Job, now: string)
    requires ValidJob(job)
    ensures var meta, inp := NextMeta(job, now), Gather(job);
            && meta.totalKeys == |job.source.vals|
            && meta.translatedKeys + |meta.fallbackKeys| == meta.totalKeys
            && meta.translatedKeys == |set key | key in job.source.vals && !IsFallback(inp, key)|
            && Distinct(meta.fallbackKeys) && Ascending(job.env.le, meta.fallbackKeys)
            && (forall key :: key in meta.fallbackKeys <==> key in job.source.vals && IsFallback(inp, key))
            && (job.allow ==> meta.fallbackKeys == [])
  {
    var inp := Gather(job);
    FallbackKeysExact(inp);
    FallbackExact(inp);
    FallbackCount(inp);
    assert inp.source == job.source;
    MetaFields(job, FallbackKeys(inp), now);
  }

  lemma MetaFields(job: Job, fallbackKeys: seq<string>, now: string)
    ensures var meta := MetaFor(job, fallbackKeys, now);
            && meta.fallbackKeys == fallbackKeys && meta.totalKeys == |job.source.keys|
            && meta.translatedKeys == |job.source.keys| - |fallbackKeys|
            && (job.allow ==> meta.provider == job.env.provider && meta.model == job.env.model)
  {
  }

  // ---------- Sync, then sync again ----------

  /** The same run on the written files, with or without a provider. */
  function Again(job: Job, given: map<string, string>, times: string -> string, now: string, allow: bool): Job
    requires ValidJob(job) && Accepts(Gather(job), given)
  {
    job.(allow := allow, files := Written(job, given, times, now))
  }

  lemma AgainFollows(job: Job, given: map<string, string>, times: string -> string, now: string, allow: bool)
    requires ValidJob(job) && Accepts(Gather(job), given)
    ensures Valid(Gather(job)) && ValidJob(Again(job, given, times, now, allow))
    ensures Follows(Gather(Again(job, given, times, now, allow)), Gather(job), given, times)
    ensures Gather(Again(job, given, times, now, allow)).existing ==
            Flatten(Rebuild(job.source.keys, NextFlat(Gather(job), given)), "", EmptyMap()).vals
  {
    var again := Again(job, given, times, now, allow);
    GatherValid(job);
    GatherValid(again);
    NextMemoryFiled(Gather(job), given, times);
    RenderRoundTrip(job.env.le, NextMemory(Gather(job), given, times));
    FallbackKeysExact(Gather(job));
  }

  /**
   Sync, then sync again: nothing is pending, and the texts, the fallback keys and the memory stay as they
   are, exactly if no provider has become available for keys that fell back, and every key is remembered or
   listed by the written file with its text.
   */
  lemma SyncFixedPoint(job: Job, given: map<string, string>, times: string -> string, now: string,
                       allow: bool, given': map<string, string>, times': string -> string)
    requires ValidJob(job) && Accepts(Gather(job), given)
    requires Accepts(Gather(Again(job, given, times, now, allow)), given')
    ensures var again := Gather(Again(job, given, times, now, allow));
            SameOutcome(again, given', times', Gather(job), given, times) && PendingItems(again) == []
            <==> (allow ==> NextMeta(job, now).fallbackKeys == []) && Lasts(again, Gather(job), given)
  {
    AgainFollows(job, given, times, now, allow);
    FallbackKeysExact(Gather(job));
    DecideAgain(Gather(Again(job, given, times, now, allow)), given', times', Gather(job), given, times);
  }

  /** With the same fallback keys, the summary is written again as it stands unless a new provider is named. */
  lemma MetaAgain(job: Job, again: Job, fallbackKeys: seq<string>, now: string, now': string)
    requires again == job.(allow := again.allow, files := again.files)
    requires again.files.meta == Some(Text(MetaFor(job, fallbackKeys, now), true))
    ensures var meta := MetaFor(job, fallbackKeys, now);
            MetaFor(again, fallbackKeys, now') == meta
            <==> (again.allow ==> meta.provider == job.env.provider && meta.model == job.env.model)
  {
  }

  /** Every key stays, and those that the written file holds get their text again. */
  ghost predicate Unmoved(job: Job, again: Job, given: map<string, string>)
    requires ValidJob(job) && Accepts(Gather(job), given)
  {
    forall key :: key in job.source.vals ==>
                    && Stays(Gather(again), Gather(job), key)
                    && (Held(job.source.keys, key) ==>
                          TextAgain(Gather(again), Gather(job), given, key) == NextFlat(Gather(job), given)[key])
  }

  /**
   After a run that wrote its files, another run finds no file to change, exactly if no provider is
   configured or the written summary already names this provider and model and no fallback key, and every
   key stays where it is.
   */
  lemma NoDriftAfterSync(job: Job, given: map<string, string>, times: string -> string, now: string,
                         allow: bool, given': map<string, string>, times': string -> string, now': string)
    requires ValidJob(job) && Accepts(Gather(job), given)
    requires Accepts(Gather(Again(job, given, times, now, allow)), given')
    ensures var again := Again(job, given, times, now, allow);
            var meta := NextMeta(job, now);
            !Differs(again.files, Written(again, given', times', now'))
            <==> && (allow ==> && meta.fallbackKeys == []
                               && meta.provider == job.env.provider && meta.model == job.env.model)
                 && Unmoved(job, again, given)
  {
    var again := Again(job, given, times, now, allow);
    var inp, inp' := Gather(job), Gather(again);
    MetaFields(job, FallbackKeys(inp), now);
    AgainFollows(job, given, times, now, allow);
    FallbackKeysExact(inp);
    if allow && FallbackKeys(inp) != [] {
      DriftWithProvider(job, given, times, now, given', times', now');
    } else {
      StayAgain(inp', given', times', inp, given, times);
      DriftParts(job, given, times, now, allow, given', times', now');
      LinesAgain(job, given, times, now, allow, given', times');
      SummaryAgain(job, given, times, now, allow, now');
      RebuildSame(job.source.keys, NextFlat(inp', given'), NextFlat(inp, given));
      if forall key :: key in job.source.vals ==> Stays(inp', inp, key) {
        HeldTexts(job, again, given, given');
      }
    }
  }

  /** If every key stays, the written object is the same exactly if the keys it holds get their texts again. */
  lemma HeldTexts(job: Job, again: Job, given: map<string, string>, given': map<string, string>)
    requires ValidJob(job) && Accepts(Gather(job), given) && again.source == job.source
    requires ValidJob(again) && Accepts(Gather(again), given')
    requires forall key :: key in job.source.vals ==> Stays(Gather(again), Gather(job), key)
    requires forall key :: key in job.source.vals ==>
                             NextFlat(Gather(again), given')[key] == TextAgain(Gather(again), Gather(job), given, key)
    ensures Rebuild(job.source.keys, NextFlat(Gather(again), given')) ==
            Rebuild(job.source.keys, NextFlat(Gather(job), given))
            <==> Unmoved(job, again, given)
  {
    RebuildSame(job.source.keys, NextFlat(Gather(again), given'), NextFlat(Gather(job), given));
    assert forall key :: key in job.source.keys <==> key in job.source.vals;
  }

  lemma DriftWithProvider(job: Job, given: map<string, string>, times: string -> string, now: string,
                          given': map<string, string>, times': string -> string, now': string)
    requires ValidJob(job) && Accepts(Gather(job), given) && NextMeta(job, now).fallbackKeys != []
    requires Accepts(Gather(Again(job, given, times, now, true)), given')
    ensures var again := Again(job, given, times, now, true);
            Differs(again.files, Written(again, given', times', now'))
  {
    var again := Again(job, given, times, now, true);
    FallbackKeysExact(Gather(again));
    FallbackExact(Gather(again));
    MetaFields(again, FallbackKeys(Gather(again)), now');
    assert NextMeta(again, now') != NextMeta(job, now);
  }

  /** What can differ: the locale's object, the summary, and the lines of the memory. */
  lemma DriftParts(job: Job, given: map<string, string>, times: string -> string, now: string,
                   allow: bool, given': map<string, string>, times': string -> string, now': string)
    requires ValidJob(job) && Accepts(Gather(job), given)
    requires Accepts(Gather(Again(job, given, times, now, allow)), given')
    ensures var again := Again(job, given, times, now, allow);
            Differs(again.files, Written(again, given', times', now')) <==>
            || NextLocale(again, given') != NextLocale(job, given)
            || NextMeta(again, now') != NextMeta(job, now)
            || NextLines(again, given', times') != NextLines(job, given, times)
  {
    var again := Again(job, given, times, now, allow);
    assert NextGlossary(again) == NextGlossary(job);
  }

  /** The summary stays exactly if the same keys are reported and no new provider is named. */
  lemma SummaryAgain(job: Job, given: map<string, string>, times: string -> string, now: string, allow: bool,
                     now': string)
    requires ValidJob(job) && Accepts(Gather(job), given)
    ensures var again, meta := Again(job, given, times, now, allow), NextMeta(job, now);
            NextMeta(again, now') == meta <==>
            && (forall key :: key in job.source.vals ==>
                                (IsFallback(Gather(again), key) <==> IsFallback(Gather(job), key)))
            && (allow ==> meta.provider == job.env.provider && meta.model == job.env.model)
  {
    var again := Again(job, given, times, now, allow);
    FallbackKeysExact(Gather(job));
    FallbackKeysExact(Gather(again));
    MetaFields(job, FallbackKeys(Gather(job)), now);
    MetaFields(again, FallbackKeys(Gather(again)), now');
    MetaAgain(job, again, FallbackKeys(Gather(job)), now, now');
    if forall key :: key in job.source.vals ==> (IsFallback(Gather(again), key) <==> IsFallback(Gather(job), key)) {
      AgainSameFallback(job, again);
    } else {
      var key :| key in job.source.vals && !(IsFallback(Gather(again), key) <==> IsFallback(Gather(job), key));
      assert key in FallbackKeys(Gather(again)) <==> key !in FallbackKeys(Gather(job));
    }
  }

  lemma AgainSameFallback(job: Job, again: Job)
    requires ValidJob(job) && ValidJob(again) && again.source == job.source && again.env == job.env
    requires forall key :: key in job.source.vals ==> (IsFallback(Gather(again), key) <==> IsFallback(Gather(job), key))
    ensures FallbackKeys(Gather(again)) == FallbackKeys(Gather(job))
  {
    FallbackExact(Gather(job));
    FallbackExact(Gather(again));
    DedupeDistinct(FallbackList(Gather(job)));
    DedupeDistinct(FallbackList(Gather(again)));
    SortForgetsOrder(job.env.le, FallbackList(Gather(again)), FallbackList(Gather(job)));
  }

  /** The lines of the memory stay exactly if its entries do. */
  lemma LinesAgain(job: Job, given: map<string, string>, times: string -> string, now: string,
                   allow: bool, given': map<string, string>, times': string -> string)
    requires ValidJob(job) && Accepts(Gather(job), given)
    requires Accepts(Gather(Again(job, given, times, now, allow)), given')
    ensures var again := Again(job, given, times, now, allow);
            NextLines(again, given', times') == NextLines(job, given, times) <==>
            NextMemory(Gather(again), given', times').vals == NextMemory(Gather(job), given, times).vals
  {
    var again := Again(job, given, times, now, allow);
    var before, after := NextMemory(Gather(job), given, times), NextMemory(Gather(again), given', times');
    GatherValid(job);
    GatherValid(again);
    NextMemoryFiled(Gather(job), given, times);
    NextMemoryFiled(Gather(again), given', times');
    RenderRoundTrip(job.env.le, before);
    RenderRoundTrip(job.env.le, after);
    if after.vals == before.vals {
      RenderForgetsOrder(job.env.le, after, before);
    }
  }

  /** A run that follows finds nothing pending and no file to change exactly if every key is found where it was. */
  lemma QuietAgain(job: Job, given: map<string, string>, times: string -> string, now: string,
                   allow: bool, given': map<string, string>, times': string -> string, now': string)
    requires ValidJob(job) && Accepts(Gather(job), given)
    requires Accepts(Gather(Again(job, given, times, now, allow)), given')
    ensures var again, meta := Again(job, given, times, now, allow), NextMeta(job, now);
            PendingItems(Gather(again)) == [] && !Differs(again.files, Written(again, given', times', now'))
            <==> && (allow ==> && meta.fallbackKeys == []
                               && meta.provider == job.env.provider && meta.model == job.env.model)
                 && Unmoved(job, again, given)
                 && forall key :: key in job.source.vals ==>
                                    Remembered(Gather(job), key) || key in Gather(again).existing
  {
    var again := Again(job, given, times, now, allow);
    NoDriftAfterSync(job, given, times, now, allow, given', times', now');
    AgainFollows(job, given, times, now, allow);
    FallbackKeysExact(Gather(job));
    if (allow ==> FallbackKeys(Gather(job)) == []) && Unmoved(job, again, given) {
      FoundAgain(job, again, given, times);
    }
  }

  /** When every key stays, nothing is pending exactly if every key is remembered or listed. */
  lemma FoundAgain(job: Job, again: Job, given: map<string, string>, times: string -> string)
    requires ValidJob(job) && ValidJob(again) && Accepts(Gather(job), given) && again.source == job.source
    requires Valid(Gather(job)) && Follows(Gather(again), Gather(job), given, times) && Unmoved(job, again, given)
    requires again.allow ==> FallbackKeys(Gather(job)) == []
    ensures PendingItems(Gather(again)) == [] <==>
            forall key :: key in job.source.vals ==> Remembered(Gather(job), key) || key in Gather(again).existing
  {
    var inp, inp' := Gather(job), Gather(again);
    FallbackKeysExact(inp);
    PendingExact(inp');
    forall key | key in job.source.vals
      ensures Choose(inp', key).Pending? <==> !(Remembered(inp, key) || key in inp'.existing)
    {
      assert again.allow ==> key !in FallbackKeys(inp);
      assert Stays(inp', inp, key);
      if Remembered(inp, key) {
        RememberedAgain(inp', inp, given, times, key);
      } else {
        ForgottenAgain(inp', inp, given, times, key);
      }
    }
    if PendingItems(inp') != [] {
      assert PendingItems(inp')[0].key in Keys(PendingItems(inp'));
    }
    forall key | key in job.source.vals && Choose(inp', key).Pending?
      ensures PendingItems(inp') != []
    {
      assert key in Keys(PendingItems(inp'));
    }
  }

  // ---------- What this means for the keys ----------

  /** Keys that can be nested side by side are all listed with their texts. */
  lemma NestableListed(job: Job, given: map<string, string>, times: string -> string, now: string, allow: bool)
    requires ValidJob(job) && Accepts(Gather(job), given) && Nestable(job.source.keys)
    ensures Gather(Again(job, given, times, now, allow)).existing == NextFlat(Gather(job), given)
  {
    AgainFollows(job, given, times, now, allow);
    NestableRoundTrip(OrderedMap(job.source.keys, NextFlat(Gather(job), given)));
  }

  /** What is listed with its text lasts and stays. */
  lemma ListedLasts(job: Job, again: Job, given: map<string, string>)
    requires ValidJob(job) && Accepts(Gather(job), given)
    requires Gather(again).existing == NextFlat(Gather(job), given)
    ensures Lasts(Gather(again), Gather(job), given) && Unmoved(job, again, given)
  {
    assert Gather(job).source == job.source;
  }

  lemma NestableLasts(job: Job, given: map<string, string>, times: string -> string, now: string, allow: bool)
    requires ValidJob(job) && Accepts(Gather(job), given) && Nestable(job.source.keys)
    ensures Lasts(Gather(Again(job, given, times, now, allow)), Gather(job), given)
    ensures Unmoved(job, Again(job, given, times, now, allow), given)
  {
    NestableListed(job, given, times, now, allow);
    ListedLasts(job, Again(job, given, times, now, allow), given);
  }

  /** The written file lists a key exactly if it is held, if no key has a leading dot. */
  lemma {:induction false} DotlessKey(job: Job, given: map<string, string>, times: string -> string, now: string,
                                      allow: bool, key: string)
    requires ValidJob(job) && Accepts(Gather(job), given) && key in job.source.vals
    requires forall key :: key in job.source.keys ==> !StartsWithDot(key)
    ensures var again, flat := Gather(Again(job, given, times, now, allow)), NextFlat(Gather(job), given);
            && (key in again.existing <==> Held(job.source.keys, key))
            && (key in again.existing ==> again.existing[key] == flat[key])
  {
    AgainFollows(job, given, times, now, allow);
    DotlessListed(OrderedMap(job.source.keys, NextFlat(Gather(job), given)), key);
  }

  /** Keys without a leading dot last exactly if each is remembered or held: no later key is related to it. */
  lemma DotlessLasts(job: Job, given: map<string, string>, times: string -> string, now: string, allow: bool)
    requires ValidJob(job) && Accepts(Gather(job), given)
    requires forall key :: key in job.source.keys ==> !StartsWithDot(key)
    ensures Lasts(Gather(Again(job, given, times, now, allow)), Gather(job), given) <==>
            forall key :: key in job.source.vals ==> Remembered(Gather(job), key) || Held(job.source.keys, key)
  {
    forall key | key in job.source.vals
      ensures Lists(Gather(Again(job, given, times, now, allow)), NextFlat(Gather(job), given), key) <==>
              Held(job.source.keys, key)
    {
      DotlessKey(job, given, times, now, allow, key);
    }
  }

  /** And they stay exactly if each is remembered, held, or reported. */
  lemma DotlessStays(job: Job, given: map<string, string>, times: string -> string, now: string, allow: bool)
    requires ValidJob(job) && Accepts(Gather(job), given)
    requires forall key :: key in job.source.keys ==> !StartsWithDot(key)
    ensures Unmoved(job, Again(job, given, times, now, allow), given) <==>
            forall key :: key in job.source.vals ==>
                            || Remembered(Gather(job), key) || Held(job.source.keys, key)
                            || IsFallback(Gather(job), key)
  {
    var again := Gather(Again(job, given, times, now, allow));
    forall key | key in job.source.vals
      ensures Stays(again, Gather(job), key) <==>
              || Remembered(Gather(job), key) || Held(job.source.keys, key) || IsFallback(Gather(job), key)
      ensures Held(job.source.keys, key) ==>
                TextAgain(again, Gather(job), given, key) == NextFlat(Gather(job), given)[key]
    {
      DotlessKey(job, given, times, now, allow, key);
    }
  }

  // ---------- Keys that cannot be nested side by side ----------

  /** A run without a provider and without a translation memory. */
  ghost predicate Bare(job: Job) {
    ValidJob(job) && !job.allow && Parsed(job.files.memory, []) == []
  }

  lemma {:induction false} BareMemory(inp: Inputs, n: nat)
    requires inp.source.Valid() && n <= |inp.source.keys| && inp.byText == map[]
    ensures ScanMemory(inp, n) == inp.memory
  {
    if n > 0 {
      assert inp.source.keys[n - 1] in inp.source.keys;
      BareMemory(inp, n - 1);
    }
  }

  lemma BareInputs(job: Job)
    requires Bare(job)
    ensures Gather(job).memory == EmptyMap() && Gather(job).byText == map[]
    ensures forall key :: key in job.source.vals ==>
                            Choose(Gather(job), key) ==
                            if key in Gather(job).existing then Kept(Gather(job).existing[key]) else Pending
  {
    var inp := Gather(job);
    forall textHash | textHash in inp.byText
      ensures false
    {
      ByTextExact(inp.memory, job.env.locale, textHash);
    }
  }

  /** It leaves no translation memory either. */
  lemma BareAgain(job: Job, given: map<string, string>, times: string -> string, now: string)
    requires Bare(job) && Accepts(Gather(job), given)
    ensures Bare(Again(job, given, times, now, false))
    ensures Gather(Again(job, given, times, now, false)).existing ==
            Flatten(Rebuild(job.source.keys, NextFlat(Gather(job), given)), "", EmptyMap()).vals
  {
    BareInputs(job);
    BareMemory(Gather(job), |job.source.keys|);
    assert NextMemory(Gather(job), given, times) == EmptyMap();
    assert Sort(job.env.le, []) == [];
    assert NextLines(job, given, times) == [];
  }

  /**
   The condition on the keys is needed for the fixed point: after any run without a provider and without
   a memory, the next such run has nothing pending exactly if the keys can be nested side by side.
   */
  lemma BareFixedPoint(job: Job, given: map<string, string>, times: string -> string, now: string)
    requires Bare(job) && Accepts(Gather(job), given)
    ensures PendingItems(Gather(Again(job, given, times, now, false))) == [] <==> Nestable(job.source.keys)
  {
    var flat := OrderedMap(job.source.keys, NextFlat(Gather(job), given));
    var again := Again(job, given, times, now, false);
    BareAgain(job, given, times, now);
    BareInputs(again);
    PendingExact(Gather(again));
    KeysSurvive(flat);
    var items := PendingItems(Gather(again));
    assert items != [] ==> items[0].key in Keys(items);
    if PendingItems(Gather(again)) == [] {
      forall key | key in flat.vals
        ensures key in Gather(again).existing
      {
        assert key !in Keys(PendingItems(Gather(again)));
      }
    }
  }

  /**
   And for the absence of drift: after such a run that reported no fallback key, the next one finds no
   file to change exactly if the keys can be nested side by side.
   */
  lemma BareDrift(job: Job, given: map<string, string>, times: string -> string, now: string,
                  given': map<string, string>, times': string -> string, now': string)
    requires Bare(job) && Accepts(Gather(job), given) && NextMeta(job, now).fallbackKeys == []
    requires Accepts(Gather(Again(job, given, times, now, false)), given')
    ensures var again := Again(job, given, times, now, false);
            !Differs(again.files, Written(again, given', times', now')) <==> Nestable(job.source.keys)
  {
    var again := Again(job, given, times, now, false);
    if Nestable(job.source.keys) {
      NestableLasts(job, given, times, now, false);
      NoDriftAfterSync(job, given, times, now, false, given', times', now');
    } else {
      BareFixedPoint(job, given, times, now);
      BareAgain(job, given, times, now);
      PendingExact(Gather(again));
      FallbackKeysExact(Gather(again));
      var item := PendingItems(Gather(again))[0];
      assert item.key in Keys(PendingItems(Gather(again)));
      assert item.key in FallbackKeys(Gather(again));
      MetaFields(again, FallbackKeys(Gather(again)), now');
      assert NextMeta(again, now') != NextMeta(job, now);
    }
  }

  /** A bare run that finds a text for every key reports none. */
  lemma BareKept(job: Job)
    requires Bare(job) && PreviousFallback(job.files) == {} && job.source.vals.Keys <= Gather(job).existing.Keys
    ensures FallbackKeys(Gather(job)) == []
  {
    BareInputs(job);
    FallbackKeysExact(Gather(job));
    if FallbackKeys(Gather(job)) != [] {
      var key := SomeListed(FallbackKeys(Gather(job)));
      assert false;
    }
  }

  /** A run on an object with "a" and "a.b" beside each other, and its translation. */
  function DottedJob(env: Env, glossary: seq<GlossaryEntry>): Job {
    var english := Cons("a", Leaf("x"), Cons("a.b", Leaf("y"), Nil));
    var translated := Cons("a", Leaf("v"), Cons("a.b", Leaf("w"), Nil));
    Job(env, false, "", Flatten(english, "", EmptyMap()), glossary,
        Files(Some(Text(translated, true)), None, None, None))
  }

  /** In every environment this is such a run: without a provider and a memory, it reports no key. */
  lemma DottedNames(env: Env, glossary: seq<GlossaryEntry>)
    requires ValidEnv(env)
    ensures var job := DottedJob(env, glossary);
            Bare(job) && !Nestable(job.source.keys) && FallbackKeys(Gather(job)) == []
  {
    var job := DottedJob(env, glossary);
    FlattenTwo(Cons("a", Leaf("x"), Cons("a.b", Leaf("y"), Nil)), "a", "x", "a.b", "y");
    FlattenTwo(Cons("a", Leaf("v"), Cons("a.b", Leaf("w"), Nil)), "a", "v", "a.b", "w");
    BareKept(job);
    DottedKeys(job.source.keys);
  }

  lemma DottedKeys(keys: seq<string>)
    requires keys == ["a", "a.b"]
    ensures !Nestable(keys)
  {
    assert keys[0] in keys && keys[1] in keys && keys[0] + "." <= keys[1];
  }

  lemma SomeListed(keys: seq<string>) returns (key: string)
    requires keys != []
    ensures key in keys
  {
    key := keys[0];
  }

  lemma {:induction false} FlattenTwo(kids: Kids, j: string, s: string, k: string, t: string)
    requires kids == Cons(j, Leaf(s), Cons(k, Leaf(t), Nil)) && j != k
    ensures Flatten(kids, "", EmptyMap()) == OrderedMap([j, k], map[j := s, k := t])
  {
    var first := EmptyMap().Put(j, s);
    var both := first.Put(k, t);
    assert first.keys == [j] && both.keys == [j, k];
    assert Flatten(Nil, "", both) == both;
    assert Flatten(Cons(k, Leaf(t), Nil), "", first) == both;
  }

  // ---------- The module of a locale ----------

  /** The source keys are those of an English object whose names, at every depth, are non-empty and without dots. */
  ghost predicate FromEnglish(job: Job, english: Kids) {
    Proper(english) && WellNamed(english) && job.source == Flatten(english, "", EmptyMap())
  }

  /**
   The written object has the shape of the English one: the same names in the same order at every
   depth, with the run's texts; only objects without any text are left out.
   */
  lemma {:induction false} WrittenShape(job: Job, english: Kids, given: map<string, string>)
    requires ValidJob(job) && FromEnglish(job, english) && Accepts(Gather(job), given)
    ensures NextLocale(job, given) == Retext(english, TextOf(NextFlat(Gather(job), given)))
  {
    RebuildKeepsShape(english, NextFlat(Gather(job), given));
  }

  /** For such an English object the second sync behaves as SyncFixedPoint and NoDriftAfterSync say. */
  lemma EnglishFixedPoint(job: Job, english: Kids, given: map<string, string>, times: string -> string, now: string,
                          allow: bool, given': map<string, string>, times': string -> string, now': string)
    requires ValidJob(job) && FromEnglish(job, english) && Accepts(Gather(job), given)
    requires Accepts(Gather(Again(job, given, times, now, allow)), given')
    ensures var again, meta := Again(job, given, times, now, allow), NextMeta(job, now);
            && ((&& SameOutcome(Gather(again), given', times', Gather(job), given, times)
                 && PendingItems(Gather(again)) == [])
                <==> (allow ==> meta.fallbackKeys == []))
            && (!Differs(again.files, Written(again, given', times', now'))
                <==> (allow ==> && meta.fallbackKeys == []
                                && meta.provider == job.env.provider && meta.model == job.env.model))
  {
    WellNamedFlattensNestable(english);
    NestableLasts(job, given, times, now, allow);
    SyncFixedPoint(job, given, times, now, allow, given', times');
    NoDriftAfterSync(job, given, times, now, allow, given', times', now');
  }
}
