/** The translation memory file, its lookup tables and its cache keys (openclaw/scripts/control-ui-i18n.ts). */
module TranslationMemory {
  import opened Prelude
  import opened Sorting

  datatype Entry = Entry(
    cacheKey: string, model: string, provider: string, segmentId: string, sourcePath: string,
    srcLang: string, text: string, textHash: string, tgtLang: string, translated: string, updatedAt: string)

  // ---------- Hashes and cache keys ----------

  // What the environment fixes for a run: the hash of a text, the cache key of a segment, the
  // provider and model, the locale and its source path, and the order of names.
  datatype Env = Env(
    hash: string -> string, cacheKey: (string, string) -> string,
    provider: string, model: string, locale: string, sourcePath: string, le: Order)

  /** Cache keys are non-empty and tell segments apart; text hashes are non-empty; names are totally ordered. */
  ghost predicate ValidEnv(env: Env) {
    && (forall text :: env.hash(text) != "")
    && (forall a, t, b, u :: env.cacheKey(a, env.hash(t)) == env.cacheKey(b, env.hash(u)) ==> a == b)
    && (forall a, h :: env.cacheKey(a, h) != "")
    && TotalOrder(env.le)
  }

  /** SHA-256 as an ideal digest: collision-free, and written in characters other than a bar. */
  ghost predicate Digests(sha: string -> string) {
    && (forall s, t :: sha(s) == sha(t) ==> s == t)
    && (forall s :: sha(s) != "" && '|' !in sha(s))
  }

  function Collapse(s: string): string {
    if s == "" then ""
    else if IsSpace(s[0]) && |s| > 1 && IsSpace(s[1]) then Collapse(s[1..])
    else [if IsSpace(s[0]) then ' ' else s[0]] + Collapse(s[1..])
  }

  function NormalizeText(s: string): string {
    Collapse(Trim(s))
  }

  function CacheNamespace(provider: string, model: string): string {
    "wf=1|engine=pi|provider=" + provider + "|model=" + model
  }

  /** The environment of a real run. */
  function RunEnv(sha: string -> string, provider: string, model: string, locale: string, fileName: string,
                  le: Order): Env {
    Env(text => sha(NormalizeText(text)),
        (segmentId, textHash) =>
          sha(CacheNamespace(provider, model) + "|en|" + locale + "|" + segmentId + "|" + textHash),
        provider, model, locale, "ui/src/i18n/locales/" + fileName, le)
  }

  lemma LastBar(a: string, h: string, b: string, g: string)
    requires a + "|" + h == b + "|" + g && '|' !in h && '|' !in g
    ensures a == b && h == g
  {
    var s, t := a + "|" + h, b + "|" + g;
    assert s[|a|] == '|' && t[|b|] == '|';
    assert forall i :: |a| < i < |s| ==> s[i] == h[i - |a| - 1] && s[i] != '|';
    assert forall i :: |b| < i < |t| ==> t[i] == g[i - |b| - 1] && t[i] != '|';
    assert |a| == |b|;
    assert s[|a| + 1..] == h && t[|b| + 1..] == g;
    assert a == s[..|a|] && b == t[..|b|];
  }

  /** A cache key identifies the segment and the hash of its text, whatever characters the segment id holds. */
  lemma CacheKeyInjective(
    sha: string -> string, provider: string, model: string, locale: string, fileName: string, le: Order,
    a: string, text: string, b: string, text': string)
    requires Digests(sha)
    requires var env := RunEnv(sha, provider, model, locale, fileName, le);
             env.cacheKey(a, env.hash(text)) == env.cacheKey(b, env.hash(text'))
    ensures a == b && NormalizeText(text) == NormalizeText(text')
  {
    var head := CacheNamespace(provider, model) + "|en|" + locale + "|";
    var h, g := sha(NormalizeText(text)), sha(NormalizeText(text'));
    assert head + a + "|" + h == head + b + "|" + g;
    LastBar(head + a, h, head + b, g);
    assert a == (head + a)[|head|..] && b == (head + b)[|head|..];
  }

  lemma SameStart(start: string, x: string, y: string)
    requires start + x == start + y
    ensures x == y
  {
    assert x == (start + x)[|start|..] && y == (start + y)[|start|..];
  }

  /** What stands before the first mark, and what comes from there on. */
  lemma FirstMark(mark: char, a: string, x: string, b: string, y: string)
    requires a + x == b + y && mark !in a && mark !in b
    requires (x == "" || x[0] == mark) && (y == "" || y[0] == mark)
    ensures a == b && x == y
  {
    var s := a + x;
    assert forall i :: 0 <= i < |a| ==> s[i] == a[i];
    assert forall i :: 0 <= i < |b| ==> s[i] == b[i];
    assert |a| < |s| ==> s[|a|] == mark;
    assert |b| < |s| ==> s[|b|] == mark;
    assert a == s[..|a|] && b == s[..|b|];
    SameStart(a, x, y);
  }

  lemma BarThen(a: string, x: string, b: string, y: string)
    requires a + "|" + x == b + "|" + y && '|' !in a && '|' !in b
    ensures a == b && x == y
  {
    assert a + "|" + x == a + ("|" + x) && b + "|" + y == b + ("|" + y);
    FirstMark('|', a, "|" + x, b, "|" + y);
    SameStart("|", x, y);
  }

  /** The text of which a cache key is the digest. */
  function KeyText(provider: string, model: string, locale: string, a: string, h: string): string {
    CacheNamespace(provider, model) + "|en|" + locale + "|" + a + "|" + h
  }

  function AfterProvider(model: string, locale: string, a: string, h: string): string {
    "model=" + (model + "|" + ("en|" + (locale + "|" + (a + "|" + h))))
  }

  lemma KeyTextParts(provider: string, model: string, locale: string, a: string, h: string)
    ensures KeyText(provider, model, locale, a, h) ==
            "wf=1|engine=pi|provider=" + (provider + "|" + AfterProvider(model, locale, a, h))
  {
    var head, rest := "wf=1|engine=pi|provider=", locale + "|" + a + "|" + h;
    assert "|model=" == "|" + "model=" && "|en|" == "|" + "en|";
    assert rest == locale + "|" + (a + "|" + h);
    assert KeyText(provider, model, locale, a, h) == head + provider + "|model=" + model + "|en|" + rest;
    assert "model=" + model + "|en|" + rest == AfterProvider(model, locale, a, h);
    assert head + provider + "|model=" + model + "|en|" + rest ==
           head + (provider + "|" + ("model=" + model + "|en|" + rest));
  }

  lemma AfterProviderInjective(model: string, locale: string, a: string, h: string,
                               model': string, locale': string, b: string, g: string)
    requires AfterProvider(model, locale, a, h) == AfterProvider(model', locale', b, g)
    requires forall x :: x in [model, locale, h, model', locale', g] ==> '|' !in x
    ensures model == model' && locale == locale' && a == b && h == g
  {
    var names := [model, locale, h, model', locale', g];
    assert forall i :: 0 <= i < 6 ==> names[i] in names;
    var x, y := locale + "|" + (a + "|" + h), locale' + "|" + (b + "|" + g);
    SameStart("model=", model + "|" + ("en|" + x), model' + "|" + ("en|" + y));
    BarThen(model, "en|" + x, model', "en|" + y);
    SameStart("en|", x, y);
    BarThen(locale, a + "|" + h, locale', b + "|" + g);
    LastBar(a, h, b, g);
  }

  /** Cache keys of other providers, models or locales differ too, if there are no bars in the names of these. */
  lemma CacheKeysApart(sha: string -> string, fileName: string, le: Order,
                       provider: string, model: string, locale: string, a: string, h: string,
                       provider': string, model': string, locale': string, b: string, g: string)
    requires Digests(sha)
    requires forall x :: x in [provider, provider', model, locale, h, model', locale', g] ==> '|' !in x
    ensures var key := RunEnv(sha, provider, model, locale, fileName, le).cacheKey(a, h);
            && key == sha("wf=1|engine=pi|provider=" + provider + "|model=" + model + "|en|" + locale + "|" + a + "|"
                          + h)
            && (key == RunEnv(sha, provider', model', locale', fileName, le).cacheKey(b, g)
                <==> provider == provider' && model == model' && locale == locale' && a == b && h == g)
  {
    var names := [provider, provider', model, locale, h, model', locale', g];
    assert names[0] in names && names[1] in names && names[2..] == [model, locale, h, model', locale', g];
    var x, y := AfterProvider(model, locale, a, h), AfterProvider(model', locale', b, g);
    KeyTextParts(provider, model, locale, a, h);
    KeyTextParts(provider', model', locale', b, g);
    if KeyText(provider, model, locale, a, h) == KeyText(provider', model', locale', b, g) {
      SameStart("wf=1|engine=pi|provider=", provider + "|" + x, provider' + "|" + y);
      BarThen(provider, x, provider', y);
      AfterProviderInjective(model, locale, a, h, model', locale', b, g);
    }
  }

  lemma RunEnvValid(sha: string -> string, provider: string, model: string, locale: string, fileName: string, le: Order)
    requires Digests(sha) && TotalOrder(le)
    ensures ValidEnv(RunEnv(sha, provider, model, locale, fileName, le))
  {
    var env := RunEnv(sha, provider, model, locale, fileName, le);
    forall a, t, b, u | env.cacheKey(a, env.hash(t)) == env.cacheKey(b, env.hash(u))
      ensures a == b
    {
      CacheKeyInjective(sha, provider, model, locale, fileName, le, a, t, b, u);
    }
    forall text
      ensures env.hash(text) != ""
    {
      assert sha(NormalizeText(text)) != "";
    }
    var head := CacheNamespace(provider, model) + "|en|" + locale + "|";
    forall a, h
      ensures env.cacheKey(a, h) != ""
    {
      assert sha(head + a + "|" + h) != "";
    }
  }

  // ---------- Texts that differ in white space only ----------

  /** Words, with the white space before, between and after them. */
  function Spread(gaps: seq<string>, words: seq<string>): string
    requires |gaps| == |words| + 1
  {
    if words == [] then gaps[0] else gaps[0] + words[0] + Spread(gaps[1..], words[1..])
  }

  /** Words with one space between them. */
  function Spaced(words: seq<string>): string {
    if words == [] then "" else if |words| == 1 then words[0] else words[0] + " " + Spaced(words[1..])
  }

  /** The gaps are white space, and empty at most at the ends; the words are not empty and hold no white space. */
  ghost predicate Spells(gaps: seq<string>, words: seq<string>) {
    && |gaps| == |words| + 1
    && (forall i :: 0 <= i < |gaps| ==> IsBlank(gaps[i]) && (0 < i < |words| ==> gaps[i] != ""))
    && (forall i :: 0 <= i < |words| ==> words[i] != "" && forall c :: c in words[i] ==> !IsSpace(c))
  }

  /** Every text is spelled by some words. */
  lemma {:induction false} SpelledBy(s: string) returns (gaps: seq<string>, words: seq<string>)
    ensures Spells(gaps, words) && Spread(gaps, words) == s
  {
    if s == "" {
      gaps, words := [""], [];
    } else {
      gaps, words := SpelledBy(s[1..]);
      assert s == [s[0]] + s[1..];
      if IsSpace(s[0]) {
        var more := [[s[0]] + gaps[0]] + gaps[1..];
        assert more[1..] == gaps[1..];
        gaps := more;
      } else if gaps[0] == "" && words != [] {
        var more := [[s[0]] + words[0]] + words[1..];
        assert more[1..] == words[1..];
        words := more;
      } else {
        assert ([""] + gaps)[1..] == gaps && ([[s[0]]] + words)[1..] == words;
        gaps, words := [""] + gaps, [[s[0]]] + words;
      }
    }
  }

  lemma {:induction false} CollapseWord(word: string, rest: string)
    requires forall c :: c in word ==> !IsSpace(c)
    ensures Collapse(word + rest) == word + Collapse(rest)
  {
    if word == "" {
      assert word + rest == rest;
    } else {
      CollapseWord(word[1..], rest);
      assert (word + rest)[1..] == word[1..] + rest;
    }
  }

  lemma {:induction false} CollapseGap(gap: string, rest: string)
    requires gap != "" && IsBlank(gap) && rest != "" && !IsSpace(rest[0])
    ensures Collapse(gap + rest) == " " + Collapse(rest)
  {
    assert (gap + rest)[1..] == gap[1..] + rest;
    if |gap| == 1 {
      assert gap[1..] + rest == rest;
    } else {
      CollapseGap(gap[1..], rest);
    }
  }

  /** The words with the gaps between them, but not around them. */
  function Inner(gaps: seq<string>, words: seq<string>): string
    requires |gaps| == |words| + 1
  {
    if words == [] then ""
    else words[0] + if |words| == 1 then "" else gaps[1] + Inner(gaps[1..], words[1..])
  }

  lemma SpellsRest(gaps: seq<string>, words: seq<string>)
    requires Spells(gaps, words) && words != []
    ensures Spells(gaps[1..], words[1..])
    ensures !IsSpace(words[0][0]) && !IsSpace(words[0][|words[0]| - 1])
  {
    assert words[0][0] in words[0] && words[0][|words[0]| - 1] in words[0];
  }

  lemma {:induction false} InnerEnds(gaps: seq<string>, words: seq<string>)
    requires Spells(gaps, words) && words != []
    ensures var inner := Inner(gaps, words);
            inner != "" && !IsSpace(inner[0]) && !IsSpace(inner[|inner| - 1])
  {
    SpellsRest(gaps, words);
    if |words| > 1 {
      InnerEnds(gaps[1..], words[1..]);
    }
  }

  lemma {:induction false} SpreadStep(gaps: seq<string>, words: seq<string>)
    requires |gaps| == |words| + 1 && words != []
    ensures Spread(gaps, words) == gaps[0] + words[0] + Spread(gaps[1..], words[1..])
    ensures |words| == 1 ==> Spread(gaps[1..], words[1..]) == gaps[1] && Inner(gaps, words) == words[0]
    ensures |words| > 1 ==> Inner(gaps, words) == words[0] + (gaps[1] + Inner(gaps[1..], words[1..]))
  {
    assert words[0] + "" == words[0];
  }

  lemma {:induction false} SpreadInner(gaps: seq<string>, words: seq<string>)
    requires Spells(gaps, words) && words != []
    ensures Spread(gaps, words) == gaps[0] + Inner(gaps, words) + gaps[|words|]
  {
    SpreadStep(gaps, words);
    if |words| > 1 {
      SpellsRest(gaps, words);
      SpreadInner(gaps[1..], words[1..]);
      assert gaps[1..][0] == gaps[1] && gaps[1..][|words| - 1] == gaps[|words|];
      InsideOut(gaps[0], words[0], gaps[1], Inner(gaps[1..], words[1..]), gaps[|words|]);
    }
  }

  lemma InsideOut(a: string, b: string, c: string, d: string, e: string)
    ensures a + b + (c + d + e) == a + (b + (c + d)) + e
  {
  }

  lemma {:induction false} CollapseInner(gaps: seq<string>, words: seq<string>)
    requires Spells(gaps, words)
    ensures Collapse(Inner(gaps, words)) == Spaced(words)
  {
    if words != [] {
      SpellsRest(gaps, words);
      CollapseInner(gaps[1..], words[1..]);
      if |words| == 1 {
        CollapseWord(words[0], "");
        assert words[0] + "" == words[0];
      } else {
        InnerEnds(gaps[1..], words[1..]);
        CollapseWord(words[0], gaps[1] + Inner(gaps[1..], words[1..]));
        CollapseGap(gaps[1], Inner(gaps[1..], words[1..]));
      }
    }
  }

  /** A normalized text is the words of the text with one space between them. */
  lemma {:induction false} NormalizeExact(gaps: seq<string>, words: seq<string>)
    requires Spells(gaps, words)
    ensures NormalizeText(Spread(gaps, words)) == Spaced(words)
  {
    CollapseInner(gaps, words);
    if words == [] {
      TrimIs("", "", gaps[0]);
      assert "" + "" + gaps[0] == gaps[0];
    } else {
      InnerEnds(gaps, words);
      SpreadInner(gaps, words);
      TrimIs(gaps[0], Inner(gaps, words), gaps[|words|]);
    }
  }

  lemma {:induction false} SpacedInjective(a: seq<string>, b: seq<string>)
    requires Spaced(a) == Spaced(b)
    requires forall i :: 0 <= i < |a| ==> a[i] != "" && ' ' !in a[i]
    requires forall i :: 0 <= i < |b| ==> b[i] != "" && ' ' !in b[i]
    ensures a == b
  {
    if a != [] && b != [] {
      var x, y := if |a| == 1 then "" else " " + Spaced(a[1..]), if |b| == 1 then "" else " " + Spaced(b[1..]);
      assert a[0] + x == b[0] + y by {
        assert a[0] + x == Spaced(a) && b[0] + y == Spaced(b);
      }
      FirstMark(' ', a[0], x, b[0], y);
      if x == "" {
        assert a == [a[0]] && b == [b[0]];
      } else {
        SameStart(" ", Spaced(a[1..]), Spaced(b[1..]));
        SpacedInjective(a[1..], b[1..]);
        assert a == [a[0]] + a[1..] && b == [b[0]] + b[1..];
      }
    }
  }

  /** Two texts have the same hash exactly if they have the same words, whatever white space is around them. */
  lemma {:induction false} SameHashExactly(
    sha: string -> string, provider: string, model: string, locale: string, fileName: string, le: Order,
    gaps: seq<string>, words: seq<string>, gaps': seq<string>, words': seq<string>)
    requires Digests(sha) && Spells(gaps, words) && Spells(gaps', words')
    ensures var hash := RunEnv(sha, provider, model, locale, fileName, le).hash;
            hash(Spread(gaps, words)) == hash(Spread(gaps', words')) <==> words == words'
  {
    NormalizeExact(gaps, words);
    NormalizeExact(gaps', words');
    assert forall i :: 0 <= i < |words| ==> ' ' !in words[i];
    assert forall i :: 0 <= i < |words'| ==> ' ' !in words'[i];
    if Spaced(words) == Spaced(words') {
      SpacedInjective(words, words');
    }
  }

  // ---------- The memory file ----------

  predicate Loadable(e: Entry) {
    e.cacheKey != "" && !IsBlank(e.translated)
  }

  /** loadTranslationMemory, line by line. */
  function Load(lines: seq<Entry>): OrderedMap<Entry> {
    if lines == [] then EmptyMap()
    else
      var before, last := Load(lines[..|lines| - 1]), lines[|lines| - 1];
      if Loadable(last) then before.Put(last.cacheKey, last) else before
  }

  /** What every memory satisfies: entries are filed under their own cache key and can be loaded again. */
  ghost predicate Filed(tm: OrderedMap<Entry>) {
    tm.Valid() && forall c :: c in tm.vals ==> tm.vals[c].cacheKey == c && Loadable(tm.vals[c])
  }

  lemma {:induction false} LoadFiled(lines: seq<Entry>)
    ensures Filed(Load(lines))
  {
    if lines != [] {
      LoadFiled(lines[..|lines| - 1]);
    }
  }

  /** Position of the last of the first n lines that an entry is loaded from; -1 if there is none. */
  lemma {:induction false} LoadAt(lines: seq<Entry>, n: nat, c: string) returns (i: int)
    requires n <= |lines|
    ensures -1 <= i < n && (i == -1 <==> c !in Load(lines[..n]).vals)
    ensures i >= 0 ==>
              && Load(lines[..n]).vals[c] == lines[i] && lines[i].cacheKey == c && c != ""
              && !IsBlank(lines[i].translated)
    ensures forall j :: i < j < n ==> lines[j].cacheKey != c || c == "" || IsBlank(lines[j].translated)
  {
    i := -1;
    if n > 0 {
      OneMore(lines, n - 1);
      i := LoadAt(lines, n - 1, c);
      if Loadable(lines[n - 1]) && lines[n - 1].cacheKey == c {
        i := n - 1;
      }
    }
  }

  /** An entry is the last line with its cache key that has a text; lines without a key or a text are skipped. */
  lemma LoadExact(lines: seq<Entry>, c: string) returns (i: int)
    ensures -1 <= i < |lines| && (i == -1 <==> c !in Load(lines).vals)
    ensures i >= 0 ==>
              Load(lines).vals[c] == lines[i] && lines[i].cacheKey == c && c != "" && !IsBlank(lines[i].translated)
    ensures forall j :: i < j < |lines| ==> lines[j].cacheKey != c || c == "" || IsBlank(lines[j].translated)
  {
    assert lines[..|lines|] == lines;
    i := LoadAt(lines, |lines|, c);
  }

  function Lines(keys: seq<string>, vals: map<string, Entry>): (lines: seq<Entry>)
    requires forall k :: k in keys ==> k in vals
    ensures |lines| == |keys|
  {
    seq(|keys|, i requires 0 <= i < |keys| => vals[keys[i]])
  }

  /** renderTranslationMemory: one line per entry, in the order of their cache keys. */
  function Render(le: Order, tm: OrderedMap<Entry>): seq<Entry>
    requires TotalOrder(le) && tm.Valid()
  {
    SortKeepsDistinct(le, tm.keys);
    Lines(Sort(le, tm.keys), tm.vals)
  }

  lemma {:induction false} LoadLines(keys: seq<string>, tm: OrderedMap<Entry>)
    requires Filed(tm) && Distinct(keys) && forall k :: k in keys ==> k in tm.vals
    ensures Load(Lines(keys, tm.vals)) == OrderedMap(keys, map k | k in keys :: tm.vals[k])
  {
    if keys != [] {
      var init, last := keys[..|keys| - 1], keys[|keys| - 1];
      assert keys == init + [last] && last !in init;
      LoadLines(init, tm);
      assert Lines(keys, tm.vals)[..|keys| - 1] == Lines(init, tm.vals);
      OneMoreLine(init, last, tm.vals);
    }
  }

  lemma OneMoreLine(init: seq<string>, last: string, vals: map<string, Entry>)
    requires last in vals && forall k :: k in init ==> k in vals
    ensures (map k | k in init :: vals[k])[last := vals[last]] == map k | k in init + [last] :: vals[k]
  {
  }

  /** Writing a memory and loading it again gives the same entries. */
  lemma RenderRoundTrip(le: Order, tm: OrderedMap<Entry>)
    requires TotalOrder(le) && Filed(tm)
    ensures Load(Render(le, tm)).vals == tm.vals
  {
    SortKeepsDistinct(le, tm.keys);
    LoadLines(Sort(le, tm.keys), tm);
  }

  /** The written file has one line for each entry, in the order of the cache keys. */
  lemma RenderInOrder(le: Order, tm: OrderedMap<Entry>)
    requires TotalOrder(le) && Filed(tm)
    ensures var lines := Render(le, tm);
            && (lines == [] <==> tm.vals == map[])
            && forall i, j :: 0 <= i < j < |lines| ==>
                                lines[i].cacheKey != lines[j].cacheKey && le(lines[i].cacheKey, lines[j].cacheKey)
  {
    var sorted := Sort(le, tm.keys);
    SortKeepsDistinct(le, tm.keys);
    SortSorts(le, tm.keys);
    assert forall i :: 0 <= i < |sorted| ==> sorted[i] in tm.vals && Render(le, tm)[i].cacheKey == sorted[i];
    if sorted == [] {
      assert forall c :: c in tm.vals ==> c in sorted;
    } else {
      assert sorted[0] in tm.vals;
    }
  }

  /** The written file depends only on the entries, not on the order in which they were stored. */
  lemma RenderForgetsOrder(le: Order, a: OrderedMap<Entry>, b: OrderedMap<Entry>)
    requires TotalOrder(le) && a.Valid() && b.Valid() && a.vals == b.vals
    ensures Render(le, a) == Render(le, b)
  {
    assert forall k :: k in a.keys <==> k in a.vals;
    assert forall k :: k in b.keys <==> k in b.vals;
    SortForgetsOrder(le, a.keys, b.keys);
  }

  // ---------- Reuse by text ----------

  predicate Eligible(e: Entry, locale: string) {
    e.tgtLang == locale && e.textHash != "" && !IsBlank(e.translated)
  }

  /** buildTranslationMemoryByTextHash over the first entries of the memory: the last entry of a hash wins. */
  function IndexByText(tm: OrderedMap<Entry>, locale: string, n: nat): map<string, Entry>
    requires tm.Valid() && n <= |tm.keys|
  {
    if n == 0 then map[]
    else
      var e := tm.vals[tm.keys[n - 1]];
      var before := IndexByText(tm, locale, n - 1);
      if Eligible(e, locale) then before[e.textHash := e] else before
  }

  function ByText(tm: OrderedMap<Entry>, locale: string): map<string, Entry>
    requires tm.Valid()
  {
    IndexByText(tm, locale, |tm.keys|)
  }

  method BuildTranslationMemoryByTextHash(tm: OrderedMap<Entry>, locale: string)
    returns (byTextHash: map<string, Entry>)
    requires tm.Valid()
    ensures byTextHash == ByText(tm, locale)
  {
    byTextHash := map[];
    for i := 0 to |tm.keys|
      invariant byTextHash == IndexByText(tm, locale, i)
    {
      var entry := tm.vals[tm.keys[i]];
      if entry.tgtLang != locale || entry.textHash == "" || IsBlank(entry.translated) {
        continue;
      }
      byTextHash := byTextHash[entry.textHash := entry];
    }
  }

  ghost predicate Known(vals: map<string, Entry>, locale: string, textHash: string) {
    exists c :: c in vals && Eligible(vals[c], locale) && vals[c].textHash == textHash
  }

  lemma {:induction false} IndexByTextExact(tm: OrderedMap<Entry>, locale: string, n: nat, textHash: string)
    requires tm.Valid() && n <= |tm.keys|
    ensures var index := IndexByText(tm, locale, n);
            && (textHash in index <==> exists i :: 0 <= i < n && Eligible(tm.vals[tm.keys[i]], locale)
                                                   && tm.vals[tm.keys[i]].textHash == textHash)
            && (textHash in index ==> Eligible(index[textHash], locale) && index[textHash].textHash == textHash)
  {
    if n > 0 {
      IndexByTextExact(tm, locale, n - 1, textHash);
    }
  }

  /** The reused entry is the last one of the locale with this hash and a text, in the order of the memory. */
  lemma {:induction false} IndexByTextLast(tm: OrderedMap<Entry>, locale: string, n: nat, textHash: string)
    returns (i: nat)
    requires tm.Valid() && n <= |tm.keys| && textHash in IndexByText(tm, locale, n)
    ensures i < n && tm.keys[i] in tm.vals && IndexByText(tm, locale, n)[textHash] == tm.vals[tm.keys[i]]
    ensures var e := tm.vals[tm.keys[i]]; e.tgtLang == locale && e.textHash == textHash && !IsBlank(e.translated)
    ensures forall j :: i < j < n ==>
                          var e := tm.vals[tm.keys[j]];
                          e.tgtLang != locale || e.textHash != textHash || textHash == "" || IsBlank(e.translated)
  {
    var e := tm.vals[tm.keys[n - 1]];
    if Eligible(e, locale) && e.textHash == textHash {
      i := n - 1;
    } else {
      i := IndexByTextLast(tm, locale, n - 1, textHash);
    }
  }

  /** A text can be reused exactly if some entry of this locale carries its hash. */
  lemma ByTextExact(tm: OrderedMap<Entry>, locale: string, textHash: string)
    requires tm.Valid()
    ensures textHash in ByText(tm, locale) <==> Known(tm.vals, locale, textHash)
    ensures textHash in ByText(tm, locale) ==>
              Eligible(ByText(tm, locale)[textHash], locale) && ByText(tm, locale)[textHash].textHash == textHash
  {
    IndexByTextExact(tm, locale, |tm.keys|, textHash);
    if Known(tm.vals, locale, textHash) {
      var c :| c in tm.vals && Eligible(tm.vals[c], locale) && tm.vals[c].textHash == textHash;
      assert c in tm.keys;
    }
  }
}
