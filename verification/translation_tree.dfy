/**
 The nested translation objects of the locale modules, their flattening to dotted keys, and the
 rebuilding of a nested object from dotted keys (openclaw/scripts/control-ui-i18n.ts).
 */
module TranslationTree {
  import opened Prelude

  // A translation object lists its properties in insertion order.
  datatype Tree = Leaf(text: string) | Branch(kids: Kids)
  datatype Kids = Nil | Cons(key: string, tree: Tree, rest: Kids)

  type Path = seq<string>

  /** `kids[key]` */
  function Lookup(kids: Kids, key: string): Option<Tree> {
    match kids
    case Nil => None
    case Cons(k, t, rest) => if k == key then Some(t) else Lookup(rest, key)
  }

  /** `kids[key] = tree` */
  function Assign(kids: Kids, key: string, tree: Tree): Kids {
    match kids
    case Nil => Cons(key, tree, Nil)
    case Cons(k, t, rest) => if k == key then Cons(k, tree, rest) else Cons(k, t, Assign(rest, key, tree))
  }

  /** No object has two properties of the same name. */
  ghost predicate Proper(kids: Kids) {
    match kids
    case Nil => true
    case Cons(k, t, rest) => Lookup(rest, k).None? && (t.Branch? ==> Proper(t.kids)) && Proper(rest)
  }

  /** The text found by following `path`, if it ends at a string. */
  function Get(kids: Kids, path: Path): Option<string>
    decreases |path|
  {
    if path == [] then None
    else
      match Lookup(kids, path[0])
      case None => None
      case Some(Leaf(s)) => if |path| == 1 then Some(s) else None
      case Some(Branch(sub)) => Get(sub, path[1..])
  }

  /** The object that the walk of setNestedValue enters at `key`: an existing object, or a new empty one. */
  function Enter(kids: Kids, key: string): Kids {
    match Lookup(kids, key)
    case Some(Branch(sub)) => sub
    case _ => Nil
  }

  /** The effect of setNestedValue on a whole object. */
  function SetPath(kids: Kids, path: Path, value: string): Kids
    requires path != []
    decreases |path|
  {
    if |path| == 1 then Assign(kids, path[0], Leaf(value))
    else Assign(kids, path[0], Branch(SetPath(Enter(kids, path[0]), path[1..], value)))
  }

  lemma {:induction false} LookupAssign(kids: Kids, key: string, tree: Tree, other: string)
    ensures Lookup(Assign(kids, key, tree), other) == if other == key then Some(tree) else Lookup(kids, other)
  {
    if kids.Cons? {
      LookupAssign(kids.rest, key, tree, other);
    }
  }

  lemma {:induction false} AssignProper(kids: Kids, key: string, tree: Tree)
    requires Proper(kids) && (tree.Branch? ==> Proper(tree.kids))
    ensures Proper(Assign(kids, key, tree))
  {
    if kids.Cons? {
      AssignProper(kids.rest, key, tree);
      LookupAssign(kids.rest, key, tree, kids.key);
    }
  }

  lemma {:induction false} LookupProper(kids: Kids, key: string)
    requires Proper(kids)
    ensures Proper(Enter(kids, key))
  {
    if kids.Cons? && kids.key != key {
      LookupProper(kids.rest, key);
    }
  }

  lemma {:induction false} SetPathProper(kids: Kids, path: Path, value: string)
    requires path != [] && Proper(kids)
    ensures Proper(SetPath(kids, path, value))
    decreases |path|
  {
    if |path| == 1 {
      AssignProper(kids, path[0], Leaf(value));
    } else {
      LookupProper(kids, path[0]);
      SetPathProper(Enter(kids, path[0]), path[1..], value);
      AssignProper(kids, path[0], Branch(SetPath(Enter(kids, path[0]), path[1..], value)));
    }
  }

  /** Writing at `path` sets that text, removes the texts above and below it, and keeps all others. */
  lemma {:induction false} GetSetPath(kids: Kids, path: Path, value: string, other: Path)
    requires path != []
    ensures Get(SetPath(kids, path, value), other) ==
            if other == path then Some(value)
            else if path <= other || other <= path then None
            else Get(kids, other)
    decreases |path|
  {
    if other != [] {
      var after := SetPath(kids, path, value);
      if |path| == 1 {
        LookupAssign(kids, path[0], Leaf(value), other[0]);
      } else {
        var sub := SetPath(Enter(kids, path[0]), path[1..], value);
        LookupAssign(kids, path[0], Branch(sub), other[0]);
        if other[0] == path[0] {
          GetSetPath(Enter(kids, path[0]), path[1..], value, other[1..]);
          assert other == path <==> other[1..] == path[1..];
          assert path <= other <==> path[1..] <= other[1..];
          assert other <= path <==> other[1..] <= path[1..];
        }
      }
    }
  }

  /** In any object, no text lies on the way to another text. */
  lemma {:induction false} TextPathsPrefixFree(kids: Kids, p: Path, q: Path)
    requires Get(kids, p).Some? && Get(kids, q).Some? && p <= q
    ensures p == q
    decreases |p|
  {
    if |p| > 1 {
      TextPathsPrefixFree(Enter(kids, p[0]), p[1..], q[1..]);
      assert p == [p[0]] + p[1..] && q == [q[0]] + q[1..];
    } else {
      assert p == [p[0]] && q[0] == p[0];
    }
  }

  // ---------- Dotted keys ----------

  /** A character read before some segments. */
  function Prepend(c: char, segments: Path): Path
    requires segments != []
  {
    if c == '.' then [""] + segments else [[c] + segments[0]] + segments[1..]
  }

  function Split(s: string): (segments: Path)
    ensures segments != []
  {
    if s == "" then [""] else Prepend(s[0], Split(s[1..]))
  }

  /** The key that flattenTranslations builds for `path` below `prefix`. */
  function FullKey(prefix: string, path: Path): string
    decreases |path|
  {
    if path == [] then prefix
    else FullKey(if prefix != "" then prefix + "." + path[0] else path[0], path[1..])
  }

  predicate DotFree(s: string) {
    '.' !in s
  }

  ghost predicate DotFreePath(path: Path) {
    forall i :: 0 <= i < |path| ==> DotFree(path[i])
  }

  lemma {:induction false} SplitDotFree(s: string)
    ensures DotFreePath(Split(s))
  {
    if s != "" {
      SplitDotFree(s[1..]);
    }
  }

  lemma {:induction false} SplitFirst(s: string)
    ensures Split(s)[0] == "" <==> s == "" || s[0] == '.'
    ensures s == "" ==> Split(s) == [""]
  {
  }

  lemma {:induction false} FullKeyFromPrefix(prefix: string, s: string)
    requires prefix != ""
    ensures FullKey(prefix, Split(s)) == prefix + "." + s
    decreases |s|, 1
  {
    FullKeySplit(prefix, "", s);
    SameFirst(Split(s));
  }

  lemma SameFirst(path: Path)
    requires path != []
    ensures ["" + path[0]] + path[1..] == path
  {
    assert "" + path[0] == path[0];
  }

  // Reading `s` while the segment being read already holds `head`.
  lemma {:induction false} FullKeySplit(prefix: string, head: string, s: string)
    requires prefix != ""
    ensures FullKey(prefix, [head + Split(s)[0]] + Split(s)[1..]) == prefix + "." + head + s
    decreases |s|, 0
  {
    var segments := Split(s);
    var path := [head + segments[0]] + segments[1..];
    assert head + "" == head;
    if s == "" {
      assert path == [head] && path[1..] == [];
    } else if s[0] == '.' {
      var next := prefix + "." + head;
      assert path[1..] == Split(s[1..]);
      FullKeyFromPrefix(next, s[1..]);
      assert next + "." + s[1..] == prefix + "." + head + s;
    } else {
      var tail := Split(s[1..]);
      FullKeySplit(prefix, head + [s[0]], s[1..]);
      assert (head + [s[0]]) + tail[0] == head + ([s[0]] + tail[0]);
      assert prefix + "." + (head + [s[0]]) + s[1..] == prefix + "." + head + s;
    }
  }

  predicate StartsWithDot(s: string) {
    s != "" && s[0] == '.'
  }

  /** Splitting a key and walking its segments spells the key again, unless it starts with a dot. */
  lemma {:induction false} SplitThenFullKey(s: string)
    requires !StartsWithDot(s)
    ensures FullKey("", Split(s)) == s
  {
    if s != "" {
      var tail := Split(s[1..]);
      HeadFullKey([s[0]], s[1..]);
    }
  }

  lemma {:induction false} HeadFullKey(head: string, s: string)
    requires head != ""
    ensures FullKey("", [head + Split(s)[0]] + Split(s)[1..]) == head + s
    decreases |s|
  {
    var segments := Split(s);
    var path := [head + segments[0]] + segments[1..];
    assert head + "" == head;
    if s == "" {
      assert path == [head] && path[1..] == [];
    } else if s[0] == '.' {
      assert path[1..] == Split(s[1..]);
      FullKeyFromPrefix(head, s[1..]);
      assert head + "." + s[1..] == head + s;
    } else {
      var tail := Split(s[1..]);
      HeadFullKey(head + [s[0]], s[1..]);
      assert (head + [s[0]]) + tail[0] == head + ([s[0]] + tail[0]);
      assert head + [s[0]] + s[1..] == head + s;
    }
  }

  lemma {:induction false} FullKeyNoLeadingDot(prefix: string, path: Path)
    requires DotFreePath(path) && !StartsWithDot(prefix)
    ensures !StartsWithDot(FullKey(prefix, path))
    decreases |path|
  {
    if path != [] {
      FullKeyNoLeadingDot(if prefix != "" then prefix + "." + path[0] else path[0], path[1..]);
    }
  }

  lemma PrependToFirst(c: char, a: Path, b: Path)
    requires a != []
    ensures Prepend(c, a + b) == Prepend(c, a) + b
  {
    assert (a + b)[0] == a[0] && (a + b)[1..] == a[1..] + b;
  }

  lemma {:induction false} SplitAppend(a: string, b: string)
    ensures Split(a + "." + b) == Split(a) + Split(b)
    decreases |a|
  {
    var s := a + "." + b;
    if a == "" {
      assert s[0] == '.' && s[1..] == b;
    } else {
      var tail := Split(a[1..]);
      SplitAppend(a[1..], b);
      assert s[0] == a[0] && s[1..] == a[1..] + "." + b;
      PrependToFirst(a[0], tail, Split(b));
    }
  }

  lemma {:induction false} SplitSegment(s: string)
    requires DotFree(s)
    ensures Split(s) == [s]
  {
    if s != "" {
      SplitSegment(s[1..]);
      assert [s[0]] + s[1..] == s;
    }
  }

  lemma {:induction false} SplitFullKey(prefix: string, path: Path)
    requires prefix != "" && WellNamedPath(path)
    ensures Split(FullKey(prefix, path)) == Split(prefix) + path
    decreases |path|
  {
    if path != [] {
      var next := prefix + "." + path[0];
      SplitFullKey(next, path[1..]);
      SplitAppend(prefix, path[0]);
      SplitSegment(path[0]);
      assert path == [path[0]] + path[1..];
    } else {
      assert Split(prefix) + [] == Split(prefix);
    }
  }

  /** Two keys that both start with a character of a segment. */
  lemma {:induction false} SplitPrefixWithin(j: string, k: string)
    requires j != "" && k != "" && j[0] != '.' && k[0] != '.'
    ensures Split(j) <= Split(k) <==> j[0] == k[0] && Split(j[1..]) <= Split(k[1..])
  {
    var tj, tk := Split(j[1..]), Split(k[1..]);
    assert Split(j)[0] == [j[0]] + tj[0] && Split(k)[0] == [k[0]] + tk[0];
    assert Split(j)[0][1..] == tj[0] && Split(k)[0][1..] == tk[0];
    assert Split(j)[1..] == tj[1..] && Split(k)[1..] == tk[1..];
    if j[0] == k[0] && tj <= tk {
      assert Split(j)[0] == Split(k)[0];
      assert Split(j) <= Split(k);
    }
    if Split(j) <= Split(k) {
      assert Split(j)[0] == Split(k)[0] && tj[0] == tk[0];
      assert tj == [tj[0]] + tj[1..] && tk == [tk[0]] + tk[1..];
      assert tj <= tk;
    }
  }

  /** One key's segments begin another's exactly if the other key continues it after a dot. */
  lemma {:induction false} SplitPrefix(j: string, k: string)
    ensures Split(j) <= Split(k) <==> j == k || j + "." <= k
    decreases |j|
  {
    if j == "" {
      SplitFirst(k);
      assert Split(j) == [""];
      assert Split(j) <= Split(k) <==> Split(k)[0] == "";
    } else if k == "" {
      SplitFirst(j);
      assert Split(k) == [""];
      assert j[0] == '.' ==> |Split(j)| > 1;
    } else {
      SplitPrefix(j[1..], k[1..]);
      if j[0] == k[0] == '.' {
        assert Split(j)[1..] == Split(j[1..]) && Split(k)[1..] == Split(k[1..]);
        assert Split(j) <= Split(k) <==> Split(j[1..]) <= Split(k[1..]);
      } else if j[0] == '.' || k[0] == '.' {
        SplitFirst(j);
        SplitFirst(k);
      } else {
        SplitPrefixWithin(j, k);
      }
      assert j == [j[0]] + j[1..] && k == [k[0]] + k[1..];
      assert j + "." == [j[0]] + (j[1..] + ".");
      assert j + "." <= k <==> j[0] == k[0] && j[1..] + "." <= k[1..];
    }
  }

  // ---------- Flattening ----------

  /** flattenTranslations: fills `out` with every text, under its dotted key. */
  function Flatten(kids: Kids, prefix: string, out: OrderedMap<string>): OrderedMap<string> {
    match kids
    case Nil => out
    case Cons(k, t, rest) =>
      var full := if prefix != "" then prefix + "." + k else k;
      var out' :=
        match t
        case Leaf(s) => out.Put(full, s)
        case Branch(sub) => Flatten(sub, full, out);
      Flatten(rest, prefix, out')
  }

  lemma {:induction false} FlattenKeeps(kids: Kids, prefix: string, out: OrderedMap<string>)
    requires out.Valid()
    ensures Flatten(kids, prefix, out).Valid()
    ensures out.vals.Keys <= Flatten(kids, prefix, out).vals.Keys
  {
    match kids
    case Nil =>
    case Cons(k, t, rest) =>
      var full := if prefix != "" then prefix + "." + k else k;
      match t {
        case Leaf(s) =>
          out.PutValid(full, s);
          FlattenKeeps(rest, prefix, out.Put(full, s));
        case Branch(sub) =>
          FlattenKeeps(sub, full, out);
          FlattenKeeps(rest, prefix, Flatten(sub, full, out));
      }
  }

  /** Every text is listed. */
  lemma {:induction false} FlattenCovers(kids: Kids, prefix: string, out: OrderedMap<string>, path: Path)
    requires out.Valid() && Get(kids, path).Some?
    ensures FullKey(prefix, path) in Flatten(kids, prefix, out).vals
  {
    var Cons(k, t, rest) := kids;
    var full := if prefix != "" then prefix + "." + k else k;
    if path[0] == k {
      match t
      case Leaf(s) =>
        assert path[1..] == [];
        out.PutValid(full, s);
        FlattenKeeps(rest, prefix, out.Put(full, s));
      case Branch(sub) =>
        FlattenCovers(sub, full, out, path[1..]);
        FlattenKeeps(sub, full, out);
        FlattenKeeps(rest, prefix, Flatten(sub, full, out));
    } else {
      match t {
        case Leaf(s) => out.PutValid(full, s);
        case Branch(sub) => FlattenKeeps(sub, full, out);
      }
      var out' := match t case Leaf(s) => out.Put(full, s) case Branch(sub) => Flatten(sub, full, out);
      assert Lookup(kids, path[0]) == Lookup(rest, path[0]);
      FlattenCovers(rest, prefix, out', path);
    }
  }

  /** Every listed text comes from the object (`path` leads to it) or was listed before (`path` is empty). */
  lemma {:induction false} FlattenOrigin(kids: Kids, prefix: string, out: OrderedMap<string>, key: string)
    returns (path: Path)
    requires Proper(kids) && key in Flatten(kids, prefix, out).vals
    ensures var text := Flatten(kids, prefix, out).vals[key];
            if path == [] then key in out.vals && out.vals[key] == text
            else Get(kids, path) == Some(text) && FullKey(prefix, path) == key
  {
    match kids
    case Nil => path := [];
    case Cons(k, t, rest) =>
      var full := if prefix != "" then prefix + "." + k else k;
      var out' := match t case Leaf(s) => out.Put(full, s) case Branch(sub) => Flatten(sub, full, out);
      path := FlattenOrigin(rest, prefix, out', key);
      if path != [] {
        assert Lookup(kids, path[0]) == Lookup(rest, path[0]);
      } else {
        match t {
          case Leaf(s) =>
            if key == full {
              path := [k];
              assert path[1..] == [];
            }
          case Branch(sub) =>
            var below := FlattenOrigin(sub, full, out, key);
            if below != [] {
              path := [k] + below;
              assert path[1..] == below;
            }
        }
      }
  }

  // ---------- Rebuilding ----------

  /** The object that syncLocale builds by setting each key in turn. */
  function Rebuild(keys: seq<string>, values: map<string, string>): Kids
    requires forall k :: k in keys ==> k in values
  {
    if keys == [] then Nil
    else
      var last := keys[|keys| - 1];
      SetPath(Rebuild(keys[..|keys| - 1], values), Split(last), values[last])
  }

  lemma {:induction false} RebuildProper(keys: seq<string>, values: map<string, string>)
    requires forall k :: k in keys ==> k in values
    ensures Proper(Rebuild(keys, values))
  {
    if keys != [] {
      var init := keys[..|keys| - 1];
      RebuildProper(init, values);
      SetPathProper(Rebuild(init, values), Split(keys[|keys| - 1]), values[keys[|keys| - 1]]);
    }
  }

  /** Every text of the rebuilt object is the value of the key that spells its path. */
  lemma {:induction false} RebuildOrigin(keys: seq<string>, values: map<string, string>, path: Path)
    returns (key: string)
    requires forall k :: k in keys ==> k in values
    requires Get(Rebuild(keys, values), path).Some?
    ensures key in keys && Split(key) == path && Get(Rebuild(keys, values), path) == Some(values[key])
  {
    var init, last := keys[..|keys| - 1], keys[|keys| - 1];
    GetSetPath(Rebuild(init, values), Split(last), values[last], path);
    if Split(last) == path {
      key := last;
    } else {
      key := RebuildOrigin(init, values, path);
    }
  }

  /** The keys that a nested object can hold side by side. */
  ghost predicate Nestable(keys: seq<string>) {
    && (forall k :: k in keys ==> !StartsWithDot(k))
    && (forall j, k :: j in keys && k in keys ==> !(j + "." <= k))
  }

  /** No write of the rebuilding destroys an earlier one. */
  lemma {:induction false} RebuildHolds(keys: seq<string>, values: map<string, string>, key: string)
    requires forall k :: k in keys ==> k in values
    requires Distinct(keys) && Nestable(keys) && key in keys
    ensures Get(Rebuild(keys, values), Split(key)) == Some(values[key])
  {
    var init, last := keys[..|keys| - 1], keys[|keys| - 1];
    GetSetPath(Rebuild(init, values), Split(last), values[last], Split(key));
    assert keys == init + [last];
    assert last in keys;
    SplitPrefix(key, last);
    SplitPrefix(last, key);
    if key != last {
      assert key in init;
      assert forall k :: k in init ==> k in keys;
      RebuildHolds(init, values, key);
      assert !(Split(key) <= Split(last)) && !(Split(last) <= Split(key));
    }
  }

  /** Flattening the rebuilt object gives the list back exactly if the keys can be nested side by side. */
  lemma RebuildRoundTrip(flat: OrderedMap<string>)
    requires flat.Valid()
    ensures Flatten(Rebuild(flat.keys, flat.vals), "", EmptyMap()).vals == flat.vals <==> Nestable(flat.keys)
  {
    if Nestable(flat.keys) {
      NestableRoundTrip(flat);
    }
    if Flatten(Rebuild(flat.keys, flat.vals), "", EmptyMap()).vals == flat.vals {
      SurvivingNestable(flat);
    }
  }

  /** Every key is still listed after rebuilding exactly if the keys can be nested side by side. */
  lemma KeysSurvive(flat: OrderedMap<string>)
    requires flat.Valid()
    ensures flat.vals.Keys <= Flatten(Rebuild(flat.keys, flat.vals), "", EmptyMap()).vals.Keys <==> Nestable(flat.keys)
  {
    if Nestable(flat.keys) {
      NestableRoundTrip(flat);
    }
    if flat.vals.Keys <= Flatten(Rebuild(flat.keys, flat.vals), "", EmptyMap()).vals.Keys {
      SurvivingNestable(flat);
    }
  }

  lemma NestableRoundTrip(flat: OrderedMap<string>)
    requires flat.Valid() && Nestable(flat.keys)
    ensures Flatten(Rebuild(flat.keys, flat.vals), "", EmptyMap()).vals == flat.vals
  {
    var kids := Rebuild(flat.keys, flat.vals);
    var again := Flatten(kids, "", EmptyMap()).vals;
    RebuildProper(flat.keys, flat.vals);
    forall key | key in again
      ensures key in flat.vals && again[key] == flat.vals[key]
    {
      var path := FlattenOrigin(kids, "", EmptyMap(), key);
      var origin := RebuildOrigin(flat.keys, flat.vals, path);
      SplitThenFullKey(origin);
    }
    forall key | key in flat.vals
      ensures key in again
    {
      RebuildHolds(flat.keys, flat.vals, key);
      FlattenCovers(kids, "", EmptyMap(), Split(key));
      SplitThenFullKey(key);
    }
  }

  lemma SurvivingNestable(flat: OrderedMap<string>)
    requires flat.Valid()
    requires flat.vals.Keys <= Flatten(Rebuild(flat.keys, flat.vals), "", EmptyMap()).vals.Keys
    ensures Nestable(flat.keys)
  {
    var kids := Rebuild(flat.keys, flat.vals);
    RebuildProper(flat.keys, flat.vals);
    forall k | k in flat.keys
      ensures !StartsWithDot(k) && Get(kids, Split(k)).Some?
    {
      var path := FlattenOrigin(kids, "", EmptyMap(), k);
      var origin := RebuildOrigin(flat.keys, flat.vals, path);
      SplitDotFree(origin);
      FullKeyNoLeadingDot("", path);
      if !StartsWithDot(origin) {
        SplitThenFullKey(origin);
      } else {
        var path' := FlattenOrigin(kids, "", EmptyMap(), origin);
        var origin' := RebuildOrigin(flat.keys, flat.vals, path');
        SplitDotFree(origin');
        FullKeyNoLeadingDot("", path');
      }
    }
    forall j, k | j in flat.keys && k in flat.keys
      ensures !(j + "." <= k)
    {
      SplitPrefix(j, k);
      if j + "." <= k {
        TextPathsPrefixFree(kids, Split(j), Split(k));
        SplitThenFullKey(j);
        SplitThenFullKey(k);
      }
    }
  }

  // ---------- Keys that cannot all be held ----------

  /** One of the keys continues the other after a dot. */
  predicate Related(j: string, k: string) {
    j + "." <= k || k + "." <= j
  }

  /** No key after this one is related to it. */
  predicate Held(keys: seq<string>, key: string) {
    keys != [] &&
    var last := keys[|keys| - 1];
    key == last || (Held(keys[..|keys| - 1], key) && !Related(key, last))
  }

  /** The rebuilt object holds a key's text exactly if no later write destroys it; otherwise nothing is there. */
  lemma {:induction false} HeldExactly(keys: seq<string>, values: map<string, string>, key: string)
    requires (forall k :: k in keys ==> k in values) && key in keys
    ensures Get(Rebuild(keys, values), Split(key)) == if Held(keys, key) then Some(values[key]) else None
  {
    var init, last := keys[..|keys| - 1], keys[|keys| - 1];
    GetSetPath(Rebuild(init, values), Split(last), values[last], Split(key));
    assert keys == init + [last];
    SplitPrefix(key, last);
    SplitPrefix(last, key);
    if key == last {
    } else {
      assert key in init;
      HeldExactly(init, values, key);
      SplitApart(key, last);
    }
  }

  lemma {:induction false} SplitApart(j: string, k: string)
    requires j != k
    ensures Split(j) != Split(k)
  {
    SplitPrefix(j, k);
    SplitPrefix(k, j);
  }

  /** An object without its texts. */
  function Blank(kids: Kids): Kids {
    match kids
    case Nil => Nil
    case Cons(k, t, rest) => Cons(k, BlankTree(t), Blank(rest))
  }

  function BlankTree(t: Tree): Tree {
    match t
    case Leaf(_) => Leaf("")
    case Branch(sub) => Branch(Blank(sub))
  }

  lemma {:induction false} BlankAssign(a: Kids, b: Kids, key: string, t: Tree, u: Tree)
    requires Blank(a) == Blank(b) && BlankTree(t) == BlankTree(u)
    ensures Blank(Assign(a, key, t)) == Blank(Assign(b, key, u))
  {
    match a
    case Nil =>
    case Cons(k, _, rest) =>
      if k != key {
        BlankAssign(rest, b.rest, key, t, u);
      }
  }

  lemma {:induction false} BlankEnter(a: Kids, b: Kids, key: string)
    requires Blank(a) == Blank(b)
    ensures Blank(Enter(a, key)) == Blank(Enter(b, key))
  {
    match a
    case Nil =>
    case Cons(k, _, rest) =>
      if k != key {
        BlankEnter(rest, b.rest, key);
      }
  }

  lemma {:induction false} BlankSetPath(a: Kids, b: Kids, path: Path, s: string, t: string)
    requires path != [] && Blank(a) == Blank(b)
    ensures Blank(SetPath(a, path, s)) == Blank(SetPath(b, path, t))
    decreases |path|
  {
    if |path| == 1 {
      BlankAssign(a, b, path[0], Leaf(s), Leaf(t));
    } else {
      BlankEnter(a, b, path[0]);
      BlankSetPath(Enter(a, path[0]), Enter(b, path[0]), path[1..], s, t);
      BlankAssign(a, b, path[0], Branch(SetPath(Enter(a, path[0]), path[1..], s)),
                  Branch(SetPath(Enter(b, path[0]), path[1..], t)));
    }
  }

  /** What names there are, and in which order, does not depend on the texts. */
  lemma {:induction false} BlankRebuild(keys: seq<string>, a: map<string, string>, b: map<string, string>)
    requires forall k :: k in keys ==> k in a && k in b
    ensures Blank(Rebuild(keys, a)) == Blank(Rebuild(keys, b))
  {
    if keys != [] {
      var init, last := keys[..|keys| - 1], keys[|keys| - 1];
      BlankRebuild(init, a, b);
      BlankSetPath(Rebuild(init, a), Rebuild(init, b), Split(last), a[last], b[last]);
    }
  }

  /** Two objects with the same names and the same text at every path are the same. */
  lemma {:induction false} SameTexts(a: Kids, b: Kids)
    requires Proper(a) && Proper(b) && Blank(a) == Blank(b) && forall path :: Get(a, path) == Get(b, path)
    ensures a == b
  {
    match a
    case Nil =>
    case Cons(k, t, rest) =>
      forall path
        ensures Get(rest, path) == Get(b.rest, path)
      {
        if path != [] && path[0] != k {
          assert Get(a, path) == Get(b, path);
          assert Lookup(a, path[0]) == Lookup(rest, path[0]) && Lookup(b, path[0]) == Lookup(b.rest, path[0]);
        }
      }
      SameTexts(rest, b.rest);
      assert Get(a, [k]) == Get(b, [k]);
      if t.Branch? {
        forall path
          ensures Get(t.kids, path) == Get(b.tree.kids, path)
        {
          if path != [] {
            assert Get(a, [k] + path) == Get(b, [k] + path) && ([k] + path)[1..] == path;
          }
        }
        SameTexts(t.kids, b.tree.kids);
      }
  }

  /** Rebuilding from other texts gives the same object exactly if the keys that are held have the same texts. */
  lemma {:induction false} RebuildSame(keys: seq<string>, a: map<string, string>, b: map<string, string>)
    requires forall k :: k in keys ==> k in a && k in b
    ensures Rebuild(keys, a) == Rebuild(keys, b) <==> forall k :: k in keys && Held(keys, k) ==> a[k] == b[k]
  {
    forall k | k in keys
      ensures Rebuild(keys, a) == Rebuild(keys, b) ==> (Held(keys, k) ==> a[k] == b[k])
    {
      HeldExactly(keys, a, k);
      HeldExactly(keys, b, k);
    }
    if forall k :: k in keys && Held(keys, k) ==> a[k] == b[k] {
      RebuildProper(keys, a);
      RebuildProper(keys, b);
      BlankRebuild(keys, a, b);
      forall path
        ensures Get(Rebuild(keys, a), path) == Get(Rebuild(keys, b), path)
      {
        SameTextAt(keys, a, b, path);
        SameTextAt(keys, b, a, path);
      }
      SameTexts(Rebuild(keys, a), Rebuild(keys, b));
    }
  }

  lemma {:induction false} SameTextAt(keys: seq<string>, a: map<string, string>, b: map<string, string>, path: Path)
    requires forall k :: k in keys ==> k in a && k in b
    requires forall k :: k in keys && Held(keys, k) ==> a[k] == b[k]
    ensures Get(Rebuild(keys, a), path).Some? ==> Get(Rebuild(keys, a), path) == Get(Rebuild(keys, b), path)
  {
    if Get(Rebuild(keys, a), path).Some? {
      var key := RebuildOrigin(keys, a, path);
      HeldExactly(keys, a, key);
      HeldExactly(keys, b, key);
    }
  }

  /** Without leading dots, the rebuilt object lists exactly the keys that are held, each with its text. */
  lemma {:induction false} DotlessListed(flat: OrderedMap<string>, key: string)
    requires flat.Valid() && (forall k :: k in flat.keys ==> !StartsWithDot(k)) && key in flat.keys
    ensures var again := Flatten(Rebuild(flat.keys, flat.vals), "", EmptyMap()).vals;
            && (key in again <==> Held(flat.keys, key))
            && (key in again ==> again[key] == flat.vals[key])
  {
    var kids := Rebuild(flat.keys, flat.vals);
    var again := Flatten(kids, "", EmptyMap()).vals;
    RebuildProper(flat.keys, flat.vals);
    HeldExactly(flat.keys, flat.vals, key);
    SplitThenFullKey(key);
    if key in again {
      var path := FlattenOrigin(kids, "", EmptyMap(), key);
      var origin := RebuildOrigin(flat.keys, flat.vals, path);
      SplitThenFullKey(origin);
    }
    if Held(flat.keys, key) {
      FlattenCovers(kids, "", EmptyMap(), Split(key));
    }
  }

  // ---------- Which objects qualify ----------

  predicate WellNamedSegment(s: string) {
    s != "" && DotFree(s)
  }

  ghost predicate WellNamedPath(path: Path) {
    forall i :: 0 <= i < |path| ==> WellNamedSegment(path[i])
  }

  /** Every property name, at every depth, is a non-empty name without a dot. */
  predicate WellNamed(kids: Kids) {
    match kids
    case Nil => true
    case Cons(k, t, rest) => WellNamedSegment(k) && (t.Branch? ==> WellNamed(t.kids)) && WellNamed(rest)
  }

  lemma {:induction false} WellNamedText(kids: Kids, path: Path)
    requires WellNamed(kids) && Get(kids, path).Some?
    ensures WellNamedPath(path)
    decreases kids
  {
    var Cons(k, t, rest) := kids;
    if path[0] == k {
      match t
      case Leaf(s) => assert |path| == 1;
      case Branch(sub) =>
        WellNamedText(sub, path[1..]);
        assert path == [k] + path[1..];
    } else {
      assert Lookup(kids, path[0]) == Lookup(rest, path[0]);
      WellNamedText(rest, path);
    }
  }

  /** A well-named object always flattens to keys that can be nested again, whatever their new values. */
  lemma {:induction false} WellNamedFlattensNestable(kids: Kids)
    requires Proper(kids) && WellNamed(kids)
    ensures Flatten(kids, "", EmptyMap()).Valid() && Nestable(Flatten(kids, "", EmptyMap()).keys)
  {
    FlattenKeeps(kids, "", EmptyMap());
    var flat := Flatten(kids, "", EmptyMap());
    forall j, k | j in flat.keys && k in flat.keys
      ensures !StartsWithDot(k) && !(j + "." <= k)
    {
      var p := KeyPath(kids, j);
      var q := KeyPath(kids, k);
      SplitFirst(k);
      SplitPrefix(j, k);
      if j + "." <= k {
        TextPathsPrefixFree(kids, p, q);
      }
    }
  }

  lemma KeyPath(kids: Kids, key: string) returns (path: Path)
    requires Proper(kids) && WellNamed(kids) && key in Flatten(kids, "", EmptyMap()).vals
    ensures WellNamedPath(path) && Get(kids, path).Some? && Split(key) == path && FullKey("", path) == key
  {
    path := FlattenOrigin(kids, "", EmptyMap(), key);
    WellNamedText(kids, path);
    SplitFullKey(path[0], path[1..]);
    SplitSegment(path[0]);
    assert path == [path[0]] + path[1..];
  }
}
