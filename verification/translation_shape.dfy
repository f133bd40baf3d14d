/**
 Rebuilding a translation object from its flattened keys, with any new texts, gives the same object
 again: the same names in the same order at every depth (openclaw/scripts/control-ui-i18n.ts).
 */
module TranslationShape {
  import opened Prelude
  import opened TranslationTree

  predicate Proceeding(paths: seq<Path>) {
    forall i :: 0 <= i < |paths| ==> paths[i] != []
  }

  /** The paths of the texts of an object, in order. */
  function TextPaths(kids: Kids): (paths: seq<Path>)
    ensures Proceeding(paths)
  {
    match kids
    case Nil => []
    case Cons(k, t, rest) =>
      (match t case Leaf(_) => [[k]] case Branch(sub) => Below(k, TextPaths(sub))) + TextPaths(rest)
  }

  function Below(key: string, paths: seq<Path>): (below: seq<Path>)
    ensures |below| == |paths| && forall i :: 0 <= i < |paths| ==> below[i] == [key] + paths[i]
  {
    seq(|paths|, i requires 0 <= i < |paths| => [key] + paths[i])
  }

  /** The same object with the text at each path given by `text`, and without the objects that hold no text. */
  function Retext(kids: Kids, text: Path -> string): Kids {
    match kids
    case Nil => Nil
    case Cons(k, Leaf(_), rest) => Cons(k, Leaf(text([k])), Retext(rest, text))
    case Cons(k, Branch(sub), rest) =>
      var inner := Retext(sub, p => text([k] + p));
      if inner == Nil then Retext(rest, text) else Cons(k, Branch(inner), Retext(rest, text))
  }

  /** Every object within the object holds some property. */
  predicate NoneEmpty(kids: Kids) {
    match kids
    case Nil => true
    case Cons(_, t, rest) => (t.Branch? ==> t.kids.Cons? && NoneEmpty(t.kids)) && NoneEmpty(rest)
  }

  /** With its own texts, and no empty objects within it, the object is the same. */
  lemma {:induction false} RetextSame(kids: Kids, text: Path -> string)
    requires Proper(kids) && NoneEmpty(kids)
    requires forall p :: Get(kids, p).Some? ==> text(p) == Get(kids, p).value
    ensures Retext(kids, text) == kids
  {
    match kids
    case Nil =>
    case Cons(k, t, rest) =>
      forall p | Get(rest, p).Some?
        ensures text(p) == Get(rest, p).value
      {
        assert Get(kids, p) == Get(rest, p);
      }
      RetextSame(rest, text);
      match t {
        case Leaf(s) =>
          assert [k][1..] == [] && Get(kids, [k]) == Some(s);
        case Branch(sub) =>
          forall p | Get(sub, p).Some?
            ensures text([k] + p) == Get(sub, p).value
          {
            assert ([k] + p)[1..] == p && Get(kids, [k] + p) == Get(sub, p);
          }
          RetextSame(sub, p => text([k] + p));
      }
  }

  // ---------- Setting the paths of an object in order ----------

  function SetAll(base: Kids, paths: seq<Path>, text: Path -> string): Kids
    requires Proceeding(paths)
  {
    if paths == [] then base
    else
      var last := paths[|paths| - 1];
      SetPath(SetAll(base, paths[..|paths| - 1], text), last, text(last))
  }

  lemma {:induction false} SetAllPlus(base: Kids, a: seq<Path>, b: seq<Path>, text: Path -> string)
    requires Proceeding(a) && Proceeding(b) && Proceeding(a + b)
    ensures SetAll(base, a + b, text) == SetAll(SetAll(base, a, text), b, text)
  {
    if b == [] {
      assert a + b == a;
    } else {
      assert (a + b)[..|a + b| - 1] == a + b[..|b| - 1];
      SetAllPlus(base, a, b[..|b| - 1], text);
    }
  }

  function Join(a: Kids, b: Kids): Kids {
    match a
    case Nil => b
    case Cons(k, t, rest) => Cons(k, t, Join(rest, b))
  }

  lemma {:induction false} JoinLookup(a: Kids, b: Kids, key: string)
    ensures Lookup(Join(a, b), key) == if Lookup(a, key).Some? then Lookup(a, key) else Lookup(b, key)
  {
    if a.Cons? {
      JoinLookup(a.rest, b, key);
    }
  }

  lemma {:induction false} JoinAssoc(a: Kids, b: Kids, c: Kids)
    ensures Join(Join(a, b), c) == Join(a, Join(b, c)) && Join(a, Nil) == a
  {
    if a.Cons? {
      JoinAssoc(a.rest, b, c);
    }
  }

  lemma {:induction false} AssignEnd(base: Kids, key: string, end: Kids, tree: Tree)
    requires Lookup(base, key).None?
    ensures Assign(Join(base, end), key, tree) == Join(base, Assign(end, key, tree))
  {
    if base.Cons? {
      AssignEnd(base.rest, key, end, tree);
    }
  }

  /** Paths below a new name make up a new object at the end, or nothing if there are none. */
  lemma {:induction false} SetAllBelow(base: Kids, key: string, paths: seq<Path>, text: Path -> string)
    requires Lookup(base, key).None? && Proceeding(paths)
    ensures SetAll(base, Below(key, paths), text) ==
            if paths == [] then base
            else Join(base, Cons(key, Branch(SetAll(Nil, paths, p => text([key] + p))), Nil))
  {
    if paths != [] {
      var init, last := paths[..|paths| - 1], paths[|paths| - 1];
      assert Below(key, paths)[..|paths| - 1] == Below(key, init);
      SetAllBelow(base, key, init, text);
      var path := [key] + last;
      assert path[1..] == last;
      JoinAssoc(base, Nil, Nil);
      if init == [] {
        AssignEnd(base, key, Nil, Branch(SetPath(Nil, last, text(path))));
        JoinLookup(base, Nil, key);
      } else {
        var inner := SetAll(Nil, init, p => text([key] + p));
        JoinLookup(base, Cons(key, Branch(inner), Nil), key);
        AssignEnd(base, key, Cons(key, Branch(inner), Nil), Branch(SetPath(inner, last, text(path))));
      }
    }
  }

  predicate Apart(a: Kids, b: Kids) {
    match b
    case Nil => true
    case Cons(k, _, rest) => Lookup(a, k).None? && Apart(a, rest)
  }

  lemma {:induction false} ApartPlus(a: Kids, one: Kids, b: Kids)
    requires Apart(a, b) && one.Cons? && one.rest.Nil? && Lookup(b, one.key).None?
    ensures Apart(Join(a, one), b)
  {
    if b.Cons? {
      JoinLookup(a, one, b.key);
      ApartPlus(a, one, b.rest);
    }
  }

  /** Setting the paths of an object in order puts its names, in order, after the names there are. */
  lemma {:induction false} SetAllRetexts(base: Kids, kids: Kids, text: Path -> string)
    requires Proper(kids) && Apart(base, kids)
    ensures SetAll(base, TextPaths(kids), text) == Join(base, Retext(kids, text))
    ensures TextPaths(kids) == [] <==> Retext(kids, text) == Nil
    decreases kids
  {
    JoinAssoc(base, Nil, Nil);
    match kids
    case Nil =>
    case Cons(k, Leaf(_), rest) =>
      var one := Cons(k, Leaf(text([k])), Nil);
      SetAllPlus(base, [[k]], TextPaths(rest), text);
      assert [[k]][..0] == [] && SetAll(base, [[k]], text) == SetPath(base, [k], text([k]));
      AssignEnd(base, k, Nil, Leaf(text([k])));
      ApartPlus(base, one, rest);
      SetAllRetexts(Join(base, one), rest, text);
      JoinAssoc(base, one, Retext(rest, text));
    case Cons(k, Branch(sub), rest) =>
      var paths := TextPaths(sub);
      var inner := Retext(sub, p => text([k] + p));
      ApartNil(sub);
      SetAllRetexts(Nil, sub, p => text([k] + p));
      SetAllPlus(base, Below(k, paths), TextPaths(rest), text);
      SetAllBelow(base, k, paths, text);
      if paths == [] {
        SetAllRetexts(base, rest, text);
      } else {
        var one := Cons(k, Branch(inner), Nil);
        ApartPlus(base, one, rest);
        SetAllRetexts(Join(base, one), rest, text);
        JoinAssoc(base, one, Retext(rest, text));
      }
  }

  lemma {:induction false} ApartNil(kids: Kids)
    ensures Apart(Nil, kids)
  {
    if kids.Cons? {
      ApartNil(kids.rest);
    }
  }

  // ---------- The flattened keys, in order ----------

  function FullKeys(prefix: string, paths: seq<Path>): (keys: seq<string>)
    ensures |keys| == |paths| && forall i :: 0 <= i < |paths| ==> keys[i] == FullKey(prefix, paths[i])
  {
    seq(|paths|, i requires 0 <= i < |paths| => FullKey(prefix, paths[i]))
  }

  lemma FullKeysBelow(prefix: string, key: string, paths: seq<Path>)
    ensures FullKeys(prefix, Below(key, paths)) == FullKeys(if prefix != "" then prefix + "." + key else key, paths)
  {
    forall i | 0 <= i < |paths|
      ensures FullKey(prefix, [key] + paths[i]) == FullKey(if prefix != "" then prefix + "." + key else key, paths[i])
    {
      assert ([key] + paths[i])[1..] == paths[i];
    }
  }

  lemma FullKeysPlus(prefix: string, a: seq<Path>, b: seq<Path>)
    ensures FullKeys(prefix, a + b) == FullKeys(prefix, a) + FullKeys(prefix, b)
  {
  }

  /** Keys that are all new are listed in the order of the object. */
  ghost predicate AllNew(keys: seq<string>, out: OrderedMap<string>) {
    Distinct(keys) && forall i :: 0 <= i < |keys| ==> keys[i] !in out.vals
  }

  lemma {:induction false} FlattenLists(kids: Kids, prefix: string, out: OrderedMap<string>)
    requires out.Valid() && AllNew(FullKeys(prefix, TextPaths(kids)), out)
    ensures Flatten(kids, prefix, out).keys == out.keys + FullKeys(prefix, TextPaths(kids))
    decreases kids
  {
    if kids.Cons? {
      var full := if prefix != "" then prefix + "." + kids.key else kids.key;
      var later := FullKeys(prefix, TextPaths(kids.rest));
      FullKeysParts(kids, prefix);
      match kids.tree
      case Leaf(s) =>
        AllNewParts([full], later, out);
        assert [full][0] !in out.vals;
        out.PutValid(full, s);
        NewAfter(later, [full], out, out.Put(full, s));
        FlattenLists(kids.rest, prefix, out.Put(full, s));
        Regroup(out.keys, [full], later);
      case Branch(sub) =>
        var first := FullKeys(full, TextPaths(sub));
        AllNewParts(first, later, out);
        FlattenLists(sub, full, out);
        FlattenKeeps(sub, full, out);
        NewAfter(later, first, out, Flatten(sub, full, out));
        FlattenLists(kids.rest, prefix, Flatten(sub, full, out));
        Regroup(out.keys, first, later);
    }
  }

  lemma FullKeysOne(prefix: string, key: string)
    ensures FullKeys(prefix, [[key]]) == [if prefix != "" then prefix + "." + key else key]
  {
    assert [key][1..] == [];
    assert FullKey(prefix, [key]) == if prefix != "" then prefix + "." + key else key;
  }

  lemma {:induction false} FullKeysParts(kids: Kids, prefix: string)
    requires kids.Cons?
    ensures var full := if prefix != "" then prefix + "." + kids.key else kids.key;
            FullKeys(prefix, TextPaths(kids)) ==
            (match kids.tree case Leaf(_) => [full] case Branch(sub) => FullKeys(full, TextPaths(sub)))
              + FullKeys(prefix, TextPaths(kids.rest))
  {
    match kids.tree
    case Leaf(_) =>
      FullKeysOne(prefix, kids.key);
      FullKeysPlus(prefix, [[kids.key]], TextPaths(kids.rest));
    case Branch(sub) =>
      FullKeysBelow(prefix, kids.key, TextPaths(sub));
      FullKeysPlus(prefix, Below(kids.key, TextPaths(sub)), TextPaths(kids.rest));
  }

  lemma AllNewParts(a: seq<string>, b: seq<string>, out: OrderedMap<string>)
    requires AllNew(a + b, out)
    ensures AllNew(a, out) && AllNew(b, out) && forall i :: 0 <= i < |b| ==> b[i] !in a
  {
    var all := a + b;
    assert forall i :: 0 <= i < |a| ==> all[i] == a[i];
    assert forall i :: 0 <= i < |b| ==> all[|a| + i] == b[i];
  }

  lemma NewAfter(keys: seq<string>, added: seq<string>, out: OrderedMap<string>, out': OrderedMap<string>)
    requires out.Valid() && out'.Valid() && out'.keys == out.keys + added
    requires AllNew(keys, out) && forall i :: 0 <= i < |keys| ==> keys[i] !in added
    ensures AllNew(keys, out')
  {
    forall i | 0 <= i < |keys|
      ensures keys[i] !in out'.vals
    {
      assert keys[i] !in out.keys && keys[i] !in out.keys + added;
    }
  }

  // ---------- The keys of a well-named object ----------

  lemma {:induction false} PathsAreTexts(kids: Kids, i: nat)
    requires Proper(kids) && i < |TextPaths(kids)|
    ensures Get(kids, TextPaths(kids)[i]).Some?
    decreases kids
  {
    var Cons(k, t, rest) := kids;
    var first := match t case Leaf(_) => [[k]] case Branch(sub) => Below(k, TextPaths(sub));
    if i >= |first| {
      PathsAreTexts(rest, i - |first|);
      assert Lookup(kids, TextPaths(kids)[i][0]) == Lookup(rest, TextPaths(kids)[i][0]);
    } else if t.Branch? {
      PathsAreTexts(t.kids, i);
      assert TextPaths(kids)[i][1..] == TextPaths(t.kids)[i];
    }
  }

  lemma {:induction false} PathsDistinct(kids: Kids)
    requires Proper(kids)
    ensures Distinct(TextPaths(kids))
    decreases kids
  {
    if kids.Cons? {
      var Cons(k, t, rest) := kids;
      var first := match t case Leaf(_) => [[k]] case Branch(sub) => Below(k, TextPaths(sub));
      PathsDistinct(rest);
      if t.Branch? {
        PathsDistinct(t.kids);
        forall i, j | 0 <= i < j < |first|
          ensures first[i] != first[j]
        {
          assert first[i][1..] == TextPaths(t.kids)[i] && first[j][1..] == TextPaths(t.kids)[j];
        }
      }
      forall i, j | 0 <= i < |first| && 0 <= j < |TextPaths(rest)|
        ensures first[i] != TextPaths(rest)[j]
      {
        PathsAreTexts(rest, j);
        assert first[i][0] == k;
      }
    }
  }

  lemma {:induction false} PathReads(kids: Kids, path: Path)
    requires WellNamed(kids) && Get(kids, path).Some?
    ensures Split(FullKey("", path)) == path
  {
    WellNamedText(kids, path);
    SplitFullKey(path[0], path[1..]);
    SplitSegment(path[0]);
    assert path == [path[0]] + path[1..];
  }

  lemma {:induction false} KeysDistinct(kids: Kids)
    requires Proper(kids) && WellNamed(kids)
    ensures Distinct(FullKeys("", TextPaths(kids)))
  {
    var paths := TextPaths(kids);
    PathsDistinct(kids);
    forall i, j | 0 <= i < j < |paths|
      ensures FullKey("", paths[i]) != FullKey("", paths[j])
    {
      PathsAreTexts(kids, i);
      PathsAreTexts(kids, j);
      PathReads(kids, paths[i]);
      PathReads(kids, paths[j]);
    }
  }

  lemma {:induction false} FlattenedKeys(kids: Kids)
    requires Proper(kids) && WellNamed(kids)
    ensures Flatten(kids, "", EmptyMap()).keys == FullKeys("", TextPaths(kids))
  {
    KeysDistinct(kids);
    FlattenLists(kids, "", EmptyMap());
  }

  // ---------- Rebuilding ----------

  /** The text that a list of values gives a path. */
  function TextOf(values: map<string, string>): Path -> string {
    p => if FullKey("", p) in values then values[FullKey("", p)] else ""
  }

  lemma {:induction false} RebuildSetsAll(paths: seq<Path>, values: map<string, string>)
    requires Proceeding(paths) && forall i :: 0 <= i < |paths| ==> Split(FullKey("", paths[i])) == paths[i]
    requires forall k :: k in FullKeys("", paths) ==> k in values
    ensures Rebuild(FullKeys("", paths), values) == SetAll(Nil, paths, TextOf(values))
  {
    if paths != [] {
      var init := paths[..|paths| - 1];
      var keys := FullKeys("", paths);
      assert keys[..|keys| - 1] == FullKeys("", init);
      assert keys[|keys| - 1] in keys;
      assert forall k :: k in FullKeys("", init) ==> k in keys;
      RebuildSetsAll(init, values);
    }
  }

  /**
   Setting the flattened keys of a well-named object one by one, with any texts, gives the object with
   those texts: every name at its place and in its order. Only objects without any text are lost.
   */
  lemma {:induction false} RebuildKeepsShape(kids: Kids, values: map<string, string>)
    requires Proper(kids) && WellNamed(kids)
    requires forall k :: k in Flatten(kids, "", EmptyMap()).keys ==> k in values
    ensures Rebuild(Flatten(kids, "", EmptyMap()).keys, values) == Retext(kids, TextOf(values))
  {
    var paths := TextPaths(kids);
    FlattenedKeys(kids);
    forall i | 0 <= i < |paths|
      ensures Split(FullKey("", paths[i])) == paths[i]
    {
      PathsAreTexts(kids, i);
      PathReads(kids, paths[i]);
    }
    RebuildSetsAll(paths, values);
    ApartNil(kids);
    SetAllRetexts(Nil, kids, TextOf(values));
  }

  /** With its own texts, an object without empty objects in it comes back as it was. */
  lemma {:induction false} RebuildRestores(kids: Kids)
    requires Proper(kids) && WellNamed(kids) && NoneEmpty(kids)
    requires Flatten(kids, "", EmptyMap()).Valid()
    ensures Rebuild(Flatten(kids, "", EmptyMap()).keys, Flatten(kids, "", EmptyMap()).vals) == kids
  {
    var flat := Flatten(kids, "", EmptyMap());
    RebuildKeepsShape(kids, flat.vals);
    forall p | Get(kids, p).Some?
      ensures TextOf(flat.vals)(p) == Get(kids, p).value
    {
      FlattenCovers(kids, "", EmptyMap(), p);
      var origin := FlattenOrigin(kids, "", EmptyMap(), FullKey("", p));
      PathReads(kids, p);
      PathReads(kids, origin);
    }
    RetextSame(kids, TextOf(flat.vals));
  }

  lemma {:induction false} RetextKeeps(kids: Kids, text: Path -> string, key: string)
    requires Proper(kids) && WellNamed(kids)
    ensures TextPaths(Retext(kids, text)) == TextPaths(kids)
    ensures Proper(Retext(kids, text)) && WellNamed(Retext(kids, text))
    ensures Lookup(kids, key).None? ==> Lookup(Retext(kids, text), key).None?
    decreases kids
  {
    if kids.Cons? {
      RetextKeeps(kids.rest, text, key);
      RetextKeeps(kids.rest, text, kids.key);
      if kids.tree.Branch? {
        RetextKeeps(kids.tree.kids, p => text([kids.key] + p), key);
      }
    }
  }

  /** The rebuilt object flattens to the same keys in the same order, with the given texts. */
  lemma {:induction false} RebuildKeepsOrder(flat: OrderedMap<string>, kids: Kids)
    requires Proper(kids) && WellNamed(kids)
    requires flat.Valid() && flat.keys == Flatten(kids, "", EmptyMap()).keys
    ensures Flatten(Rebuild(flat.keys, flat.vals), "", EmptyMap()) == flat
  {
    var again := Rebuild(flat.keys, flat.vals);
    RebuildKeepsShape(kids, flat.vals);
    RetextKeeps(kids, TextOf(flat.vals), "");
    FlattenedKeys(kids);
    FlattenedKeys(again);
    WellNamedFlattensNestable(kids);
    RebuildRoundTrip(flat);
  }
}
