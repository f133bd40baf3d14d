/**
 The nested translation objects as JavaScript holds them, objects that are changed in place:
 setNestedValue and flattenTranslations of openclaw/scripts/control-ui-i18n.ts.
 */
module TranslationObjects {
  import opened Prelude
  import opened TranslationTree

  // A property holds a text or refers to an object of the store.
  datatype Slot = Text(text: string) | Object(id: nat)
  datatype Property = Property(key: string, slot: Slot)

  type Store = seq<seq<Property>>

  /** The property of a name, or the number of properties if there is none. */
  function IndexOf(props: seq<Property>, key: string): (p: nat)
    ensures p <= |props| && (p < |props| ==> props[p].key == key)
    ensures forall q :: 0 <= q < p ==> props[q].key != key
  {
    if props == [] || props[0].key == key then 0
    else
      assert forall q :: 1 <= q < |props| ==> props[q] == props[1..][q - 1];
      1 + IndexOf(props[1..], key)
  }

  /** `object[key] = slot` */
  function PutProperty(props: seq<Property>, key: string, slot: Slot): seq<Property> {
    var p := IndexOf(props, key);
    if p < |props| then props[p := Property(key, slot)] else props + [Property(key, slot)]
  }

  /** Objects refer to objects that were made later. */
  ghost predicate Forward(store: Store) {
    forall i, p :: 0 <= i < |store| && 0 <= p < |store[i]| && store[i][p].slot.Object? ==>
      i < store[i][p].slot.id < |store|
  }

  /** No object is referred to twice. */
  ghost predicate Unshared(store: Store) {
    forall i, p, j, q, id :: RefersTo(store, i, p, id) && RefersTo(store, j, q, id) ==> i == j && p == q
  }

  predicate RefersTo(store: Store, i: nat, p: nat, id: nat) {
    i < |store| && p < |store[i]| && store[i][p].slot == Object(id)
  }

  /** The nested object that an object of the store stands for. */
  function Contents(store: Store, id: nat): Kids
    requires Forward(store) && id < |store|
    decreases |store| - id, |store[id]| + 1
  {
    ContentsFrom(store, id, 0)
  }

  function ContentsFrom(store: Store, id: nat, p: nat): Kids
    requires Forward(store) && id < |store| && p <= |store[id]|
    decreases |store| - id, |store[id]| - p
  {
    if p == |store[id]| then Nil
    else Cons(store[id][p].key, Meaning(store, id, p), ContentsFrom(store, id, p + 1))
  }

  function Meaning(store: Store, id: nat, p: nat): Tree
    requires Forward(store) && id < |store| && p < |store[id]|
    decreases |store| - id, |store[id]| - p - 1
  {
    match store[id][p].slot
    case Text(s) => Leaf(s)
    case Object(child) => Branch(Contents(store, child))
  }

  lemma {:induction false} LookupContents(store: Store, id: nat, p: nat, key: string)
    requires Forward(store) && id < |store| && p <= IndexOf(store[id], key)
    ensures var at := IndexOf(store[id], key);
            Lookup(ContentsFrom(store, id, p), key) == if at < |store[id]| then Some(Meaning(store, id, at)) else None
    decreases |store[id]| - p
  {
    if p < IndexOf(store[id], key) {
      LookupContents(store, id, p + 1, key);
    }
  }

  /** Changing one property of an object, or what it refers to, assigns that property. */
  lemma {:induction false} AssignContents(store: Store, store': Store, id: nat, p: nat, key: string)
    requires Forward(store) && Forward(store') && id < |store| && id < |store'|
    requires var at := IndexOf(store[id], key);
             && p <= at < |store'[id]| && store'[id][at].key == key
             && |store'[id]| == (if at == |store[id]| then at + 1 else |store[id]|)
             && forall q :: 0 <= q < |store[id]| && q != at ==>
                  store'[id][q].key == store[id][q].key && Meaning(store', id, q) == Meaning(store, id, q)
    ensures ContentsFrom(store', id, p) ==
            Assign(ContentsFrom(store, id, p), key, Meaning(store', id, IndexOf(store[id], key)))
    decreases |store[id]| - p
  {
    var at := IndexOf(store[id], key);
    if p < at {
      AssignContents(store, store', id, p + 1, key);
    } else if at < |store[id]| {
      SameTail(store, store', id, at + 1);
    }
  }

  lemma {:induction false} SameTail(store: Store, store': Store, id: nat, p: nat)
    requires Forward(store) && Forward(store') && id < |store| && id < |store'|
    requires p <= |store[id]| == |store'[id]|
    requires forall q :: p <= q < |store[id]| ==>
               store'[id][q].key == store[id][q].key && Meaning(store', id, q) == Meaning(store, id, q)
    ensures ContentsFrom(store', id, p) == ContentsFrom(store, id, p)
    decreases |store[id]| - p
  {
    if p < |store[id]| {
      SameTail(store, store', id, p + 1);
    }
  }

  // ---------- Where the cursor is ----------

  /** The objects passed on the way from the first one along `path`. */
  ghost predicate OnPath(store: Store, chain: seq<nat>, path: Path) {
    && |chain| == |path| + 1 && (forall l :: 0 <= l < |chain| ==> chain[l] < |store|)
    && forall l :: 0 <= l < |path| ==> StepsTo(store, chain[l], path[l], chain[l + 1])
  }

  ghost predicate StepsTo(store: Store, id: nat, key: string, child: nat)
    requires id < |store|
  {
    var p := IndexOf(store[id], key);
    p < |store[id]| && store[id][p].slot == Object(child)
  }

  lemma {:induction false} ChainAscends(store: Store, chain: seq<nat>, path: Path, l: nat, m: nat)
    requires Forward(store) && OnPath(store, chain, path) && l < m < |chain|
    ensures chain[l] < chain[m]
    decreases m
  {
    assert StepsTo(store, chain[m - 1], path[m - 1], chain[m]);
    if l < m - 1 {
      ChainAscends(store, chain, path, l, m - 1);
    }
  }

  /** `store'` differs from `store` only in the last object of the chain and in new objects. */
  ghost predicate ChangedAt(store: Store, store': Store, id: nat) {
    && Forward(store) && Forward(store') && |store| <= |store'|
    && forall i :: 0 <= i < |store| && i != id ==> store'[i] == store[i]
  }

  /** What is not on the way to the changed object keeps its contents. */
  lemma {:induction false} OffPathSame(
    store: Store, store': Store, chain: seq<nat>, path: Path, id: nat, p: nat)
    requires Unshared(store) && OnPath(store, chain, path) && ChangedAt(store, store', chain[|path|])
    requires chain[0] < id < |store| && id !in chain && p <= |store[id]|
    ensures ContentsFrom(store', id, p) == ContentsFrom(store, id, p)
    decreases |store| - id, |store[id]| - p
  {
    if p < |store[id]| {
      OffPathSame(store, store', chain, path, id, p + 1);
      assert chain[|path|] in chain && store'[id] == store[id];
      if store[id][p].slot.Object? {
        var child := store[id][p].slot.id;
        assert RefersTo(store, id, p, child);
        forall m | 0 <= m < |chain|
          ensures chain[m] != child
        {
          if m > 0 {
            assert StepsTo(store, chain[m - 1], path[m - 1], chain[m]);
            assert RefersTo(store, chain[m - 1], IndexOf(store[chain[m - 1]], path[m - 1]), chain[m]);
            assert chain[m - 1] in chain;
          }
        }
        OffPathSame(store, store', chain, path, child, 0);
        assert Meaning(store', id, p) == Meaning(store, id, p);
      }
    }
  }

  // ---------- Changing one object of a nested object ----------

  /** The object at the end of a path, or an empty one. */
  function Descend(kids: Kids, path: Path): Kids
    decreases |path|
  {
    if path == [] then kids else Descend(Enter(kids, path[0]), path[1..])
  }

  /** The nested object with the object at the end of a path replaced. */
  function Replace(kids: Kids, path: Path, sub: Kids): Kids
    decreases |path|
  {
    if path == [] then sub else Assign(kids, path[0], Branch(Replace(Enter(kids, path[0]), path[1..], sub)))
  }

  lemma {:induction false} AssignTwice(kids: Kids, key: string, t: Tree, u: Tree)
    ensures Assign(Assign(kids, key, t), key, u) == Assign(kids, key, u)
  {
    if kids.Cons? && kids.key != key {
      AssignTwice(kids.rest, key, t, u);
    }
  }

  lemma {:induction false} AssignSame(kids: Kids, key: string, tree: Tree)
    requires Lookup(kids, key) == Some(tree)
    ensures Assign(kids, key, tree) == kids
  {
    if kids.key != key {
      AssignSame(kids.rest, key, tree);
    }
  }

  lemma {:induction false} ReplaceTwice(kids: Kids, path: Path, x: Kids, y: Kids)
    ensures Replace(Replace(kids, path, x), path, y) == Replace(kids, path, y)
    decreases |path|
  {
    if path != [] {
      var inner := Replace(Enter(kids, path[0]), path[1..], x);
      LookupAssign(kids, path[0], Branch(inner), path[0]);
      ReplaceTwice(Enter(kids, path[0]), path[1..], x, y);
      AssignTwice(kids, path[0], Branch(inner), Branch(Replace(inner, path[1..], y)));
    }
  }

  lemma {:induction false} StepDown(kids: Kids, path: Path, key: string, sub: Kids)
    ensures Descend(kids, path + [key]) == Enter(Descend(kids, path), key)
    ensures Replace(kids, path + [key], sub) == Replace(kids, path, Assign(Descend(kids, path), key, Branch(sub)))
    decreases |path|
  {
    if path == [] {
      assert path + [key] == [key] && [key][1..] == [];
    } else {
      assert (path + [key])[1..] == path[1..] + [key];
      StepDown(Enter(kids, path[0]), path[1..], key, sub);
    }
  }

  /** Setting a path sets its last name in the object at the end of the others. */
  lemma {:induction false} SetPathReplaces(kids: Kids, path: Path, last: string, value: string)
    ensures SetPath(kids, path + [last], value) == Replace(kids, path, Assign(Descend(kids, path), last, Leaf(value)))
    decreases |path|
  {
    if path != [] {
      assert (path + [last])[1..] == path[1..] + [last];
      SetPathReplaces(Enter(kids, path[0]), path[1..], last, value);
    }
  }

  /** A change of the last object of a chain shows in the first as a replacement, and nowhere else. */
  lemma {:induction false} ChangeShows(store: Store, store': Store, chain: seq<nat>, path: Path, l: nat)
    requires Unshared(store) && OnPath(store, chain, path) && l <= |path|
    requires ChangedAt(store, store', chain[|path|])
    ensures Contents(store', chain[l]) == Replace(Contents(store, chain[l]), path[l..], Contents(store', chain[|path|]))
    decreases |path| - l
  {
    if l < |path| {
      ChangeShows(store, store', chain, path, l + 1);
      ChainAscends(store, chain, path, l, |path|);
      assert StepsTo(store, chain[l], path[l], chain[l + 1]);
      var id, at := chain[l], IndexOf(store[chain[l]], path[l]);
      LookupContents(store, id, 0, path[l]);
      assert RefersTo(store, id, at, chain[l + 1]);
      forall q | 0 <= q < |store[id]| && q != at
        ensures Meaning(store', id, q) == Meaning(store, id, q)
      {
        if store[id][q].slot.Object? {
          SiblingSame(store, store', chain, path, l, q);
        }
      }
      AssignContents(store, store', id, 0, path[l]);
      assert path[l..][1..] == path[l + 1..];
    } else {
      assert path[l..] == [];
    }
  }

  lemma {:induction false} SiblingSame(store: Store, store': Store, chain: seq<nat>, path: Path, l: nat, q: nat)
    requires Unshared(store) && OnPath(store, chain, path) && l < |path|
    requires ChangedAt(store, store', chain[|path|])
    requires q < |store[chain[l]]| && q != IndexOf(store[chain[l]], path[l]) && store[chain[l]][q].slot.Object?
    ensures Contents(store', store[chain[l]][q].slot.id) == Contents(store, store[chain[l]][q].slot.id)
  {
    var child := store[chain[l]][q].slot.id;
    assert RefersTo(store, chain[l], q, child);
    forall m | 0 <= m < |chain|
      ensures chain[m] != child
    {
      if m > 0 {
        assert StepsTo(store, chain[m - 1], path[m - 1], chain[m]);
        assert RefersTo(store, chain[m - 1], IndexOf(store[chain[m - 1]], path[m - 1]), chain[m]);
        if m - 1 < l {
          ChainAscends(store, chain, path, m - 1, l);
        } else if l < m - 1 {
          ChainAscends(store, chain, path, l, m - 1);
        }
      } else if l > 0 {
        ChainAscends(store, chain, path, 0, l);
      }
    }
    if l > 0 {
      ChainAscends(store, chain, path, 0, l);
    }
    OffPathSame(store, store', chain, path, child, 0);
  }

  // ---------- The two kinds of write ----------

  /** The store after `object[key] = slot`, with `extra` new empty objects. */
  function Put(store: Store, id: nat, key: string, slot: Slot, extra: nat): Store
    requires id < |store|
  {
    store[id := PutProperty(store[id], key, slot)] + seq(extra, _ => [])
  }

  /** A write of a text, or of a new empty object. */
  ghost predicate IsWrite(store: Store, slot: Slot, extra: nat) {
    if slot.Text? then extra == 0 else extra == 1 && slot.id == |store|
  }

  lemma {:induction false} PutProps(store: Store, id: nat, key: string, slot: Slot, extra: nat, p: nat)
    requires id < |store| && p < |PutProperty(store[id], key, slot)|
    ensures var props := Put(store, id, key, slot, extra)[id];
            && props == PutProperty(store[id], key, slot)
            && if p == IndexOf(store[id], key) then props[p] == Property(key, slot)
               else p < |store[id]| && props[p] == store[id][p]
  {
  }

  lemma PutKeepsForm(store: Store, id: nat, key: string, slot: Slot, extra: nat)
    requires Forward(store) && Unshared(store) && id < |store| && IsWrite(store, slot, extra)
    ensures var store': Store := Put(store, id, key, slot, extra);
            Forward(store') && Unshared(store') && ChangedAt(store, store', id)
  {
    var store': Store := Put(store, id, key, slot, extra);
    forall i: nat, p: nat, child: nat | RefersTo(store', i, p, child)
      ensures || RefersTo(store, i, p, child)
              || (i == id && p == IndexOf(store[id], key) && child == |store| && extra == 1)
    {
      if i == id {
        PutProps(store, id, key, slot, extra, p);
      }
    }
    forall i, p | 0 <= i < |store'| && 0 <= p < |store'[i]| && store'[i][p].slot.Object?
      ensures i < store'[i][p].slot.id < |store'|
    {
      assert RefersTo(store', i, p, store'[i][p].slot.id);
    }
    assert forall i: nat, p: nat :: !RefersTo(store, i, p, |store|);
  }

  lemma {:induction false} PutContents(store: Store, id: nat, key: string, slot: Slot, extra: nat)
    requires Forward(store) && Unshared(store) && id < |store| && IsWrite(store, slot, extra)
    requires Forward(Put(store, id, key, slot, extra))
    ensures var store': Store := Put(store, id, key, slot, extra);
            var tree := match slot case Text(s) => Leaf(s) case Object(_) => Branch(Nil);
            && (slot.Object? ==> Contents(store', |store|) == Nil)
            && Contents(store', id) == Assign(Contents(store, id), key, tree)
  {
    var store': Store := Put(store, id, key, slot, extra);
    var at := IndexOf(store[id], key);
    PutKeepsForm(store, id, key, slot, extra);
    forall q | 0 <= q < |store[id]| && q != at
      ensures store'[id][q].key == store[id][q].key && Meaning(store', id, q) == Meaning(store, id, q)
    {
      PutProps(store, id, key, slot, extra, q);
      if store[id][q].slot.Object? {
        OffPathSame(store, store', [id], [], store[id][q].slot.id, 0);
      }
    }
    PutProps(store, id, key, slot, extra, at);
    if slot.Object? {
      assert store'[|store|] == [];
    }
    AssignContents(store, store', id, 0, key);
  }

  lemma PathKept(store: Store, store': Store, chain: seq<nat>, path: Path)
    requires OnPath(store, chain, path) && ChangedAt(store, store', chain[|path|])
    ensures OnPath(store', chain, path)
  {
    forall l | 0 <= l < |path|
      ensures StepsTo(store', chain[l], path[l], chain[l + 1])
    {
      assert StepsTo(store, chain[l], path[l], chain[l + 1]);
      ChainAscends(store, chain, path, l, |path|);
    }
  }

  lemma PathLonger(store: Store, chain: seq<nat>, path: Path, key: string, child: nat)
    requires OnPath(store, chain, path) && child < |store| && StepsTo(store, chain[|path|], key, child)
    ensures OnPath(store, chain + [child], path + [key])
  {
  }

  // ---------- setNestedValue ----------

  /** Where the walk is: `chain` leads along `path` from the root to the cursor, and nothing else differs. */
  ghost predicate Walked(store: Store, chain: seq<nat>, path: Path, kids: Kids) {
    && Forward(store) && Unshared(store) && OnPath(store, chain, path)
    && Contents(store, chain[|path|]) == Descend(kids, path)
    && Contents(store, chain[0]) == Replace(kids, path, Descend(kids, path))
  }

  lemma WalkInto(store: Store, chain: seq<nat>, path: Path, kids: Kids, key: string, child: nat)
    requires Walked(store, chain, path, kids) && child < |store| && StepsTo(store, chain[|path|], key, child)
    ensures Walked(store, chain + [child], path + [key], kids)
  {
    var cursor := chain[|path|];
    LookupContents(store, cursor, 0, key);
    StepDown(kids, path, key, Contents(store, child));
    AssignSame(Contents(store, cursor), key, Branch(Contents(store, child)));
    PathLonger(store, chain, path, key, child);
  }

  lemma {:induction false} WalkIntoNew(store: Store, chain: seq<nat>, path: Path, kids: Kids, key: string)
    requires Walked(store, chain, path, kids)
    requires var p := IndexOf(store[chain[|path|]], key);
             p == |store[chain[|path|]]| || store[chain[|path|]][p].slot.Text?
    ensures Walked(Put(store, chain[|path|], key, Object(|store|), 1), chain + [|store|], path + [key], kids)
  {
    var cursor, made := chain[|path|], |store|;
    var store': Store := Put(store, cursor, key, Object(made), 1);
    PutKeepsForm(store, cursor, key, Object(made), 1);
    PutContents(store, cursor, key, Object(made), 1);
    LookupContents(store, cursor, 0, key);
    ChangeShows(store, store', chain, path, 0);
    assert path[0..] == path;
    ReplaceTwice(kids, path, Descend(kids, path), Contents(store', cursor));
    StepDown(kids, path, key, Nil);
    PathKept(store, store', chain, path);
    LookupPut(store, cursor, key, Object(made), 1);
    PathLonger(store', chain, path, key, made);
  }

  lemma {:induction false} LookupPut(store: Store, id: nat, key: string, slot: Slot, extra: nat)
    requires id < |store|
    ensures var props := Put(store, id, key, slot, extra)[id];
            IndexOf(props, key) == IndexOf(store[id], key) < |props| && props[IndexOf(props, key)].slot == slot
  {
    var at := IndexOf(store[id], key);
    PutProps(store, id, key, slot, extra, at);
    forall q | 0 <= q < at
      ensures Put(store, id, key, slot, extra)[id][q].key != key
    {
      PutProps(store, id, key, slot, extra, q);
    }
  }

  lemma {:induction false} WriteShows(store: Store, chain: seq<nat>, path: Path, kids: Kids, last: string,
                                      value: string)
    requires Walked(store, chain, path, kids)
    ensures var store': Store := Put(store, chain[|path|], last, Text(value), 0);
            && Forward(store') && Unshared(store')
            && Contents(store', chain[0]) == SetPath(kids, path + [last], value)
  {
    var cursor := chain[|path|];
    var store': Store := Put(store, cursor, last, Text(value), 0);
    PutKeepsForm(store, cursor, last, Text(value), 0);
    PutContents(store, cursor, last, Text(value), 0);
    ChangeShows(store, store', chain, path, 0);
    assert path[0..] == path;
    ReplaceTwice(kids, path, Descend(kids, path), Contents(store', cursor));
    SetPathReplaces(kids, path, last, value);
  }

  class TranslationObjects {
    var objects: Store

    ghost predicate Valid()
      reads this
    {
      Forward(objects) && Unshared(objects)
    }

    constructor ()
      ensures Valid() && objects == []
    {
      objects := [];
    }

    /** `{}` */
    method NewObject() returns (id: nat)
      requires Valid()
      modifies this
      ensures Valid() && id == |old(objects)| && objects == old(objects) + [[]] && Contents(objects, id) == Nil
    {
      id := |objects|;
      ghost var before := objects;
      objects := objects + [[]];
      assert forall i: nat, p: nat, c: nat :: RefersTo(objects, i, p, c) ==> RefersTo(before, i, p, c);
    }

    /**
     In place, one path of one object is set. Of the objects there were, only `changed` is written;
     the objects missing on the way are new.
     */
    method SetNestedValue(root: nat, dottedKey: string, value: string) returns (ghost changed: nat)
      requires Valid() && root < |objects|
      modifies this
      ensures Valid() && |old(objects)| <= |objects|
      ensures Contents(objects, root) == SetPath(Contents(old(objects), root), Split(dottedKey), value)
      ensures changed < |old(objects)|
      ensures forall i :: 0 <= i < |old(objects)| && i != changed ==> objects[i] == old(objects)[i]
    {
      var parts := Split(dottedKey);
      var cursor := root;
      ghost var kids := Contents(objects, root);
      ghost var chain: seq<nat> := [root];
      ghost var start := objects;
      changed := root;
      assert OnPath(objects, chain, parts[..0]);
      for index := 0 to |parts| - 1
        invariant |chain| == index + 1 && chain[0] == root && cursor == chain[index]
        invariant Walked(objects, chain, parts[..index], kids)
        invariant |start| <= |objects| && changed < |start|
        invariant forall i :: 0 <= i < |start| && i != changed ==> objects[i] == start[i]
        invariant if cursor < |start| then objects == start && changed == cursor else true
      {
        var key := parts[index];
        assert parts[..index] + [key] == parts[..index + 1];
        var p := IndexOf(objects[cursor], key);
        if p == |objects[cursor]| || objects[cursor][p].slot.Text? {
          WalkIntoNew(objects, chain, parts[..index], kids, key);
          var replacement := |objects|;
          objects := Put(objects, cursor, key, Object(replacement), 1);
          cursor := replacement;
        } else {
          WalkInto(objects, chain, parts[..index], kids, key, objects[cursor][p].slot.id);
          cursor := objects[cursor][p].slot.id;
          changed := if cursor < |start| then cursor else changed;
        }
        chain := chain + [cursor];
      }
      ghost var path := parts[..|parts| - 1];
      assert parts == path + [parts[|parts| - 1]];
      WriteShows(objects, chain, path, kids, parts[|parts| - 1], value);
      objects := Put(objects, cursor, parts[|parts| - 1], Text(value), 0);
    }

    /** Fills `out` with every text below an object. */
    method FlattenTranslations(id: nat, prefix: string, out: OrderedMap<string>) returns (filled: OrderedMap<string>)
      requires Valid() && id < |objects|
      ensures filled == Flatten(Contents(objects, id), prefix, out)
      decreases |objects| - id
    {
      filled := out;
      for p := 0 to |objects[id]|
        invariant Flatten(ContentsFrom(objects, id, p), prefix, filled) == Flatten(Contents(objects, id), prefix, out)
      {
        var property := objects[id][p];
        var fullKey := if prefix != "" then prefix + "." + property.key else property.key;
        match property.slot {
          case Text(s) =>
            filled := filled.Put(fullKey, s);
          case Object(nested) =>
            filled := FlattenTranslations(nested, fullKey, filled);
        }
      }
    }

    /** The object that syncLocale builds by setting every key in turn. */
    method BuildLocale(keys: seq<string>, flat: map<string, string>) returns (nextMap: nat)
      requires Valid() && forall key :: key in keys ==> key in flat
      modifies this
      ensures Valid() && nextMap < |objects| && Contents(objects, nextMap) == Rebuild(keys, flat)
    {
      nextMap := NewObject();
      assert keys[..0] == [];
      for i := 0 to |keys|
        invariant Valid() && nextMap < |objects| && Contents(objects, nextMap) == Rebuild(keys[..i], flat)
      {
        assert keys[..i + 1][..i] == keys[..i];
        var _ := SetNestedValue(nextMap, keys[i], flat[keys[i]]);
      }
      assert keys[..|keys|] == keys;
    }
  }
}
