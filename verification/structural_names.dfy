/**
 The table of schema names of the Swift generator (openclaw/scripts/protocol-gen-swift.ts): a schema
 is found by identity, or by a signature that does not depend on the order of keys.
 */
module StructuralNames {
  import opened Prelude
  import opened Sorting
  import opened JsonText

  // ---------- Signatures ----------

  function FieldOf(fields: seq<Field>, key: string): Field
    requires key in Keys(fields)
  {
    if fields[0].key == key then fields[0]
    else
      assert forall i :: 1 <= i < |fields| ==> Keys(fields)[i] == Keys(fields[1..])[i - 1];
      FieldOf(fields[1..], key)
  }

  lemma {:induction false} FieldOfAt(fields: seq<Field>, i: nat)
    requires Distinct(Keys(fields)) && i < |fields|
    ensures fields[i].key in Keys(fields) && FieldOf(fields, fields[i].key) == fields[i]
  {
    assert Keys(fields)[i] == fields[i].key;
    if i > 0 {
      assert Keys(fields)[0] != Keys(fields)[i];
      assert Keys(fields)[1..] == Keys(fields[1..]);
      FieldOfAt(fields[1..], i - 1);
    }
  }

  function Arrange(keys: seq<string>, fields: seq<Field>): (arranged: seq<Field>)
    requires forall k :: k in keys ==> k in Keys(fields)
    ensures |arranged| == |keys|
  {
    seq(|keys|, i requires 0 <= i < |keys| => Field(keys[i], FieldOf(fields, keys[i]).value))
  }

  /** The fields in the order of their keys. */
  function SortFields(le: Order, fields: seq<Field>): seq<Field> {
    SortMembers(le, Keys(fields));
    Arrange(Sort(le, Keys(fields)), fields)
  }

  lemma {:induction false} SortMembers(le: Order, xs: seq<string>)
    ensures forall x :: x in Sort(le, xs) ==> x in xs
  {
    if xs != [] {
      SortMembers(le, xs[1..]);
      InsertMultiset(le, xs[0], Sort(le, xs[1..]));
      forall x | x in Sort(le, xs)
        ensures x in xs
      {
        assert x in multiset(Sort(le, xs));
        assert x == xs[0] || x in Sort(le, xs[1..]);
      }
    }
  }

  /** stableJson: every object with its fields in the order of their keys. */
  function Stable(le: Order, j: Json): Json {
    match j
    case Arr(items) => Arr(StableItems(le, items))
    case Obj(fields) => Obj(SortFields(le, StableFields(le, fields)))
    case _ => j
  }

  function StableItems(le: Order, items: seq<Json>): (stable: seq<Json>)
    ensures |stable| == |items| && forall i :: 0 <= i < |items| ==> stable[i] == Stable(le, items[i])
  {
    if items == [] then [] else [Stable(le, items[0])] + StableItems(le, items[1..])
  }

  function StableFields(le: Order, fields: seq<Field>): (stable: seq<Field>)
    ensures |stable| == |fields| && Keys(stable) == Keys(fields)
    ensures forall i :: 0 <= i < |fields| ==> stable[i] == Field(fields[i].key, Stable(le, fields[i].value))
  {
    if fields == [] then []
    else [Field(fields[0].key, Stable(le, fields[0].value))] + StableFields(le, fields[1..])
  }

  function Signature(le: Order, j: Json): string {
    Stringify(Stable(le, j))
  }

  /** Equal up to the order of keys in objects, at every depth. */
  ghost predicate Similar(a: Json, b: Json) {
    match a
    case Arr(items) =>
      b.Arr? && |b.items| == |items| && forall i :: 0 <= i < |items| ==> Similar(items[i], b.items[i])
    case Obj(fields) =>
      && b.Obj? && (forall k :: k in Keys(fields) <==> k in Keys(b.fields))
      && forall i, j :: 0 <= i < |fields| && 0 <= j < |b.fields| && fields[i].key == b.fields[j].key ==>
                          Similar(fields[i].value, b.fields[j].value)
    case _ => a == b
  }

  /** Arranging keeps the fields: each key with its value, and nothing else. */
  lemma {:induction false} SortFieldsKeeps(le: Order, fields: seq<Field>)
    requires TotalOrder(le) && Distinct(Keys(fields))
    ensures var sorted := SortFields(le, fields);
            && Keys(sorted) == Sort(le, Keys(fields)) && Distinct(Keys(sorted))
            && (forall k :: k in Keys(sorted) <==> k in Keys(fields))
            && forall k ::
                 k in Keys(fields) && k in Keys(sorted) ==> FieldOf(sorted, k).value == FieldOf(fields, k).value
  {
    var sorted := SortFields(le, fields);
    SortKeepsDistinct(le, Keys(fields));
    assert Keys(sorted) == Sort(le, Keys(fields));
    forall k | k in Keys(fields) && k in Keys(sorted)
      ensures FieldOf(sorted, k).value == FieldOf(fields, k).value
    {
      var i :| 0 <= i < |Keys(sorted)| && Keys(sorted)[i] == k;
      FieldOfAt(sorted, i);
    }
  }

  /** Two objects' sorted fields are equal just when they have the same keys with equal values. */
  lemma SortFieldsExact(le: Order, a: seq<Field>, b: seq<Field>)
    requires TotalOrder(le) && Distinct(Keys(a)) && Distinct(Keys(b))
    ensures SortFields(le, a) == SortFields(le, b) <==>
            && (forall k :: k in Keys(a) <==> k in Keys(b))
            && forall i, j :: 0 <= i < |a| && 0 <= j < |b| && a[i].key == b[j].key ==> a[i].value == b[j].value
  {
    SortFieldsKeeps(le, a);
    SortFieldsKeeps(le, b);
    forall i, j | 0 <= i < |a| && 0 <= j < |b| && a[i].key == b[j].key
      ensures a[i].key in Keys(a) && FieldOf(a, a[i].key) == a[i] && FieldOf(b, b[j].key) == b[j]
    {
      FieldOfAt(a, i);
      FieldOfAt(b, j);
    }
    if SortFields(le, a) == SortFields(le, b) {
      assert forall k :: k in Keys(a) <==> k in Keys(SortFields(le, a));
    }
    if && (forall k :: k in Keys(a) <==> k in Keys(b))
       && forall i, j :: 0 <= i < |a| && 0 <= j < |b| && a[i].key == b[j].key ==> a[i].value == b[j].value {
      SortForgetsOrder(le, Keys(a), Keys(b));
      forall k | k in Keys(a)
        ensures FieldOf(a, k).value == FieldOf(b, k).value
      {
        var i :| 0 <= i < |a| && Keys(a)[i] == k;
        var j :| 0 <= j < |b| && Keys(b)[j] == k;
        FieldOfAt(a, i);
        FieldOfAt(b, j);
      }
    }
  }

  /** stableJson forgets exactly the order of keys. */
  lemma {:induction false} StableExact(le: Order, a: Json, b: Json)
    requires TotalOrder(le) && Valid(a) && Valid(b)
    ensures Stable(le, a) == Stable(le, b) <==> Similar(a, b)
    decreases a
  {
    match a
    case Arr(items) =>
      if b.Arr? {
        forall i | 0 <= i < |items| && i < |b.items|
          ensures StableItems(le, items)[i] == StableItems(le, b.items)[i] <==> Similar(items[i], b.items[i])
        {
          StableExact(le, items[i], b.items[i]);
        }
      }
    case Obj(fields) =>
      if b.Obj? {
        var x, y := StableFields(le, fields), StableFields(le, b.fields);
        SortFieldsExact(le, x, y);
        forall i, j | 0 <= i < |fields| && 0 <= j < |b.fields|
          ensures x[i].value == y[j].value <==> Similar(fields[i].value, b.fields[j].value)
        {
          StableExact(le, fields[i].value, b.fields[j].value);
        }
      }
    case _ =>
  }

  lemma {:induction false} StableValid(le: Order, j: Json)
    requires TotalOrder(le) && Valid(j)
    ensures Valid(Stable(le, j))
    decreases j
  {
    match j
    case Arr(items) =>
      forall i | 0 <= i < |items|
        ensures Valid(StableItems(le, items)[i])
      {
        StableValid(le, items[i]);
      }
    case Obj(fields) =>
      var stable := StableFields(le, fields);
      SortFieldsKeeps(le, stable);
      forall i | 0 <= i < |fields|
        ensures Valid(stable[i].value)
      {
        StableValid(le, fields[i].value);
      }
      var sorted := SortFields(le, stable);
      forall i | 0 <= i < |sorted|
        ensures Valid(sorted[i].value)
      {
        FieldOfAt(sorted, i);
        assert Keys(sorted)[i] in Keys(stable);
        var p :| 0 <= p < |stable| && Keys(stable)[p] == sorted[i].key;
        FieldOfAt(stable, p);
      }
    case _ =>
  }

  /** Two schemas have the same signature if and only if they differ at most in the order of keys. */
  lemma {:induction false} SignatureExact(le: Order, a: Json, b: Json)
    requires TotalOrder(le) && Valid(a) && Valid(b)
    ensures Signature(le, a) == Signature(le, b) <==> Similar(a, b)
  {
    StableExact(le, a, b);
    StableValid(le, a);
    StableValid(le, b);
    if Signature(le, a) == Signature(le, b) {
      StringifyInjective(Stable(le, a), Stable(le, b));
    }
  }

  // ---------- The table ----------

  // A schema object is registered under a name. Objects are told apart by their identity.
  datatype Registration = Registration(name: string, schemaObject: nat, schema: Json)

  datatype Table = Table(byObject: map<nat, string>, bySignature: map<string, string>, duplicates: set<string>)

  class SchemaNames {
    var byObject: map<nat, string>
    var bySignature: map<string, string>
    var duplicates: set<string>

    ghost function Model(): Table
      reads this
    {
      Table(byObject, bySignature, duplicates)
    }

    constructor ()
      ensures Model() == Table(map[], map[], {})
    {
      byObject, bySignature, duplicates := map[], map[], {};
    }

    method RegisterNamedSchema(le: Order, r: Registration)
      modifies this
      ensures Model() == Register(le, old(Model()), r)
    {
      byObject := byObject[r.schemaObject := r.name];
      var signature := Signature(le, r.schema);
      if signature in duplicates {
        return;
      }
      if signature in bySignature {
        bySignature := bySignature - {signature};
        duplicates := duplicates + {signature};
        return;
      }
      bySignature := bySignature[signature := r.name];
    }

    /** The first loop of generate. */
    method RegisterAll(le: Order, regs: seq<Registration>)
      requires Model() == Table(map[], map[], {})
      modifies this
      ensures Model() == Fill(le, regs)
    {
      for i := 0 to |regs|
        invariant Model() == Fill(le, regs[..i])
      {
        assert regs[..i + 1][..i] == regs[..i];
        RegisterNamedSchema(le, regs[i]);
      }
      assert regs[..|regs|] == regs;
    }
  }

  function Register(le: Order, t: Table, r: Registration): Table {
    var t' := t.(byObject := t.byObject[r.schemaObject := r.name]);
    var signature := Signature(le, r.schema);
    if signature in t.duplicates then t'
    else if signature in t.bySignature then
      t'.(bySignature := t.bySignature - {signature}, duplicates := t.duplicates + {signature})
    else t'.(bySignature := t.bySignature[signature := r.name])
  }

  /** The table after a list of registrations. */
  function Fill(le: Order, regs: seq<Registration>): Table {
    if regs == [] then Table(map[], map[], {})
    else Register(le, Fill(le, regs[..|regs| - 1]), regs[|regs| - 1])
  }

  function NamedSchema(le: Order, t: Table, id: nat, schema: Json, structural: bool): Option<string> {
    if id in t.byObject then Some(t.byObject[id])
    else if structural && Signature(le, schema) in t.bySignature then Some(t.bySignature[Signature(le, schema)])
    else None
  }

  /** The names under which schemas of a signature were registered, in order. */
  function Names(le: Order, regs: seq<Registration>, signature: string): seq<string> {
    if regs == [] then []
    else
      var last := regs[|regs| - 1];
      Names(le, regs[..|regs| - 1], signature) + if Signature(le, last.schema) == signature then [last.name] else []
  }

  function Entry(t: Table, signature: string): Option<string> {
    if signature in t.bySignature then Some(t.bySignature[signature]) else None
  }

  /** A signature has a name if and only if it was registered once, and is a duplicate if more often. */
  lemma {:induction false} TableExact(le: Order, regs: seq<Registration>, signature: string)
    ensures var t, names := Fill(le, regs), Names(le, regs, signature);
            && (signature in t.duplicates <==> |names| >= 2)
            && Entry(t, signature) == if |names| == 1 then Some(names[0]) else None
  {
    if regs != [] {
      TableExact(le, regs[..|regs| - 1], signature);
    }
  }

  lemma {:induction false} NamesPlus(le: Order, a: seq<Registration>, b: seq<Registration>, signature: string)
    ensures Names(le, a + b, signature) == Names(le, a, signature) + Names(le, b, signature)
  {
    if b == [] {
      assert a + b == a;
    } else {
      assert (a + b)[..|a + b| - 1] == a + b[..|b| - 1];
      NamesPlus(le, a, b[..|b| - 1], signature);
    }
  }

  lemma {:induction false} NamesOfPermutation(le: Order, a: seq<Registration>, b: seq<Registration>, signature: string)
    requires multiset(a) == multiset(b)
    ensures multiset(Names(le, a, signature)) == multiset(Names(le, b, signature))
  {
    if a == [] {
      assert |multiset(b)| == |b|;
    } else {
      var init, last := a[..|a| - 1], a[|a| - 1];
      assert a == init + [last] + [] && init + [] == init;
      assert last in multiset(b);
      var j :| 0 <= j < |b| && b[j] == last;
      var before, after := b[..j], b[j + 1..];
      assert b == before + [last] + after;
      TakenOut(init, last, []);
      TakenOut(before, last, after);
      NamesOfPermutation(le, init, before + after, signature);
      NamesWithout(le, init, last, [], signature);
      NamesWithout(le, before, last, after, signature);
    }
  }

  lemma TakenOut<T>(before: seq<T>, x: T, after: seq<T>)
    ensures multiset(before + after) == multiset(before + [x] + after) - multiset{x}
  {
  }

  lemma {:induction false} NamesWithout(
    le: Order, before: seq<Registration>, x: Registration, after: seq<Registration>, signature: string)
    ensures multiset(Names(le, before + [x] + after, signature)) ==
            multiset(Names(le, before + after, signature)) + multiset(Names(le, [x], signature))
  {
    NamesPlus(le, before, after, signature);
    NamesPlus(le, before + [x], after, signature);
    NamesPlus(le, before, [x], signature);
  }

  lemma {:induction false} EntryForgetsOrder(le: Order, a: seq<Registration>, b: seq<Registration>, signature: string)
    requires multiset(a) == multiset(b)
    ensures signature in Fill(le, a).duplicates <==> signature in Fill(le, b).duplicates
    ensures Entry(Fill(le, a), signature) == Entry(Fill(le, b), signature)
  {
    TableExact(le, a, signature);
    TableExact(le, b, signature);
    NamesOfPermutation(le, a, b, signature);
    SameSingle(Names(le, a, signature), Names(le, b, signature));
  }

  lemma SameSingle(x: seq<string>, y: seq<string>)
    requires multiset(x) == multiset(y)
    ensures |x| == |y| && (|x| == 1 ==> x == y)
  {
    assert |multiset(x)| == |x| && |multiset(y)| == |y|;
    if |x| == 1 {
      assert x[0] in multiset(y);
    }
  }

  /** The order in which schemas are registered does not show in the names by signature. */
  lemma {:induction false} TableForgetsOrder(le: Order, a: seq<Registration>, b: seq<Registration>)
    requires multiset(a) == multiset(b)
    ensures Fill(le, a).bySignature == Fill(le, b).bySignature && Fill(le, a).duplicates == Fill(le, b).duplicates
  {
    forall signature: string
      ensures signature in Fill(le, a).duplicates <==> signature in Fill(le, b).duplicates
      ensures Entry(Fill(le, a), signature) == Entry(Fill(le, b), signature)
    {
      EntryForgetsOrder(le, a, b, signature);
    }
    var x, y := Fill(le, a), Fill(le, b);
    forall signature: string
      ensures signature in x.bySignature <==> signature in y.bySignature
      ensures signature in x.bySignature ==> x.bySignature[signature] == y.bySignature[signature]
    {
      assert Entry(x, signature) == Entry(y, signature);
    }
  }

  /** By identity, the last registration of an object counts; -1 if there is none. */
  lemma {:induction false} ByObjectExact(le: Order, regs: seq<Registration>, id: nat) returns (i: int)
    ensures -1 <= i < |regs| && forall j :: i < j < |regs| ==> regs[j].schemaObject != id
    ensures i == -1 <==> id !in Fill(le, regs).byObject
    ensures i >= 0 ==> regs[i].schemaObject == id && Fill(le, regs).byObject[id] == regs[i].name
  {
    if regs == [] {
      i := -1;
    } else if regs[|regs| - 1].schemaObject == id {
      i := |regs| - 1;
    } else {
      i := ByObjectExact(le, regs[..|regs| - 1], id);
    }
  }

  /** Registration i is the only one whose schema is like a given one. */
  ghost predicate OnlySimilar(regs: seq<Registration>, schema: Json, i: nat) {
    && i < |regs| && Similar(regs[i].schema, schema)
    && forall j :: 0 <= j < |regs| && j != i ==> !Similar(regs[j].schema, schema)
  }

  ghost predicate NoneSimilar(regs: seq<Registration>, schema: Json) {
    forall i :: 0 <= i < |regs| ==> !Similar(regs[i].schema, schema)
  }

  lemma {:induction false} NoneLast(regs: seq<Registration>, schema: Json)
    requires regs != []
    ensures NoneSimilar(regs, schema) <==>
            NoneSimilar(regs[..|regs| - 1], schema) && !Similar(regs[|regs| - 1].schema, schema)
  {
  }

  /** One registration more is one name more, just if its schema is like the given one. */
  lemma {:induction false} NamesLast(le: Order, regs: seq<Registration>, schema: Json)
    requires regs != [] && TotalOrder(le) && Valid(schema) && forall r :: r in regs ==> Valid(r.schema)
    ensures var last, before := regs[|regs| - 1], Names(le, regs[..|regs| - 1], Signature(le, schema));
            Names(le, regs, Signature(le, schema)) ==
            before + if Similar(last.schema, schema) then [last.name] else []
  {
    assert regs[|regs| - 1] in regs;
    SignatureExact(le, regs[|regs| - 1].schema, schema);
  }

  lemma {:induction false} NamesOfNone(le: Order, regs: seq<Registration>, schema: Json)
    requires TotalOrder(le) && Valid(schema) && forall r :: r in regs ==> Valid(r.schema)
    ensures Names(le, regs, Signature(le, schema)) == [] <==> NoneSimilar(regs, schema)
  {
    if regs != [] {
      NamesLast(le, regs, schema);
      NamesOfNone(le, regs[..|regs| - 1], schema);
      NoneLast(regs, schema);
    }
  }

  lemma {:induction false} OnlyBefore(regs: seq<Registration>, schema: Json, i: nat)
    requires OnlySimilar(regs, schema, i)
    ensures Similar(regs[|regs| - 1].schema, schema) <==> i == |regs| - 1
    ensures if i == |regs| - 1 then NoneSimilar(regs[..i], schema) else OnlySimilar(regs[..|regs| - 1], schema, i)
  {
  }

  lemma {:induction false} NamesOfOnly(le: Order, regs: seq<Registration>, schema: Json, i: nat)
    requires TotalOrder(le) && Valid(schema) && forall r :: r in regs ==> Valid(r.schema)
    requires OnlySimilar(regs, schema, i)
    ensures Names(le, regs, Signature(le, schema)) == [regs[i].name]
  {
    NamesLast(le, regs, schema);
    OnlyBefore(regs, schema, i);
    if i == |regs| - 1 {
      NamesOfNone(le, regs[..i], schema);
    } else {
      NamesOfOnly(le, regs[..|regs| - 1], schema, i);
    }
  }

  lemma {:induction false} OnlyLast(regs: seq<Registration>, last: Registration, schema: Json)
    requires NoneSimilar(regs, schema) && Similar(last.schema, schema)
    ensures OnlySimilar(regs + [last], schema, |regs|)
  {
  }

  lemma {:induction false} OnlyGrows(regs: seq<Registration>, last: Registration, schema: Json, i: nat)
    requires OnlySimilar(regs, schema, i) && !Similar(last.schema, schema)
    ensures OnlySimilar(regs + [last], schema, i)
  {
  }

  lemma {:induction false} OneNameIsOnly(le: Order, regs: seq<Registration>, schema: Json) returns (i: nat)
    requires TotalOrder(le) && Valid(schema) && forall r :: r in regs ==> Valid(r.schema)
    requires |Names(le, regs, Signature(le, schema))| == 1
    ensures OnlySimilar(regs, schema, i)
  {
    var init, last := regs[..|regs| - 1], regs[|regs| - 1];
    NamesLast(le, regs, schema);
    if Similar(last.schema, schema) {
      NamesOfNone(le, init, schema);
      i := |init|;
      OnlyLast(init, last, schema);
    } else {
      i := OneNameIsOnly(le, init, schema);
      OnlyGrows(init, last, schema, i);
    }
    assert regs == init + [last];
  }

  /** Registration i is the last one of this object. */
  ghost predicate LastOf(regs: seq<Registration>, id: nat, i: nat) {
    i < |regs| && regs[i].schemaObject == id && forall j :: i < j < |regs| ==> regs[j].schemaObject != id
  }

  lemma {:induction false} NamedBySimilar(le: Order, regs: seq<Registration>, schema: Json, name: string)
    requires TotalOrder(le) && Valid(schema) && forall r :: r in regs ==> Valid(r.schema)
    ensures Entry(Fill(le, regs), Signature(le, schema)) == Some(name)
            <==> exists i: nat :: OnlySimilar(regs, schema, i) && regs[i].name == name
  {
    TableExact(le, regs, Signature(le, schema));
    if i: nat :| OnlySimilar(regs, schema, i) {
      NamesOfOnly(le, regs, schema, i);
      forall j: nat | OnlySimilar(regs, schema, j)
        ensures j == i
      {
      }
    }
    if |Names(le, regs, Signature(le, schema))| == 1 {
      var i := OneNameIsOnly(le, regs, schema);
      NamesOfOnly(le, regs, schema, i);
    }
  }

  /**
   A schema that is itself registered gets the name of its last registration. Any other gets a name only if its
   structure counts, and then if and only if exactly one registered schema differs from it at most in the order
   of keys: that one's name.
   */
  lemma {:induction false} NamedExactly(le: Order, regs: seq<Registration>, id: nat, schema: Json, structural: bool,
                                        name: string)
    requires TotalOrder(le) && Valid(schema) && forall r :: r in regs ==> Valid(r.schema)
    ensures NamedSchema(le, Fill(le, regs), id, schema, structural) == Some(name)
            <==> || (exists i: nat :: LastOf(regs, id, i) && regs[i].name == name)
                 || (&& structural && (forall i :: 0 <= i < |regs| ==> regs[i].schemaObject != id)
                     && exists i: nat :: OnlySimilar(regs, schema, i) && regs[i].name == name)
  {
    var last := ByObjectExact(le, regs, id);
    NamedBySimilar(le, regs, schema, name);
    if last >= 0 {
      assert LastOf(regs, id, last);
      forall i: nat | LastOf(regs, id, i)
        ensures i == last
      {
      }
    }
  }
}
