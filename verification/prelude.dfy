/** Small shared vocabulary: optional values, outcomes, JavaScript white space, insertion-ordered maps and lists. */
module Prelude {

  datatype Option<+T> = None | Some(value: T)

  datatype Result<+T, +E> = Ok(value: T) | Err(error: E)

  /** The characters that String.prototype.trim and `\s` treat as white space. */
  predicate IsSpace(c: char) {
    || '\t' <= c <= '\r' || c == ' ' || c == '\U{00A0}' || c == '\U{1680}'
    || '\U{2000}' <= c <= '\U{200A}' || c == '\U{2028}' || c == '\U{2029}' || c == '\U{202F}'
    || c == '\U{205F}' || c == '\U{3000}' || c == '\U{FEFF}'
  }

  /** `!s.trim()` */
  predicate IsBlank(s: string) {
    forall i :: 0 <= i < |s| ==> IsSpace(s[i])
  }

  function TrimStart(s: string): string {
    if s != "" && IsSpace(s[0]) then TrimStart(s[1..]) else s
  }

  function TrimEnd(s: string): string {
    if s != "" && IsSpace(s[|s| - 1]) then TrimEnd(s[..|s| - 1]) else s
  }

  function Trim(s: string): string {
    TrimEnd(TrimStart(s))
  }

  lemma {:induction false} TrimStartExact(s: string) returns (a: string)
    ensures s == a + TrimStart(s) && IsBlank(a)
    ensures TrimStart(s) != "" ==> !IsSpace(TrimStart(s)[0])
  {
    a := "";
    if s != "" && IsSpace(s[0]) {
      a := TrimStartExact(s[1..]);
      a := [s[0]] + a;
    }
  }

  lemma {:induction false} TrimEndExact(s: string) returns (b: string)
    ensures s == TrimEnd(s) + b && IsBlank(b)
    ensures TrimEnd(s) != "" ==> !IsSpace(TrimEnd(s)[|TrimEnd(s)| - 1])
  {
    b := "";
    if s != "" && IsSpace(s[|s| - 1]) {
      b := TrimEndExact(s[..|s| - 1]);
      b := b + [s[|s| - 1]];
    }
  }

  /** White space are the characters WhiteSpace and LineTerminator of sections 12.2 and 12.3 of ECMA-262. */
  lemma SpaceExact(c: char)
    ensures IsSpace(c)
            <==> c as int in {0x9, 0xA, 0xB, 0xC, 0xD, 0x20, 0xA0, 0x1680, 0x2000, 0x2001, 0x2002, 0x2003, 0x2004,
                              0x2005, 0x2006, 0x2007, 0x2008, 0x2009, 0x200A, 0x2028, 0x2029, 0x202F, 0x205F, 0x3000,
                              0xFEFF}
  {
  }

  /** Trimming takes white space off both ends and leaves none there. */
  lemma TrimExact(s: string) returns (a: string, b: string)
    ensures s == a + Trim(s) + b
    ensures forall c :: c in a + b ==> IsSpace(c)
    ensures Trim(s) != "" ==> !IsSpace(Trim(s)[0]) && !IsSpace(Trim(s)[|Trim(s)| - 1])
  {
    a := TrimStartExact(s);
    b := TrimEndExact(TrimStart(s));
  }

  lemma {:induction false} TrimStartIs(a: string, rest: string)
    requires IsBlank(a) && (rest != "" ==> !IsSpace(rest[0]))
    ensures TrimStart(a + rest) == rest
  {
    if a == "" {
      assert a + rest == rest;
    } else {
      TrimStartIs(a[1..], rest);
      assert (a + rest)[1..] == a[1..] + rest;
    }
  }

  lemma {:induction false} TrimEndIs(rest: string, b: string)
    requires IsBlank(b) && (rest != "" ==> !IsSpace(rest[|rest| - 1]))
    ensures TrimEnd(rest + b) == rest
  {
    if b == "" {
      assert rest + b == rest;
    } else {
      TrimEndIs(rest, b[..|b| - 1]);
      assert (rest + b)[..|rest + b| - 1] == rest + b[..|b| - 1];
    }
  }

  /** What stands between white space, with none at its own ends, is the trimmed text. */
  lemma TrimIs(a: string, middle: string, b: string)
    requires IsBlank(a) && IsBlank(b)
    requires middle != "" ==> !IsSpace(middle[0]) && !IsSpace(middle[|middle| - 1])
    ensures Trim(a + middle + b) == middle
  {
    if middle == "" {
      TrimStartIs(a + b, "");
      assert a + middle + b == a + b + "";
    } else {
      TrimStartIs(a, middle + b);
      TrimEndIs(middle, b);
      assert a + middle + b == a + (middle + b);
    }
  }

  predicate Distinct<T(==)>(xs: seq<T>) {
    forall i, j :: 0 <= i < j < |xs| ==> xs[i] != xs[j]
  }

  /** A JavaScript Map: `keys` lists the keys in insertion order, `vals` holds their current values. */
  datatype OrderedMap<V> = OrderedMap(keys: seq<string>, vals: map<string, V>) {

    ghost predicate Valid() {
      Distinct(keys) && forall k :: k in keys <==> k in vals
    }

    /** Map.prototype.set: a known key keeps its position. */
    function Put(key: string, value: V): OrderedMap<V> {
      OrderedMap(if key in vals then keys else keys + [key], vals[key := value])
    }

    lemma PutValid(key: string, value: V)
      requires Valid()
      ensures Put(key, value).Valid()
    {
    }
  }

  function EmptyMap<V>(): OrderedMap<V> {
    OrderedMap([], map[])
  }

  // ---------- Lists ----------

  function Concat<T>(lists: seq<seq<T>>): seq<T> {
    if lists == [] then [] else lists[0] + Concat(lists[1..])
  }

  lemma {:induction false} ConcatAppend<T>(lists: seq<seq<T>>, last: seq<T>)
    ensures Concat(lists + [last]) == Concat(lists) + last
  {
    if lists == [] {
      assert [last][1..] == [];
    } else {
      ConcatAppend(lists[1..], last);
      assert (lists + [last])[1..] == lists[1..] + [last];
    }
  }

  lemma {:induction false} ConcatJoin<T>(a: seq<seq<T>>, b: seq<seq<T>>)
    ensures Concat(a + b) == Concat(a) + Concat(b)
  {
    if a == [] {
      assert a + b == b;
    } else {
      ConcatJoin(a[1..], b);
      assert (a + b)[0] == a[0] && (a + b)[1..] == a[1..] + b;
      Regroup(a[0], Concat(a[1..]), Concat(b));
    }
  }

  lemma Regroup<T>(a: seq<T>, b: seq<T>, c: seq<T>)
    ensures (a + b) + c == a + (b + c)
  {
  }

  lemma OneMore<T>(xs: seq<T>, i: nat)
    requires i < |xs|
    ensures xs[..i + 1] == xs[..i] + [xs[i]] && xs[..i + 1][..i] == xs[..i]
  {
  }

  lemma TakeAndDrop<T>(xs: seq<T>, i: nat)
    requires i <= |xs|
    ensures xs == xs[..i] + xs[i..]
  {
  }

  /** The values that are there, in order. */
  function Somes<T>(xs: seq<Option<T>>): seq<T> {
    if xs == [] then []
    else
      var last := xs[|xs| - 1];
      Somes(xs[..|xs| - 1]) + if last.Some? then [last.value] else []
  }

  /** The positions of the first n that have a value. */
  lemma {:induction false} SomesAt<T>(xs: seq<Option<T>>, n: nat) returns (at: seq<nat>)
    requires n <= |xs|
    ensures |at| == |Somes(xs[..n])| && forall i, j :: 0 <= i < j < |at| ==> at[i] < at[j]
    ensures forall j :: 0 <= j < |at| ==> at[j] < n && xs[at[j]] == Some(Somes(xs[..n])[j])
    ensures forall i :: 0 <= i < n ==> (i in at <==> xs[i].Some?)
  {
    at := [];
    if n > 0 {
      at := SomesAt(xs, n - 1);
      OneMore(xs, n - 1);
      if xs[n - 1].Some? {
        at := at + [n - 1];
      }
    }
  }
}
