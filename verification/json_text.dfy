/** JSON values and the text that JSON.stringify gives them, from which each value can be read back. */
module JsonText {
  import opened Prelude

  // A number is given by its JSON text, an object by its fields in order.
  datatype Json =
    | Null | Bool(b: bool) | Number(text: string) | Str(s: string) | Arr(items: seq<Json>) | Obj(fields: seq<Field>)
  datatype Field = Field(key: string, value: Json)

  predicate NumberChar(c: char) {
    '0' <= c <= '9' || c in "-+.e"
  }

  function Keys(fields: seq<Field>): (keys: seq<string>)
    ensures |keys| == |fields| && forall i :: 0 <= i < |fields| ==> keys[i] == fields[i].key
  {
    seq(|fields|, i requires 0 <= i < |fields| => fields[i].key)
  }

  /** Numbers have a number's text, and the keys of each object are distinct. */
  predicate Valid(j: Json) {
    match j
    case Number(text) =>
      text != "" && ('0' <= text[0] <= '9' || text[0] == '-') && forall c :: c in text ==> NumberChar(c)
    case Arr(items) => forall i :: 0 <= i < |items| ==> Valid(items[i])
    case Obj(fields) => Distinct(Keys(fields)) && forall i :: 0 <= i < |fields| ==> Valid(fields[i].value)
    case _ => true
  }

  // ---------- Text ----------

  function HexDigit(n: nat): char
    requires n < 16
  {
    "0123456789abcdef"[n]
  }

  function Escape(c: char): string {
    if c == '"' then "\\\""
    else if c == '\\' then "\\\\"
    else if c == '\U{0008}' then "\\b"
    else if c == '\t' then "\\t"
    else if c == '\n' then "\\n"
    else if c == '\U{000C}' then "\\f"
    else if c == '\r' then "\\r"
    else if (c as int) < 32 then "\\u00" + [if (c as int) < 16 then '0' else '1', HexDigit((c as int) % 16)]
    else [c]
  }

  function EscapeAll(s: string): string {
    if s == "" then "" else Escape(s[0]) + EscapeAll(s[1..])
  }

  function Quote(s: string): string {
    "\"" + (EscapeAll(s) + "\"")
  }

  function Stringify(j: Json): string {
    match j
    case Null => "null"
    case Bool(b) => if b then "true" else "false"
    case Number(text) => text
    case Str(s) => Quote(s)
    case Arr(items) => "[" + (Items(items) + "]")
    case Obj(fields) => "{" + (Members(fields) + "}")
  }

  function Items(items: seq<Json>): string {
    if items == [] then ""
    else Stringify(items[0]) + if |items| == 1 then "" else "," + Items(items[1..])
  }

  function Member(f: Field): string {
    Quote(f.key) + (":" + Stringify(f.value))
  }

  function Members(fields: seq<Field>): string {
    if fields == [] then ""
    else Member(fields[0]) + if |fields| == 1 then "" else "," + Members(fields[1..])
  }

  // ---------- Reading strings back ----------

  lemma ControlTells(c: char, d: char)
    requires (c as int) < 32 && (d as int) < 32 && ((c as int) < 16 <==> (d as int) < 16)
    requires HexDigit((c as int) % 16) == HexDigit((d as int) % 16)
    ensures c == d
  {
    assert forall i, j :: 0 <= i < 16 && 0 <= j < 16 && HexDigit(i) == HexDigit(j) ==> i == j;
    assert c as int == d as int;
    assert c == (c as int) as char == d;
  }

  /** No escape starts another. */
  lemma EscapeTells(c: char, d: char)
    requires Escape(c) <= Escape(d)
    ensures c == d
  {
    assert Escape(c)[0] == Escape(d)[0];
    if |Escape(c)| == 6 && |Escape(d)| == 6 {
      assert Escape(c)[4] == Escape(d)[4] && Escape(c)[5] == Escape(d)[5];
      ControlTells(c, d);
    } else if Escape(c)[0] == '\\' {
      assert Escape(c)[1] == Escape(d)[1];
    }
  }

  lemma EscapeReads(c: char, d: char, r: string, t: string)
    requires Escape(c) + r == Escape(d) + t
    ensures c == d && r == t
  {
    var whole := Escape(c) + r;
    if |Escape(c)| <= |Escape(d)| {
      assert Escape(c) == whole[..|Escape(d)|][..|Escape(c)|] && Escape(d) == whole[..|Escape(d)|];
      EscapeTells(c, d);
    } else {
      assert Escape(d) == whole[..|Escape(c)|][..|Escape(d)|] && Escape(c) == whole[..|Escape(c)|];
      EscapeTells(d, c);
    }
    SameTail(Escape(c), r, t);
  }

  lemma {:induction false} EscapedStart(s: string, r: string)
    requires s != ""
    ensures (EscapeAll(s) + ("\"" + r))[0] != '"'
  {
    assert (EscapeAll(s) + ("\"" + r))[0] == Escape(s[0])[0];
  }

  lemma {:induction false} QuotedReads(a: string, b: string, r: string, t: string)
    requires EscapeAll(a) + ("\"" + r) == EscapeAll(b) + ("\"" + t)
    ensures a == b && r == t
  {
    if a == "" || b == "" {
      assert EscapeAll("") + ("\"" + r) == "\"" + r && EscapeAll("") + ("\"" + t) == "\"" + t;
      if a != "" {
        EscapedStart(a, r);
      }
      if b != "" {
        EscapedStart(b, t);
      }
      SameTail("\"", r, t);
    } else {
      Regroup(Escape(a[0]), EscapeAll(a[1..]), "\"" + r);
      Regroup(Escape(b[0]), EscapeAll(b[1..]), "\"" + t);
      EscapeReads(a[0], b[0], EscapeAll(a[1..]) + ("\"" + r), EscapeAll(b[1..]) + ("\"" + t));
      QuotedReads(a[1..], b[1..], r, t);
    }
  }

  lemma SameTail<T>(a: seq<T>, r: seq<T>, t: seq<T>)
    requires a + r == a + t
    ensures r == t
  {
    assert r == (a + r)[|a|..] && t == (a + t)[|a|..];
  }

  lemma QuoteReads(a: string, b: string, r: string, t: string)
    requires Quote(a) + r == Quote(b) + t
    ensures a == b && r == t
  {
    Regroup("\"", EscapeAll(a) + "\"", r);
    Regroup(EscapeAll(a), "\"", r);
    Regroup("\"", EscapeAll(b) + "\"", t);
    Regroup(EscapeAll(b), "\"", t);
    SameTail("\"", EscapeAll(a) + ("\"" + r), EscapeAll(b) + ("\"" + t));
    QuotedReads(a, b, r, t);
  }

  // ---------- Reading values back ----------

  /** What can follow a value in a text. */
  predicate Ends(r: string) {
    r == "" || r[0] in ",]}"
  }

  lemma {:induction false} Starts(j: Json)
    requires Valid(j)
    ensures Stringify(j) != "" && Stringify(j)[0] !in ",]}"
    ensures j.Null? <==> Stringify(j)[0] == 'n'
    ensures j.Bool? <==> Stringify(j)[0] in "tf"
    ensures j.Number? <==> Stringify(j)[0] in "-0123456789"
    ensures j.Str? <==> Stringify(j)[0] == '"'
    ensures j.Arr? <==> Stringify(j)[0] == '['
    ensures j.Obj? <==> Stringify(j)[0] == '{'
  {
  }

  /** How many characters of a number a text starts with. */
  function NumberLength(s: string): nat {
    if s == "" || !NumberChar(s[0]) then 0 else 1 + NumberLength(s[1..])
  }

  lemma {:induction false} NumberEnds(a: string, r: string)
    requires (forall c :: c in a ==> NumberChar(c)) && Ends(r)
    ensures NumberLength(a + r) == |a|
  {
    if a == "" {
      assert a + r == r;
    } else {
      assert (a + r)[1..] == a[1..] + r;
      NumberEnds(a[1..], r);
    }
  }

  lemma NumberReads(a: string, b: string, r: string, t: string)
    requires (forall c :: c in a ==> NumberChar(c)) && (forall c :: c in b ==> NumberChar(c))
    requires Ends(r) && Ends(t) && a + r == b + t
    ensures a == b && r == t
  {
    NumberEnds(a, r);
    NumberEnds(b, t);
    assert a == (a + r)[..|a|] == (b + t)[..|b|] == b;
    SameTail(a, r, t);
  }

  /** Two texts that start with a value's text and go on as a text can start with the same value. */
  lemma {:induction false} StringifyReads(a: Json, b: Json, r: string, t: string)
    requires Valid(a) && Valid(b) && Ends(r) && Ends(t) && Stringify(a) + r == Stringify(b) + t
    ensures a == b && r == t
    decreases a, 0
  {
    Starts(a);
    Starts(b);
    assert Stringify(a)[0] == (Stringify(a) + r)[0] == (Stringify(b) + t)[0] == Stringify(b)[0];
    match a
    case Null => SameTail("null", r, t);
    case Bool(x) =>
      assert Stringify(a) == Stringify(b);
      SameTail(Stringify(a), r, t);
    case Number(text) => NumberReads(text, b.text, r, t);
    case Str(s) => QuoteReads(s, b.s, r, t);
    case Arr(items) =>
      Regroup("[", Items(items) + "]", r);
      Regroup(Items(items), "]", r);
      Regroup("[", Items(b.items) + "]", t);
      Regroup(Items(b.items), "]", t);
      SameTail("[", Items(items) + ("]" + r), Items(b.items) + ("]" + t));
      ItemsRead(items, b.items, r, t);
    case Obj(fields) =>
      Regroup("{", Members(fields) + "}", r);
      Regroup(Members(fields), "}", r);
      Regroup("{", Members(b.fields) + "}", t);
      Regroup(Members(b.fields), "}", t);
      SameTail("{", Members(fields) + ("}" + r), Members(b.fields) + ("}" + t));
      MembersRead(fields, b.fields, r, t);
  }

  /** The rest of a list after its first element: the closing bracket, or a comma and the other elements. */
  function Tail(more: bool, others: string, close: char, r: string): string {
    if more then "," + (others + ([close] + r)) else [close] + r
  }

  lemma {:induction false} ItemsSplit(items: seq<Json>, r: string)
    requires items != []
    ensures Items(items) + ("]" + r) == Stringify(items[0]) + Tail(|items| > 1, Items(items[1..]), ']', r)
  {
  }

  lemma {:induction false} ItemsStart(items: seq<Json>, r: string)
    requires items != [] && Valid(items[0])
    ensures (Items(items) + ("]" + r))[0] != ']'
  {
    Starts(items[0]);
  }

  lemma {:induction false} ItemsRead(a: seq<Json>, b: seq<Json>, r: string, t: string)
    requires (forall i :: 0 <= i < |a| ==> Valid(a[i])) && (forall i :: 0 <= i < |b| ==> Valid(b[i]))
    requires Items(a) + ("]" + r) == Items(b) + ("]" + t)
    ensures a == b && r == t
    decreases a, 1
  {
    if a == [] || b == [] {
      assert Items([]) + ("]" + r) == "]" + r && Items([]) + ("]" + t) == "]" + t;
      if a != [] {
        ItemsStart(a, r);
      }
      if b != [] {
        ItemsStart(b, t);
      }
      SameTail("]", r, t);
    } else {
      ItemsSplit(a, r);
      ItemsSplit(b, t);
      var restA, restB := Tail(|a| > 1, Items(a[1..]), ']', r), Tail(|b| > 1, Items(b[1..]), ']', t);
      StringifyReads(a[0], b[0], restA, restB);
      TailReads(|a| > 1, Items(a[1..]), |b| > 1, Items(b[1..]), ']', r, t);
      assert a == [a[0]] + a[1..] && b == [b[0]] + b[1..];
      if |a| > 1 {
        ItemsRead(a[1..], b[1..], r, t);
      }
    }
  }

  lemma TailReads(moreA: bool, a: string, moreB: bool, b: string, close: char, r: string, t: string)
    requires close != ',' && Tail(moreA, a, close, r) == Tail(moreB, b, close, t)
    ensures moreA == moreB
    ensures moreA ==> a + ([close] + r) == b + ([close] + t)
    ensures !moreA ==> r == t
  {
    assert Tail(moreA, a, close, r)[0] == if moreA then ',' else close;
    assert Tail(moreB, b, close, t)[0] == if moreB then ',' else close;
    if moreA {
      SameTail(",", a + ([close] + r), b + ([close] + t));
    } else {
      SameTail([close], r, t);
    }
  }

  lemma {:induction false} MembersSplit(fields: seq<Field>, r: string)
    requires fields != []
    ensures Members(fields) + ("}" + r) ==
            Quote(fields[0].key) +
            (":" + (Stringify(fields[0].value) + Tail(|fields| > 1, Members(fields[1..]), '}', r)))
  {
    var key, value, others := Quote(fields[0].key), Stringify(fields[0].value), Members(fields[1..]);
    var tail := Tail(|fields| > 1, others, '}', r);
    if |fields| > 1 {
      Regroup(",", others, "}" + r);
      Regroup(Member(fields[0]), "," + others, "}" + r);
    } else {
      Regroup(Member(fields[0]), "", "}" + r);
      assert "" + ("}" + r) == "}" + r;
    }
    Regroup(key, ":" + value, tail);
    Regroup(":", value, tail);
  }

  lemma {:induction false} MembersStart(fields: seq<Field>, r: string)
    requires fields != []
    ensures (Members(fields) + ("}" + r))[0] != '}'
  {
    MembersSplit(fields, r);
  }

  lemma {:induction false} MembersRead(a: seq<Field>, b: seq<Field>, r: string, t: string)
    requires (forall i :: 0 <= i < |a| ==> Valid(a[i].value)) && (forall i :: 0 <= i < |b| ==> Valid(b[i].value))
    requires Members(a) + ("}" + r) == Members(b) + ("}" + t)
    ensures a == b && r == t
    decreases a, 1
  {
    if a == [] || b == [] {
      assert Members([]) + ("}" + r) == "}" + r && Members([]) + ("}" + t) == "}" + t;
      if a != [] {
        MembersStart(a, r);
      }
      if b != [] {
        MembersStart(b, t);
      }
      SameTail("}", r, t);
    } else {
      MembersSplit(a, r);
      MembersSplit(b, t);
      var restA, restB := Tail(|a| > 1, Members(a[1..]), '}', r), Tail(|b| > 1, Members(b[1..]), '}', t);
      QuoteReads(a[0].key, b[0].key, ":" + (Stringify(a[0].value) + restA), ":" + (Stringify(b[0].value) + restB));
      SameTail(":", Stringify(a[0].value) + restA, Stringify(b[0].value) + restB);
      StringifyReads(a[0].value, b[0].value, restA, restB);
      TailReads(|a| > 1, Members(a[1..]), |b| > 1, Members(b[1..]), '}', r, t);
      assert a == [a[0]] + a[1..] && b == [b[0]] + b[1..];
      if |a| > 1 {
        MembersRead(a[1..], b[1..], r, t);
      }
    }
  }

  /** Different values have different texts. */
  lemma {:induction false} StringifyInjective(a: Json, b: Json)
    requires Valid(a) && Valid(b) && Stringify(a) == Stringify(b)
    ensures a == b
  {
    assert Stringify(a) + "" == Stringify(b) + "";
    StringifyReads(a, b, "", "");
  }
}
