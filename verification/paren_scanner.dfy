/**
 The argument scanner of the temporary-path guardrail (openclaw/scripts/check-temp-path-guardrails.ts):
 where a call's closing parenthesis is, and what its arguments are, in the presence of quotes.
 */
module ParenScanner {
  import opened Prelude

  predicate IsQuote(c: char) {
    c == '\'' || c == '"' || c == '`'
  }

  // ---------- Quotes ----------

  datatype Quoting = Quoting(quote: Option<char>, escaped: bool)

  const CLOSED := Quoting(None, false)

  /** The quoting state after one character. */
  function Advance(q: Quoting, ch: char): Quoting {
    if q.quote.None? then (if IsQuote(ch) then q.(quote := Some(ch)) else q)
    else if q.escaped then q.(escaped := false)
    else if ch == '\\' then q.(escaped := true)
    else if ch == q.quote.value then q.(quote := None)
    else q
  }

  class QuoteScanState {
    var quote: Option<char>
    var escaped: bool

    ghost function Model(): Quoting
      reads this
    {
      Quoting(quote, escaped)
    }

    constructor ()
      ensures Model() == CLOSED
    {
      quote, escaped := None, false;
    }

    method BeginQuotedSection(ch: char) returns (begun: bool)
      requires quote.None?
      modifies this
      ensures begun == IsQuote(ch) && Model() == Advance(old(Model()), ch)
    {
      if ch != '\'' && ch != '"' && ch != '`' {
        return false;
      }
      quote := Some(ch);
      return true;
    }

    method ConsumeQuotedChar(ch: char) returns (consumed: bool)
      modifies this
      ensures consumed == old(quote).Some?
      ensures Model() == if consumed then Advance(old(Model()), ch) else old(Model())
    {
      if quote.None? {
        return false;
      }
      if escaped {
        escaped := false;
        return true;
      }
      if ch == '\\' {
        escaped := true;
        return true;
      }
      if ch == quote.value {
        quote := None;
      }
      return true;
    }
  }

  // ---------- The closing parenthesis ----------

  /** Where in s the depth falls to 0; -1 if nowhere. */
  function Find(s: string, q: Quoting, depth: nat): (r: int)
    ensures -1 <= r < |s|
  {
    if s == "" then -1
    else
      var ch := s[0];
      if q.quote.None? && ch == ')' && depth <= 1 then 0
      else
        var depth' :=
          if q.quote.Some? then depth else if ch == '(' then depth + 1 else if ch == ')' then depth - 1 else depth;
        var r := Find(s[1..], Advance(q, ch), depth');
        if r == -1 then -1 else r + 1
  }

  method FindMatchingParen(source: string, openIndex: nat) returns (r: int)
    ensures r == -1 || openIndex < r < |source|
    ensures var start := openIndex + 1;
            var found := if start <= |source| then Find(source[start..], CLOSED, 1) else -1;
            r == if found == -1 then -1 else start + found
  {
    var depth: nat := 1;
    var quoteState := new QuoteScanState();
    var i := openIndex + 1;
    ghost var start := i;
    if i > |source| {
      return -1;
    }
    ghost var found := Find(source[i..], CLOSED, 1);
    while i < |source|
      invariant start <= i <= |source| && depth >= 1
      invariant var later := Find(source[i..], quoteState.Model(), depth);
                found == if later == -1 then -1 else i - start + later
    {
      var ch := source[i];
      assert source[i..][0] == ch && source[i..][1..] == source[i + 1..];
      i := i + 1;
      var consumed := quoteState.ConsumeQuotedChar(ch);
      if consumed {
        continue;
      }
      var begun := quoteState.BeginQuotedSection(ch);
      if begun {
        continue;
      }
      if ch == '(' {
        depth := depth + 1;
        continue;
      }
      if ch == ')' {
        depth := depth - 1;
        if depth == 0 {
          return i - 1;
        }
      }
    }
    return -1;
  }

  // ---------- What balanced code is ----------

  // A piece of source text: plain characters, quoted sections and groups in brackets.
  datatype Code =
    | Empty
    | Plain(c: char, rest: Code)
    | Quoted(q: char, body: string, rest: Code)
    | Group(open: char, inner: Code, rest: Code)

  function Closing(open: char): char {
    if open == '(' then ')' else if open == '[' then ']' else '}'
  }

  function Show(t: Code): string {
    match t
    case Empty => ""
    case Plain(c, rest) => [c] + Show(rest)
    case Quoted(q, body, rest) => [q] + (body + ([q] + Show(rest)))
    case Group(open, inner, rest) => [open] + (Show(inner) + ([Closing(open)] + Show(rest)))
  }

  /** A quoted text that a quote character q ends neither within nor just after an escape. */
  predicate QuotedBody(q: char, body: string) {
    body == "" || (if body[0] == '\\' then |body| >= 2 && QuotedBody(q, body[2..])
                   else body[0] != q && QuotedBody(q, body[1..]))
  }

  /** Balanced in parentheses; other brackets are plain characters. */
  predicate Balanced(t: Code) {
    match t
    case Empty => true
    case Plain(c, rest) => c != '\'' && c != '"' && c != '`' && c != '(' && c != ')' && Balanced(rest)
    case Quoted(q, body, rest) => (q == '\'' || q == '"' || q == '`') && QuotedBody(q, body) && Balanced(rest)
    case Group(open, inner, rest) => open == '(' && Balanced(inner) && Balanced(rest)
  }

  /** The position after `skipped` characters of what is found later. */
  function Shift(skipped: nat, later: int): int {
    if later == -1 then -1 else skipped + later
  }

  function Deeper(q: Quoting, ch: char, depth: nat): nat {
    if q.quote.Some? then depth
    else if ch == '(' then depth + 1
    else if ch == ')' && depth > 0 then depth - 1
    else depth
  }

  lemma {:induction false} FindStep(ch: char, tail: string, q: Quoting, depth: nat)
    requires q.quote.None? && ch == ')' ==> depth > 1
    ensures Find([ch] + tail, q, depth) == Shift(1, Find(tail, Advance(q, ch), Deeper(q, ch, depth)))
  {
    assert ([ch] + tail)[1..] == tail;
  }

  lemma TakeTwo(s: string, tail: string)
    requires |s| >= 2
    ensures s + tail == [s[0]] + ([s[1]] + (s[2..] + tail))
  {
    var rest := [s[1]] + (s[2..] + tail);
    assert s == [s[0]] + s[1..] && s[1..] == [s[1]] + s[2..];
    Regroup([s[1]], s[2..], tail);
    Regroup([s[0]], s[1..], tail);
  }

  lemma {:induction false} FindSkipsBody(q: char, body: string, rest: string, depth: nat)
    requires IsQuote(q) && QuotedBody(q, body)
    ensures Find(body + ([q] + rest), Quoting(Some(q), false), depth) == Shift(|body| + 1, Find(rest, CLOSED, depth))
  {
    var end := [q] + rest;
    if body == "" {
      assert body + end == end;
      FindStep(q, rest, Quoting(Some(q), false), depth);
    } else if body[0] == '\\' {
      TakeTwo(body, end);
      FindStep(body[0], [body[1]] + (body[2..] + end), Quoting(Some(q), false), depth);
      FindStep(body[1], body[2..] + end, Quoting(Some(q), true), depth);
      FindSkipsBody(q, body[2..], rest, depth);
    } else {
      assert body + end == [body[0]] + (body[1..] + end);
      FindStep(body[0], body[1..] + end, Quoting(Some(q), false), depth);
      FindSkipsBody(q, body[1..], rest, depth);
    }
  }

  /** How the text of a piece of code starts. */
  lemma {:induction false} ShowParts(t: Code, rest: string)
    ensures t.Empty? ==> Show(t) + rest == rest
    ensures t.Plain? ==> Show(t) + rest == [t.c] + (Show(t.rest) + rest)
    ensures t.Quoted? ==> Show(t) + rest == [t.q] + (t.body + ([t.q] + (Show(t.rest) + rest)))
    ensures t.Group? ==> Show(t) + rest == [t.open] + (Show(t.inner) + ([Closing(t.open)] + (Show(t.rest) + rest)))
  {
    match t
    case Empty =>
    case Plain(c, more) => Regroup([c], Show(more), rest);
    case Quoted(q, body, more) =>
      Regroup([q], body + ([q] + Show(more)), rest);
      Regroup(body, [q] + Show(more), rest);
      Regroup([q], Show(more), rest);
    case Group(open, inner, more) =>
      var end := [Closing(open)];
      Regroup([open], Show(inner) + (end + Show(more)), rest);
      Regroup(Show(inner), end + Show(more), rest);
      Regroup(end, Show(more), rest);
  }

  /** The first piece of some code and the code after it. */
  function FirstText(t: Code): string
    requires !t.Empty?
  {
    match t
    case Plain(c, _) => [c]
    case Quoted(q, body, _) => [q] + (body + [q])
    case Group(open, inner, _) => [open] + (Show(inner) + [Closing(open)])
  }

  lemma {:induction false} ShowSplits(t: Code)
    requires !t.Empty?
    ensures Show(t) == FirstText(t) + Show(t.rest)
  {
    match t
    case Plain(c, more) =>
    case Quoted(q, body, more) =>
      Regroup([q], body + [q], Show(more));
      Regroup(body, [q], Show(more));
    case Group(open, inner, more) =>
      Regroup([open], Show(inner) + [Closing(open)], Show(more));
      Regroup(Show(inner), [Closing(open)], Show(more));
  }

  lemma {:induction false} FindSkipsQuoted(q: char, body: string, rest: string, depth: nat)
    requires IsQuote(q) && QuotedBody(q, body)
    ensures Find([q] + (body + ([q] + rest)), CLOSED, depth) == Shift(|body| + 2, Find(rest, CLOSED, depth))
  {
    FindStep(q, body + ([q] + rest), CLOSED, depth);
    FindSkipsBody(q, body, rest, depth);
  }

  lemma FindSkipsGroup(inner: string, rest: string, depth: nat)
    requires depth >= 1
    requires Find(inner + ([')'] + rest), CLOSED, depth + 1) == Shift(|inner|, Find([')'] + rest, CLOSED, depth + 1))
    ensures Find(['('] + (inner + ([')'] + rest)), CLOSED, depth) == Shift(|inner| + 2, Find(rest, CLOSED, depth))
  {
    FindStep('(', inner + ([')'] + rest), CLOSED, depth);
    FindStep(')', rest, CLOSED, depth + 1);
  }

  lemma {:induction false} FindSkipsPlain(c: char, rest: string, depth: nat)
    requires !IsQuote(c) && c != '(' && c != ')'
    ensures Find([c] + rest, CLOSED, depth) == Shift(1, Find(rest, CLOSED, depth))
  {
    FindStep(c, rest, CLOSED, depth);
  }

  /** The search passes over the first piece of balanced code, if it passes over the code within it. */
  lemma {:induction false} FindSkipsFirst(t: Code, rest: string, depth: nat)
    requires Balanced(t) && !t.Empty? && depth >= 1
    requires t.Group? ==>
               var tail := [')'] + (Show(t.rest) + rest);
               Find(Show(t.inner) + tail, CLOSED, depth + 1) == Shift(|Show(t.inner)|, Find(tail, CLOSED, depth + 1))
    ensures Find(Show(t) + rest, CLOSED, depth) == Shift(|FirstText(t)|, Find(Show(t.rest) + rest, CLOSED, depth))
  {
    ShowParts(t, rest);
    match t
    case Plain(c, more) => FindSkipsPlain(c, Show(more) + rest, depth);
    case Quoted(q, body, more) => FindSkipsQuoted(q, body, Show(more) + rest, depth);
    case Group(open, inner, more) => FindSkipsGroup(Show(inner), Show(more) + rest, depth);
  }

  /** The search passes over balanced code. */
  lemma {:induction false} FindSkips(t: Code, rest: string, depth: nat)
    requires Balanced(t) && depth >= 1
    ensures Find(Show(t) + rest, CLOSED, depth) == Shift(|Show(t)|, Find(rest, CLOSED, depth))
  {
    if t.Empty? {
      ShowParts(t, rest);
    } else {
      if t.Group? {
        FindSkips(t.inner, [')'] + (Show(t.rest) + rest), depth + 1);
      }
      FindSkips(t.rest, rest, depth);
      FindSkipsFirst(t, rest, depth);
      ShowSplits(t);
    }
  }

  /** A search that succeeds within quotes first passes over a quoted text and its closing quote. */
  lemma {:induction false} ParseQuoted(s: string, q: char, depth: nat) returns (body: string, rest: string)
    requires IsQuote(q) && Find(s, Quoting(Some(q), false), depth) != -1
    ensures QuotedBody(q, body) && s == body + ([q] + rest)
    ensures Find(rest, CLOSED, depth) != -1
  {
    if s[0] == q {
      body, rest := "", s[1..];
    } else if s[0] == '\\' {
      assert s[1..][1..] == s[2..];
      body, rest := ParseQuoted(s[2..], q, depth);
      body := s[..2] + body;
    } else {
      body, rest := ParseQuoted(s[1..], q, depth);
      body := s[..1] + body;
    }
  }

  /** A search that succeeds first passes over balanced code and a closing parenthesis. */
  lemma {:induction false} Parse(s: string, depth: nat) returns (t: Code, rest: string)
    requires depth >= 1 && Find(s, CLOSED, depth) != -1
    ensures Balanced(t) && s == Show(t) + ([')'] + rest)
    ensures depth > 1 ==> Find(rest, CLOSED, depth - 1) != -1
    decreases |s|
  {
    assert s == [s[0]] + s[1..];
    if s[0] == ')' {
      t, rest := Empty, s[1..];
    } else if s[0] == '(' {
      var inner, tail := Parse(s[1..], depth + 1);
      var more;
      more, rest := Parse(tail, depth);
      t := Group('(', inner, more);
    } else if IsQuote(s[0]) {
      var body, tail := ParseQuoted(s[1..], s[0], depth);
      var more;
      more, rest := Parse(tail, depth);
      t := Quoted(s[0], body, more);
    } else {
      var more;
      more, rest := Parse(s[1..], depth);
      t := Plain(s[0], more);
    }
    ShowParts(t, [')'] + rest);
  }

  /** Some balanced code followed by a closing parenthesis ends at position r. */
  ghost predicate ClosesAt(s: string, r: int) {
    exists t: Code :: Balanced(t) && 0 <= r == |Show(t)| < |s| && Show(t) + [')'] == s[..r + 1]
  }

  /** The search finds position r if and only if what comes before r is balanced code and r closes it. */
  lemma {:induction false} FindExact(s: string, r: nat)
    ensures Find(s, CLOSED, 1) == r <==> ClosesAt(s, r)
  {
    if Find(s, CLOSED, 1) != -1 {
      var t, rest := Parse(s, 1);
      assert Show(t) + [')'] == s[..|Show(t)| + 1];
      FindAt(t, s);
      assert ClosesAt(s, |Show(t)|);
    }
    if ClosesAt(s, r) {
      var t :| Balanced(t) && 0 <= r == |Show(t)| < |s| && Show(t) + [')'] == s[..r + 1];
      FindAt(t, s);
    }
  }

  lemma {:induction false} FindAt(t: Code, s: string)
    requires Balanced(t) && |Show(t)| < |s| && Show(t) + [')'] == s[..|Show(t)| + 1]
    ensures Find(s, CLOSED, 1) == |Show(t)|
  {
    var rest := s[|Show(t)| + 1..];
    assert s == (Show(t) + [')']) + rest;
    Regroup(Show(t), [')'], rest);
    FindSkips(t, [')'] + rest, 1);
  }

  // ---------- The arguments ----------

  datatype Scan = Scan(quoting: Quoting, parens: nat, brackets: nat, braces: nat)

  const START := Scan(CLOSED, 0, 0, 0)

  /** Outside quotes and brackets of any kind. */
  predicate AtTop(st: Scan) {
    st.quoting.quote.None? && st.parens == 0 && st.brackets == 0 && st.braces == 0
  }

  function Down(depth: nat): nat {
    if depth > 0 then depth - 1 else 0
  }

  function Next(st: Scan, ch: char): Scan {
    if st.quoting.quote.Some? || IsQuote(ch) then st.(quoting := Advance(st.quoting, ch))
    else match ch
         case '(' => st.(parens := st.parens + 1)
         case ')' => st.(parens := Down(st.parens))
         case '[' => st.(brackets := st.brackets + 1)
         case ']' => st.(brackets := Down(st.brackets))
         case '{' => st.(braces := st.braces + 1)
         case '}' => st.(braces := Down(st.braces))
         case _ => st
  }

  /** The pieces between the commas at the top, not trimmed; `current` is the start of the first. */
  function Pieces(s: string, st: Scan, current: string): (pieces: seq<string>)
    ensures pieces != []
    decreases |s|
  {
    if s == "" then [current]
    else if s[0] == ',' && AtTop(st) then [current] + Pieces(s[1..], st, "")
    else Pieces(s[1..], Next(st, s[0]), current + [s[0]])
  }

  lemma {:induction false} PiecesStep(ch: char, tail: string, st: Scan, current: string)
    requires ch != ',' || !AtTop(st)
    ensures Pieces([ch] + tail, st, current) == Pieces(tail, Next(st, ch), current + [ch])
  {
    assert ([ch] + tail)[1..] == tail;
  }

  function TrimAll(pieces: seq<string>): (trimmed: seq<string>)
    ensures |trimmed| == |pieces|
    ensures forall i :: 0 <= i < |pieces| ==> trimmed[i] == Trim(pieces[i])
  {
    seq(|pieces|, i requires 0 <= i < |pieces| => Trim(pieces[i]))
  }

  lemma TrimAllPlus(pieces: seq<string>, last: string)
    ensures TrimAll(pieces + [last]) == TrimAll(pieces) + [Trim(last)]
  {
  }

  /** The trimmed pieces, without the last if it is blank. */
  function Arguments(pieces: seq<string>): seq<string>
    requires pieces != []
  {
    var init := pieces[..|pieces| - 1];
    if Trim(pieces[|pieces| - 1]) == "" then TrimAll(init) else TrimAll(pieces)
  }

  lemma BlankTrims(s: string)
    ensures Trim(s) == "" <==> IsBlank(s)
  {
    var a, b := TrimExact(s);
    if Trim(s) != "" {
      assert s[|a|] == Trim(s)[0];
    }
  }

  /** Each piece is trimmed, and the last one is left out if it is white space. */
  lemma ArgumentsExact(pieces: seq<string>)
    requires pieces != []
    ensures var out := Arguments(pieces);
            && |out| == (if forall c :: c in pieces[|pieces| - 1] ==> IsSpace(c) then |pieces| - 1 else |pieces|)
            && forall i :: 0 <= i < |out| ==> out[i] == Trim(pieces[i])
  {
    BlankTrims(pieces[|pieces| - 1]);
  }

  /** After i characters, `done` are the pieces before the one that `current` starts. */
  ghost predicate Reached(source: string, i: nat, st: Scan, current: string, done: seq<string>) {
    i <= |source| && Pieces(source, START, "") == done + Pieces(source[i..], st, current)
  }

  lemma {:induction false} ReachedNext(source: string, i: nat, st: Scan, current: string, done: seq<string>)
    requires i < |source| && Reached(source, i, st, current, done) && !(source[i] == ',' && AtTop(st))
    ensures Reached(source, i + 1, Next(st, source[i]), current + [source[i]], done)
  {
    assert source[i..] == [source[i]] + source[i + 1..];
    PiecesStep(source[i], source[i + 1..], st, current);
  }

  lemma {:induction false} ReachedComma(source: string, i: nat, st: Scan, current: string, done: seq<string>)
    requires i < |source| && Reached(source, i, st, current, done) && source[i] == ',' && AtTop(st)
    ensures Reached(source, i + 1, st, "", done + [current])
    ensures TrimAll(done + [current]) == TrimAll(done) + [Trim(current)]
  {
    assert source[i..][1..] == source[i + 1..];
    Regroup(done, [current], Pieces(source[i + 1..], st, ""));
    TrimAllPlus(done, current);
  }

  lemma {:induction false} ReachedEnd(source: string, st: Scan, current: string, done: seq<string>)
    requires Reached(source, |source|, st, current, done)
    ensures Arguments(Pieces(source, START, "")) ==
            if Trim(current) == "" then TrimAll(done) else TrimAll(done) + [Trim(current)]
  {
    assert (done + [current])[..|done|] == done;
    TrimAllPlus(done, current);
  }

  method SplitTopLevelArguments(source: string) returns (out: seq<string>)
    ensures out == Arguments(Pieces(source, START, ""))
  {
    out := [];
    var current := "";
    var parenDepth: nat, bracketDepth: nat, braceDepth: nat := 0, 0, 0;
    var quoteState := new QuoteScanState();
    ghost var done: seq<string> := [];
    for i := 0 to |source|
      invariant out == TrimAll(done)
      invariant Reached(source, i, Scan(quoteState.Model(), parenDepth, bracketDepth, braceDepth), current, done)
    {
      var ch := source[i];
      ghost var st := Scan(quoteState.Model(), parenDepth, bracketDepth, braceDepth);
      if ch == ',' && AtTop(st) {
        ReachedComma(source, i, st, current, done);
      } else {
        ReachedNext(source, i, st, current, done);
      }
      if quoteState.quote.Some? {
        current := current + [ch];
        var _ := quoteState.ConsumeQuotedChar(ch);
        continue;
      }
      var begun := quoteState.BeginQuotedSection(ch);
      if begun {
        current := current + [ch];
        continue;
      }
      if ch == '(' {
        parenDepth := parenDepth + 1;
      } else if ch == ')' {
        if parenDepth > 0 {
          parenDepth := parenDepth - 1;
        }
      } else if ch == '[' {
        bracketDepth := bracketDepth + 1;
      } else if ch == ']' {
        if bracketDepth > 0 {
          bracketDepth := bracketDepth - 1;
        }
      } else if ch == '{' {
        braceDepth := braceDepth + 1;
      } else if ch == '}' {
        if braceDepth > 0 {
          braceDepth := braceDepth - 1;
        }
      } else if ch == ',' && parenDepth == 0 && bracketDepth == 0 && braceDepth == 0 {
        out := out + [Trim(current)];
        done := done + [current];
        current := "";
        continue;
      }
      current := current + [ch];
    }
    assert source[|source|..] == "";
    ReachedEnd(source, Scan(quoteState.Model(), parenDepth, bracketDepth, braceDepth), current, done);
    if Trim(current) != "" {
      out := out + [Trim(current)];
    }
  }

  /** The pieces with a comma between them. */
  function Join(pieces: seq<string>): string {
    if pieces == [] then "" else if |pieces| == 1 then pieces[0] else pieces[0] + ([','] + Join(pieces[1..]))
  }

  lemma {:induction false} PiecesRejoin(s: string, st: Scan, current: string)
    ensures Join(Pieces(s, st, current)) == current + s
    decreases |s|
  {
    if s != "" {
      assert s == [s[0]] + s[1..];
      if s[0] == ',' && AtTop(st) {
        PiecesRejoin(s[1..], st, "");
        var later := Pieces(s[1..], st, "");
        assert ([current] + later)[1..] == later;
      } else {
        PiecesRejoin(s[1..], Next(st, s[0]), current + [s[0]]);
        Regroup(current, [s[0]], s[1..]);
      }
    }
  }

  /** The scan state after a text. */
  function After(s: string, st: Scan): Scan
    decreases |s|
  {
    if s == "" then st else After(s[1..], Next(st, s[0]))
  }

  /** One of the commas between the pieces is at position n of the joined text. */
  predicate SeparatorAt(pieces: seq<string>, n: int) {
    |pieces| > 1 && (n == |pieces[0]| || SeparatorAt(pieces[1..], n - |pieces[0]| - 1))
  }

  lemma {:induction false} SeparatorBounds(pieces: seq<string>, n: int)
    requires SeparatorAt(pieces, n)
    ensures n >= |pieces[0]|
  {
    if n != |pieces[0]| {
      SeparatorBounds(pieces[1..], n - |pieces[0]| - 1);
    }
  }

  /** The cuts are exactly the commas outside quotes and brackets. */
  lemma {:induction false} CutsExactly(s: string, st: Scan, current: string, i: nat)
    requires i < |s|
    ensures SeparatorAt(Pieces(s, st, current), |current| + i) <==> s[i] == ',' && AtTop(After(s[..i], st))
    decreases |s|
  {
    var pieces := Pieces(s, st, current);
    if s[0] == ',' && AtTop(st) {
      var later := Pieces(s[1..], st, "");
      assert pieces[0] == current && pieces[1..] == later;
      if i > 0 {
        CutsExactly(s[1..], st, "", i - 1);
        assert s[..i][1..] == s[1..][..i - 1];
      }
    } else {
      var longer := current + [s[0]];
      if i > 0 {
        CutsExactly(s[1..], Next(st, s[0]), longer, i - 1);
        assert s[..i][1..] == s[1..][..i - 1];
      } else {
        PiecesStart(s[1..], Next(st, s[0]), longer);
        if SeparatorAt(pieces, |current|) {
          SeparatorBounds(pieces, |current|);
        }
      }
    }
  }

  lemma {:induction false} PiecesStart(s: string, st: Scan, current: string)
    ensures |Pieces(s, st, current)[0]| >= |current|
    decreases |s|
  {
    if s != "" && !(s[0] == ',' && AtTop(st)) {
      PiecesStart(s[1..], Next(st, s[0]), current + [s[0]]);
    }
  }

  // ---------- The two scans together ----------

  /** No closing parenthesis outside quotes comes without an open one. */
  predicate NeverClamped(s: string, st: Scan)
    decreases |s|
  {
    s == "" || (!(st.quoting.quote.None? && s[0] == ')' && st.parens == 0) && NeverClamped(s[1..], Next(st, s[0])))
  }

  /**
   On what the first scan delimits, the second never meets a parenthesis it would have to ignore, and
   it ends outside quotes and parentheses.
   */
  lemma {:induction false} InteriorIsClean(s: string, st: Scan)
    requires Find(s, st.quoting, st.parens + 1) != -1
    ensures var interior := s[..Find(s, st.quoting, st.parens + 1)];
            && NeverClamped(interior, st)
            && After(interior, st).quoting.quote.None? && After(interior, st).parens == 0
    decreases |s|
  {
    var r := Find(s, st.quoting, st.parens + 1);
    if r > 0 {
      assert !(st.quoting.quote.None? && s[0] == ')' && st.parens == 0);
      var next := Next(st, s[0]);
      assert next.quoting == Advance(st.quoting, s[0]);
      InteriorIsClean(s[1..], next);
      assert s[..r][1..] == s[1..][..r - 1];
    }
  }

  /** Code in which brackets of all kinds are nested; at the top it has no comma. */
  predicate WellNested(t: Code, top: bool) {
    match t
    case Empty => true
    case Plain(c, rest) =>
      c != '\'' && c != '"' && c != '`' && c !in "()[]{}" && (c == ',' ==> !top) && WellNested(rest, top)
    case Quoted(q, body, rest) => (q == '\'' || q == '"' || q == '`') && QuotedBody(q, body) && WellNested(rest, top)
    case Group(open, inner, rest) => open in "([{" && WellNested(inner, false) && WellNested(rest, top)
  }

  lemma {:induction false} PiecesSkipBody(q: char, body: string, rest: string, st: Scan, current: string)
    requires IsQuote(q) && QuotedBody(q, body) && st.quoting == CLOSED
    ensures Pieces(body + ([q] + rest), st.(quoting := Quoting(Some(q), false)), current) ==
            Pieces(rest, st, current + (body + [q]))
  {
    var end := [q] + rest;
    var inside := st.(quoting := Quoting(Some(q), false));
    if body == "" {
      assert body + end == end && body + [q] == [q];
      PiecesStep(q, rest, inside, current);
    } else if body[0] == '\\' {
      TakeTwo(body, end);
      PiecesStep(body[0], [body[1]] + (body[2..] + end), inside, current);
      PiecesStep(body[1], body[2..] + end, inside.(quoting := Quoting(Some(q), true)), current + [body[0]]);
      PiecesSkipBody(q, body[2..], rest, st, current + [body[0]] + [body[1]]);
      TakeTwo(body, [q]);
      Regroup(current + [body[0]], [body[1]], body[2..] + [q]);
      Regroup(current, [body[0]], [body[1]] + (body[2..] + [q]));
    } else {
      assert body + end == [body[0]] + (body[1..] + end);
      PiecesStep(body[0], body[1..] + end, inside, current);
      PiecesSkipBody(q, body[1..], rest, st, current + [body[0]]);
      assert body + [q] == [body[0]] + (body[1..] + [q]);
      Regroup(current, [body[0]], body[1..] + [q]);
    }
  }

  lemma {:induction false} PiecesSkipQuoted(q: char, body: string, rest: string, st: Scan, current: string)
    requires IsQuote(q) && QuotedBody(q, body) && st.quoting == CLOSED
    ensures Pieces([q] + (body + ([q] + rest)), st, current) == Pieces(rest, st, current + ([q] + (body + [q])))
  {
    PiecesStep(q, body + ([q] + rest), st, current);
    PiecesSkipBody(q, body, rest, st, current + [q]);
    Regroup(current, [q], body + [q]);
  }

  lemma GroupSteps(open: char, st: Scan)
    requires st.quoting == CLOSED && open in "([{"
    ensures var inside := Next(st, open);
            inside.quoting == CLOSED && !AtTop(inside) && Next(inside, Closing(open)) == st
    ensures open != ',' && Closing(open) != ','
  {
  }

  lemma {:induction false} PiecesSkipGroup(open: char, inner: string, rest: string, st: Scan, current: string)
    requires st.quoting == CLOSED && open in "([{"
    requires var tail := [Closing(open)] + rest;
             Pieces(inner + tail, Next(st, open), current + [open]) ==
             Pieces(tail, Next(st, open), current + [open] + inner)
    ensures Pieces([open] + (inner + ([Closing(open)] + rest)), st, current) ==
            Pieces(rest, st, current + ([open] + (inner + [Closing(open)])))
  {
    GroupSteps(open, st);
    PiecesStep(open, inner + ([Closing(open)] + rest), st, current);
    PiecesStep(Closing(open), rest, Next(st, open), current + [open] + inner);
    Regroup(current, [open], inner);
    Regroup(current, [open] + inner, [Closing(open)]);
    Regroup([open], inner, [Closing(open)]);
  }

  /** The split keeps a well-nested piece of code together. */
  lemma {:induction false} PiecesSkip(t: Code, rest: string, st: Scan, current: string)
    requires st.quoting == CLOSED && WellNested(t, AtTop(st))
    ensures Pieces(Show(t) + rest, st, current) == Pieces(rest, st, current + Show(t))
    decreases t
  {
    ShowParts(t, rest);
    if t.Empty? {
      assert current + "" == current;
    } else {
      ShowSplits(t);
      PiecesSkip(t.rest, rest, st, current + FirstText(t));
      Regroup(current, FirstText(t), Show(t.rest));
      match t
      case Plain(c, more) => PiecesStep(c, Show(more) + rest, st, current);
      case Quoted(q, body, more) => PiecesSkipQuoted(q, body, Show(more) + rest, st, current);
      case Group(open, inner, more) =>
        GroupSteps(open, st);
        PiecesSkip(inner, [Closing(open)] + (Show(more) + rest), Next(st, open), current + [open]);
        PiecesSkipGroup(open, Show(inner), Show(more) + rest, st, current);
    }
  }

  // ---------- Reading a call back ----------

  function Append(a: Code, b: Code): Code {
    match a
    case Empty => b
    case Plain(c, rest) => Plain(c, Append(rest, b))
    case Quoted(q, body, rest) => Quoted(q, body, Append(rest, b))
    case Group(open, inner, rest) => Group(open, inner, Append(rest, b))
  }

  lemma {:induction false} AppendShows(a: Code, b: Code)
    ensures Show(Append(a, b)) == Show(a) + Show(b)
    ensures Balanced(a) && Balanced(b) ==> Balanced(Append(a, b))
  {
    ShowParts(a, Show(b));
    if !a.Empty? {
      AppendShows(a.rest, b);
    }
  }

  /** The same text, with brackets and braces as plain characters. */
  function Flat(t: Code): Code {
    match t
    case Empty => Empty
    case Plain(c, rest) => Plain(c, Flat(rest))
    case Quoted(q, body, rest) => Quoted(q, body, Flat(rest))
    case Group(open, inner, rest) =>
      if open == '(' then Group(open, Flat(inner), Flat(rest))
      else Plain(open, Append(Flat(inner), Plain(Closing(open), Flat(rest))))
  }

  lemma {:induction false} FlatShows(t: Code, top: bool)
    requires WellNested(t, top)
    ensures Balanced(Flat(t)) && Show(Flat(t)) == Show(t)
    decreases t
  {
    match t
    case Empty =>
    case Plain(c, rest) => FlatShows(rest, top);
    case Quoted(q, body, rest) => FlatShows(rest, top);
    case Group(open, inner, rest) =>
      FlatShows(inner, false);
      FlatShows(rest, top);
      AppendShows(Flat(inner), Plain(Closing(open), Flat(rest)));
  }

  function ShowAll(args: seq<Code>): (texts: seq<string>)
    ensures |texts| == |args|
  {
    seq(|args|, i requires 0 <= i < |args| => Show(args[i]))
  }

  function JoinCode(args: seq<Code>): Code {
    if args == [] then Empty
    else if |args| == 1 then Flat(args[0])
    else Append(Flat(args[0]), Plain(',', JoinCode(args[1..])))
  }

  lemma {:induction false} JoinCodeShows(args: seq<Code>)
    requires forall a :: a in args ==> WellNested(a, true)
    ensures Balanced(JoinCode(args)) && Show(JoinCode(args)) == Join(ShowAll(args))
  {
    if args != [] {
      assert args[0] in args;
      FlatShows(args[0], true);
      if |args| > 1 {
        JoinCodeShows(args[1..]);
        AppendShows(Flat(args[0]), Plain(',', JoinCode(args[1..])));
        assert ShowAll(args)[1..] == ShowAll(args[1..]);
      }
    }
  }

  lemma {:induction false} PiecesOfJoin(args: seq<Code>)
    requires args != [] && forall a :: a in args ==> WellNested(a, true)
    ensures Pieces(Join(ShowAll(args)), START, "") == ShowAll(args)
  {
    assert args[0] in args;
    var first := Show(args[0]);
    assert "" + first == first;
    if |args| == 1 {
      PiecesSkip(args[0], "", START, "");
      assert first + "" == first;
    } else {
      assert ShowAll(args)[1..] == ShowAll(args[1..]);
      var tail := [','] + Join(ShowAll(args[1..]));
      PiecesSkip(args[0], tail, START, "");
      assert tail[1..] == Join(ShowAll(args[1..]));
      PiecesOfJoin(args[1..]);
    }
  }

  /** Outside quotes, a closing bracket of which none is open is no more than a character. */
  lemma {:induction false} StrayIgnored(ch: char, rest: string, st: Scan, current: string)
    requires st.quoting == CLOSED
    requires (ch == ')' && st.parens == 0) || (ch == ']' && st.brackets == 0) || (ch == '}' && st.braces == 0)
    ensures Pieces([ch] + rest, st, current) == Pieces(rest, st, current + [ch])
  {
    PiecesStep(ch, rest, st, current);
  }

  lemma {:induction false} FindsOwnParen(args: seq<Code>, post: string)
    requires forall a :: a in args ==> WellNested(a, true)
    ensures Find(Join(ShowAll(args)) + ([')'] + post), CLOSED, 1) == |Join(ShowAll(args))|
  {
    JoinCodeShows(args);
    FindSkips(JoinCode(args), [')'] + post, 1);
    FindAtOnce(post);
  }

  lemma {:induction false} FindAtOnce(post: string)
    ensures Find([')'] + post, CLOSED, 1) == 0
  {
  }

  /**
   In a call written with any well-nested arguments, whatever follows it, the first scan finds the call's own
   closing parenthesis and the second gives its arguments back, trimmed and without the last if it is blank.
   */
  lemma {:induction false} CallReadsBack(args: seq<Code>, post: string)
    requires args != [] && forall a :: a in args ==> WellNested(a, true)
    ensures var text := Join(ShowAll(args));
            var out := Arguments(Pieces(text, START, ""));
            && Find(text + ([')'] + post), CLOSED, 1) == |text|
            && |out| == (if forall c :: c in Show(args[|args| - 1]) ==> IsSpace(c) then |args| - 1 else |args|)
            && forall i :: 0 <= i < |out| ==> out[i] == Trim(Show(args[i]))
  {
    FindsOwnParen(args, post);
    PiecesOfJoin(args);
    ArgumentsExact(ShowAll(args));
  }
}
