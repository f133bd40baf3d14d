/**
 The bridge between voice input, the OpenClaw gateway and the speaking character
 (openclaw/interaction-bridge/main.py): matching responses to requests, and not saying a reply that
 the agent has already had spoken.
 */
module GatewayBridge {
  import opened Prelude
  import opened JsonText

  // ---------- Text ----------

  /** The characters that Python's str.strip removes. */
  predicate IsPythonSpace(c: char) {
    || '\t' <= c <= '\r' || '\U{001C}' <= c <= ' ' || c == '\U{0085}' || c == '\U{00A0}' || c == '\U{1680}'
    || '\U{2000}' <= c <= '\U{200A}' || c == '\U{2028}' || c == '\U{2029}' || c == '\U{202F}'
    || c == '\U{205F}' || c == '\U{3000}'
  }

  function StripLeft(s: string): string {
    if s != "" && IsPythonSpace(s[0]) then StripLeft(s[1..]) else s
  }

  function StripRight(s: string): string {
    if s != "" && IsPythonSpace(s[|s| - 1]) then StripRight(s[..|s| - 1]) else s
  }

  function Strip(s: string): string {
    StripRight(StripLeft(s))
  }

  /** A text that is not empty and has no space at its ends. */
  predicate Stripped(s: string) {
    s != "" && !IsPythonSpace(s[0]) && !IsPythonSpace(s[|s| - 1])
  }

  lemma {:induction false} StripLeftStarts(s: string)
    ensures StripLeft(s) != "" ==> !IsPythonSpace(StripLeft(s)[0])
  {
    if s != "" && IsPythonSpace(s[0]) {
      StripLeftStarts(s[1..]);
    }
  }

  lemma {:induction false} StripRightEnds(s: string)
    ensures StripRight(s) != "" ==> !IsPythonSpace(StripRight(s)[|StripRight(s)| - 1]) && StripRight(s)[0] == s[0]
    ensures s != "" && !IsPythonSpace(s[0]) ==> StripRight(s) != ""
  {
    if s != "" && IsPythonSpace(s[|s| - 1]) {
      StripRightEnds(s[..|s| - 1]);
    }
  }

  lemma StripStrips(s: string)
    ensures Strip(s) != "" ==> Stripped(Strip(s))
    ensures Stripped(s) ==> Strip(s) == s
  {
    StripLeftStarts(s);
    StripRightEnds(StripLeft(s));
  }

  lemma {:induction false} StripLeftExact(s: string) returns (a: string)
    ensures s == a + StripLeft(s) && forall c :: c in a ==> IsPythonSpace(c)
  {
    a := "";
    if s != "" && IsPythonSpace(s[0]) {
      a := StripLeftExact(s[1..]);
      a := [s[0]] + a;
    }
  }

  lemma {:induction false} StripRightExact(s: string) returns (b: string)
    ensures s == StripRight(s) + b && forall c :: c in b ==> IsPythonSpace(c)
  {
    b := "";
    if s != "" && IsPythonSpace(s[|s| - 1]) {
      b := StripRightExact(s[..|s| - 1]);
      b := b + [s[|s| - 1]];
    }
  }

  /** These are the characters for which str.isspace holds. */
  lemma PythonSpaceExact(c: char)
    ensures IsPythonSpace(c)
            <==> c as int in {0x9, 0xA, 0xB, 0xC, 0xD, 0x1C, 0x1D, 0x1E, 0x1F, 0x20, 0x85, 0xA0, 0x1680, 0x2000, 0x2001,
                              0x2002, 0x2003, 0x2004, 0x2005, 0x2006, 0x2007, 0x2008, 0x2009, 0x200A, 0x2028, 0x2029,
                              0x202F, 0x205F, 0x3000}
  {
  }

  /** Stripping takes such characters off both ends of a text and leaves none there. */
  lemma StripExact(s: string) returns (a: string, b: string)
    ensures s == a + Strip(s) + b
    ensures forall c :: c in a + b ==> IsPythonSpace(c)
    ensures Strip(s) != "" ==> !IsPythonSpace(Strip(s)[0]) && !IsPythonSpace(Strip(s)[|Strip(s)| - 1])
  {
    a := StripLeftExact(s);
    b := StripRightExact(StripLeft(s));
    StripStrips(s);
  }

  // ---------- JSON as Python sees it ----------

  /** `data.get(key)` for an object; of repeated keys the last counts. */
  function Get(j: Json, key: string): Option<Json>
    requires j.Obj?
  {
    LastField(j.fields, key)
  }

  function LastField(fields: seq<Field>, key: string): Option<Json> {
    if fields == [] then None
    else if fields[|fields| - 1].key == key then Some(fields[|fields| - 1].value)
    else LastField(fields[..|fields| - 1], key)
  }

  /** `data.get(key)` where data is an object, and None where it is not. */
  function Member(j: Option<Json>, key: string): Option<Json> {
    if j.Some? && j.value.Obj? then Get(j.value, key) else None
  }

  /** The value of a key is that of the last field with that key; None just when no field has it. */
  lemma {:induction false} MemberExact(fields: seq<Field>, key: string) returns (i: int)
    ensures -1 <= i < |fields| && forall k :: i < k < |fields| ==> fields[k].key != key
    ensures i == -1 <==> Member(Some(Obj(fields)), key) == None
    ensures i >= 0 ==> fields[i].key == key && Member(Some(Obj(fields)), key) == Some(fields[i].value)
  {
    i := |fields| - 1;
    if fields != [] && fields[i].key != key {
      i := MemberExact(fields[..i], key);
    }
  }

  predicate IsZero(number: string) {
    number == "" || number[0] == 'e' || number[0] == 'E' || (!('1' <= number[0] <= '9') && IsZero(number[1..]))
  }

  /** Python's truth value. */
  predicate Truthy(j: Option<Json>) {
    j.Some? &&
    match j.value
    case Null => false
    case Bool(b) => b
    case Number(text) => !IsZero(text)
    case Str(s) => s != ""
    case Arr(items) => items != []
    case Obj(fields) => fields != []
  }

  lemma {:induction false} ZeroExactly(number: string)
    ensures IsZero(number)
            <==> forall i :: 0 <= i < |number| && 'e' !in number[..i] && 'E' !in number[..i] ==>
                               !('1' <= number[i] <= '9')
  {
    if number != "" && number[0] != 'e' && number[0] != 'E' {
      ZeroExactly(number[1..]);
      forall i | 0 <= i < |number| - 1
        ensures number[1..][i] == number[i + 1] && number[..i + 1] == [number[0]] + number[1..][..i]
      {
      }
    }
  }

  /** True are `true`, what is not empty, and a number with a digit from 1 to 9 before its exponent. */
  lemma TruthyExact(j: Json)
    ensures Truthy(Some(j))
            <==> || j == Bool(true)
                 || (j.Str? && |j.s| > 0) || (j.Arr? && |j.items| > 0) || (j.Obj? && |j.fields| > 0)
                 || (&& j.Number?
                     && exists i :: 0 <= i < |j.text| && 'e' !in j.text[..i] && 'E' !in j.text[..i]
                                    && '1' <= j.text[i] <= '9')
  {
    if j.Number? {
      ZeroExactly(j.text);
    }
  }

  /** A string that is not blank, stripped. */
  function NonBlank(j: Option<Json>): (text: Option<string>)
    ensures text.Some? ==> Stripped(text.value)
  {
    if j.Some? && j.value.Str? && Strip(j.value.s) != "" then
      StripStrips(j.value.s);
      Some(Strip(j.value.s))
    else None
  }

  // ---------- What the assistant said ----------

  /** The text of a text block, if it is not blank. */
  function BlockText(block: Json): Option<string> {
    if block.Obj? && Get(block, "type") == Some(Str("text")) then NonBlank(Get(block, "text")) else None
  }

  /** The texts of the text blocks, in order. */
  function BlockTexts(blocks: seq<Json>): (parts: seq<string>)
    ensures forall part :: part in parts ==> Stripped(part)
  {
    if blocks == [] then []
    else
      var last := BlockText(blocks[|blocks| - 1]);
      BlockTexts(blocks[..|blocks| - 1]) + if last.Some? then [last.value] else []
  }

  /** `"\n".join(parts)` */
  function JoinLines(parts: seq<string>): string {
    if parts == [] then ""
    else if |parts| == 1 then parts[0]
    else JoinLines(parts[..|parts| - 1]) + "\n" + parts[|parts| - 1]
  }

  function ExtractTextFromMessage(message: Json): (text: Option<string>)
    ensures text.Some? ==> Stripped(text.value)
  {
    if !message.Obj? || Get(message, "role") != Some(Str("assistant")) then None
    else
      var text, content := NonBlank(Get(message, "text")), Get(message, "content");
      if text.Some? then text
      else if NonBlank(content).Some? then NonBlank(content)
      else if content.None? || !content.value.Arr? then None
      else
        StripStrips(JoinLines(BlockTexts(content.value.items)));
        var joined := Strip(JoinLines(BlockTexts(content.value.items)));
        if joined == "" then None else Some(joined)
  }

  lemma {:induction false} JoinedStripped(parts: seq<string>)
    requires parts != [] && forall part :: part in parts ==> Stripped(part)
    ensures Stripped(JoinLines(parts))
  {
    assert parts[|parts| - 1] in parts && parts[0] in parts;
    if |parts| > 1 {
      JoinedStripped(parts[..|parts| - 1]);
    }
  }

  /**
   Where the text of a message comes from: its "text" before its "content", a string before blocks, and
   of the blocks every text, unchanged but for the spaces at its ends. Only assistants' messages have one.
   */
  lemma ExtractExact(message: Json, s: string)
    ensures var m, text := Some(message), ExtractTextFromMessage(message);
            var silent := forall t :: Member(m, "text") == Some(Str(t)) ==> Strip(t) == "";
            if Member(m, "role") != Some(Str("assistant")) then text == None
            else
              && (Member(m, "text") == Some(Str(s)) && Strip(s) != "" ==> text == Some(Strip(s)))
              && (silent ==>
                    match Member(m, "content")
                    case Some(Str(content)) => text == (if Strip(content) == "" then None else Some(Strip(content)))
                    case Some(Arr(blocks)) =>
                      text == (if BlockTexts(blocks) == [] then None else Some(JoinLines(BlockTexts(blocks))))
                    case _ => text == None)
  {
    var content := Member(Some(message), "content");
    if content.Some? && content.value.Arr? && BlockTexts(content.value.items) != [] {
      JoinedStripped(BlockTexts(content.value.items));
      StripStrips(JoinLines(BlockTexts(content.value.items)));
    }
  }

  lemma {:induction false} BlockTextsAt(blocks: seq<Json>, n: nat) returns (at: seq<nat>)
    requires n <= |blocks|
    ensures |at| == |BlockTexts(blocks[..n])| && forall i, j :: 0 <= i < j < |at| ==> at[i] < at[j]
    ensures forall j :: 0 <= j < |at| ==> at[j] < n && BlockText(blocks[at[j]]) == Some(BlockTexts(blocks[..n])[j])
    ensures forall i :: 0 <= i < n ==> (i in at <==> BlockText(blocks[i]).Some?)
  {
    at := [];
    if n > 0 {
      at := BlockTextsAt(blocks, n - 1);
      OneMore(blocks, n - 1);
      if BlockText(blocks[n - 1]).Some? {
        at := at + [n - 1];
      }
    }
  }

  lemma BlockTextIs(block: Json, text: string)
    ensures BlockText(block) == Some(text)
            <==> && Member(Some(block), "type") == Some(Str("text"))
                 && match Member(Some(block), "text")
                    case Some(Str(s)) => text == Strip(s) && text != ""
                    case _ => false
  {
  }

  /** The block texts are those of the blocks of type "text" that are not blank, stripped and in order. */
  lemma BlockTextsExact(blocks: seq<Json>) returns (at: seq<nat>)
    ensures |at| == |BlockTexts(blocks)| && forall i, j :: 0 <= i < j < |at| ==> at[i] < at[j]
    ensures forall j :: 0 <= j < |at| ==>
                          && at[j] < |blocks| && Member(Some(blocks[at[j]]), "type") == Some(Str("text"))
                          && match Member(Some(blocks[at[j]]), "text")
                             case Some(Str(s)) => BlockTexts(blocks)[j] == Strip(s)
                             case _ => false
    ensures forall i, s | 0 <= i < |blocks| && Member(Some(blocks[i]), "type") == Some(Str("text")) ::
              Member(Some(blocks[i]), "text") == Some(Str(s)) && Strip(s) != "" ==> i in at
  {
    at := BlockTextsAt(blocks, |blocks|);
    assert blocks[..|blocks|] == blocks;
    forall j | 0 <= j < |at|
      ensures Member(Some(blocks[at[j]]), "type") == Some(Str("text"))
      ensures match Member(Some(blocks[at[j]]), "text")
              case Some(Str(s)) => BlockTexts(blocks)[j] == Strip(s)
              case _ => false
    {
      BlockTextIs(blocks[at[j]], BlockTexts(blocks)[j]);
    }
    forall i, s | 0 <= i < |blocks| && Member(Some(blocks[i]), "type") == Some(Str("text"))
                  && Member(Some(blocks[i]), "text") == Some(Str(s)) && Strip(s) != ""
      ensures i in at
    {
      BlockTextIs(blocks[i], Strip(s));
    }
  }

  /** Lines are joined by one line feed each. */
  lemma {:induction false} JoinLinesExact(a: seq<string>, b: seq<string>, line: string)
    requires a != [] && b != []
    ensures JoinLines([line]) == line && JoinLines(a + b) == JoinLines(a) + "\n" + JoinLines(b)
  {
    var init, last := b[..|b| - 1], b[|b| - 1];
    assert (a + b)[..|a + b| - 1] == a + init;
    if init == [] {
      assert a + init == a;
    } else {
      JoinLinesExact(a, init, line);
    }
  }

  /** The text of the last message that has one. */
  method ExtractLatestAssistantText(messages: Option<Json>) returns (text: Option<string>)
    ensures text == LatestText(messages)
  {
    if messages.None? || !messages.value.Arr? {
      return None;
    }
    var items := messages.value.items;
    var i := |items|;
    assert items[..i] == items;
    while i > 0
      invariant 0 <= i <= |items| && Latest(items) == Latest(items[..i])
    {
      i := i - 1;
      text := ExtractTextFromMessage(items[i]);
      if text.Some? {
        return text;
      }
      assert items[..i + 1][..i] == items[..i];
    }
    return None;
  }

  function LatestText(messages: Option<Json>): Option<string> {
    if messages.Some? && messages.value.Arr? then Latest(messages.value.items) else None
  }

  function Latest(messages: seq<Json>): Option<string> {
    if messages == [] then None
    else
      var text := ExtractTextFromMessage(messages[|messages| - 1]);
      if text.Some? then text else Latest(messages[..|messages| - 1])
  }

  lemma {:induction false} LatestAt(messages: seq<Json>) returns (i: int)
    ensures -1 <= i < |messages| && forall j :: i < j < |messages| ==> ExtractTextFromMessage(messages[j]).None?
    ensures i == -1 <==> Latest(messages).None?
    ensures i >= 0 ==> ExtractTextFromMessage(messages[i]) == Latest(messages)
  {
    if messages == [] {
      i := -1;
    } else if ExtractTextFromMessage(messages[|messages| - 1]).Some? {
      i := |messages| - 1;
    } else {
      i := LatestAt(messages[..|messages| - 1]);
    }
  }

  /** It is the text of a message after which no message has a text; None just when no message of a list has one. */
  lemma LatestExact(messages: Option<Json>) returns (i: int)
    ensures var items := match messages case Some(Arr(items)) => items case _ => [];
            && -1 <= i < |items| && (forall j :: i < j < |items| ==> ExtractTextFromMessage(items[j]).None?)
            && (i == -1 <==> LatestText(messages) == None)
            && (i >= 0 ==> ExtractTextFromMessage(items[i]) == LatestText(messages))
  {
    i := -1;
    if messages.Some? && messages.value.Arr? {
      i := LatestAt(messages.value.items);
    }
  }

  // ---------- Requests and responses ----------

  datatype Failure = Closed | BadFrame | NoNonce | NotOk | Empty

  // What a connection still delivers before it closes; None is a text that is not JSON.
  type Frames = seq<Option<Json>>

  predicate IsResponse(frame: Option<Json>, id: string) {
    && frame.Some? && frame.value.Obj?
    && Get(frame.value, "type") == Some(Str("res")) && Get(frame.value, "id") == Some(Str(id))
  }

  /** The first response to a request, unless a frame that is no JSON object or the close comes before it. */
  function Await(frames: Frames, id: string): (Result<Json, Failure>, Frames) {
    if frames == [] then (Err(Closed), [])
    else if frames[0].None? || !frames[0].value.Obj? then (Err(BadFrame), frames[1..])
    else if IsResponse(frames[0], id) then (Ok(frames[0].value), frames[1..])
    else Await(frames[1..], id)
  }

  /** The payload of an answer; an answer that is not ok fails the request. */
  function Payload(answer: Result<Json, Failure>): Result<Json, Failure> {
    match answer
    case Err(e) => Err(e)
    case Ok(res) =>
      if !res.Obj? || !Truthy(Get(res, "ok")) then Err(NotOk)
      else
        var payload := Get(res, "payload");
        Ok(if payload.Some? && payload.value.Obj? then payload.value else Obj([]))
  }

  function Messages(payload: Json): Option<Json> {
    if payload.Obj? then Get(payload, "messages") else None
  }

  // What a run sends to the gateway.
  datatype Request =
    | Connect(id: string, nonce: Json)
    | History(id: string)
    | Send(id: string, message: string)
    | Wait(id: string, runId: string)

  // The ids that a run makes up for its requests.
  datatype Ids = Ids(connect: string, before: string, send: string, wait: string, after: string)

  predicate HasNonce(challenge: Json) {
    challenge.Obj? && Get(challenge, "payload").Some? && Get(challenge, "payload").value.Obj?
    && Truthy(Get(Get(challenge, "payload").value, "nonce"))
  }

  function Nonce(challenge: Json): Json
    requires HasNonce(challenge)
  {
    Get(Get(challenge, "payload").value, "nonce").value
  }

  function RunId(res: Json): Option<string> {
    if !res.Obj? then None
    else
      var payload := Get(res, "payload");
      if payload.Some? && payload.value.Obj? then
        match Get(payload.value, "runId")
        case Some(Str(s)) => if s != "" then Some(s) else None
        case _ => None
      else None
  }

  /** The reply, if the history after the run ends with another text than the one before it. */
  function NewText(text: Option<string>, previous: Option<string>): Option<string> {
    if text.Some? && text != previous then text else None
  }

  // What a run learns from the gateway: the answer to its message and the assistant's new text.
  datatype Reply = Reply(answer: Json, text: Option<string>)

  function ReplyText(ids: Ids, frames: Frames, previous: Option<string>): Result<Option<string>, Failure> {
    var rest := Await(frames, ids.wait).1;
    match Payload(Await(rest, ids.after).0)
    case Err(e) => Err(e)
    case Ok(history) => Ok(NewText(LatestText(Messages(history)), previous))
  }

  /** What comes of the answer to the message. */
  function Answered(ids: Ids, sent: Result<Json, Failure>, frames: Frames, previous: Option<string>)
    : Result<Reply, Failure>
  {
    if sent.Err? then Err(sent.error)
    else if !sent.value.Obj? || !Truthy(Get(sent.value, "ok")) then Err(NotOk)
    else if RunId(sent.value).None? then Ok(Reply(sent.value, None))
    else
      match ReplyText(ids, frames, previous)
      case Err(e) => Err(e)
      case Ok(text) => Ok(Reply(sent.value, text))
  }

  function AfterConnect(ids: Ids, frames: Frames): Result<Reply, Failure> {
    var (before, frames2) := Await(frames, ids.before);
    match Payload(before)
    case Err(e) => Err(e)
    case Ok(history) =>
      var (sent, frames3) := Await(frames2, ids.send);
      Answered(ids, sent, frames3, LatestText(Messages(history)))
  }

  /** The whole exchange of a run, on everything the gateway sends. */
  function Exchange(ids: Ids, frames: Frames): Result<Reply, Failure> {
    if frames == [] then Err(Closed)
    else if frames[0].None? then Err(BadFrame)
    else if !HasNonce(frames[0].value) then Err(NoNonce)
    else
      var (connected, rest) := Await(frames[1..], ids.connect);
      if connected.Err? then Err(connected.error)
      else if !connected.value.Obj? || !Truthy(Get(connected.value, "ok")) then Err(NotOk)
      else AfterConnect(ids, rest)
  }

  /** A request gets the first response with its own id, whatever comes before and after it, or fails. */
  lemma {:induction false} AwaitExact(frames: Frames, id: string, k: nat)
    requires k <= |frames|
    requires forall j :: 0 <= j < k ==> frames[j].Some? && frames[j].value.Obj? && !IsResponse(frames[j], id)
    ensures k == |frames| ==> Await(frames, id) == (Err(Closed), [])
    ensures k < |frames| && IsResponse(frames[k], id) ==> Await(frames, id) == (Ok(frames[k].value), frames[k + 1..])
    ensures k < |frames| && (frames[k].None? || !frames[k].value.Obj?) ==>
              Await(frames, id) == (Err(BadFrame), frames[k + 1..])
  {
    if k > 0 {
      AwaitExact(frames[1..], id, k - 1);
      assert k < |frames| ==> frames[1..][k..] == frames[k + 1..];
    }
  }

  /** No answer to another request, however late, is taken for the answer to this one. */
  lemma {:induction false} AwaitOwn(frames: Frames, id: string)
    ensures var (answer, rest) := Await(frames, id);
            && |rest| <= |frames| && rest == frames[|frames| - |rest|..]
            && (answer.Ok? ==> Some(answer.value) in frames && IsResponse(Some(answer.value), id))
            && (answer == Err(Closed) ==> rest == [] && forall f :: f in frames ==> !IsResponse(f, id))
  {
    if frames != [] && frames[0].Some? && frames[0].value.Obj? && !IsResponse(frames[0], id) {
      AwaitOwn(frames[1..], id);
    }
  }

  /** The gateway answers each request id in one way, in any order and among any other messages. */
  ghost predicate Answers(frames: Frames, answer: map<string, Json>) {
    forall f, id :: f in frames && IsResponse(f, id) ==> id in answer && answer[id] == f.value
  }

  lemma {:induction false} AwaitAnswer(frames: Frames, id: string, answer: map<string, Json>)
    requires Answers(frames, answer)
    ensures var (got, rest) := Await(frames, id);
            && (got.Ok? ==> id in answer && got.value == answer[id])
            && Answers(rest, answer)
  {
    AwaitOwn(frames, id);
    var (got, rest) := Await(frames, id);
    assert forall f :: f in rest ==> f in frames;
  }

  /** What is read from an answer: whether it is ok, its messages, and the id of the run it started. */
  lemma AnswerParts(res: Json)
    ensures Payload(Ok(res)).Ok? <==> Truthy(Member(Some(res), "ok"))
    ensures Payload(Ok(res)).Ok? ==>
              Messages(Payload(Ok(res)).value) == Member(Member(Some(res), "payload"), "messages")
    ensures RunId(res) == match Member(Member(Some(res), "payload"), "runId")
                          case Some(Str(s)) => if s != "" then Some(s) else None
                          case _ => None
  {
  }

  /**
   Whatever the gateway interleaves, and even if waiting for the agent failed, the reply of a run is made of
   the gateway's answers to this run's own requests, which are ok: a text is the latest one of the history
   after the run, and another than that of the history before it. Without a text, no run was started, or the
   later history has no text, or still the same one.
   */
  lemma ReplyFromOwnAnswers(ids: Ids, frames: Frames, answer: map<string, Json>)
    requires Answers(frames, answer) && Exchange(ids, frames).Ok?
    ensures var reply := Exchange(ids, frames).value;
            && (forall id :: id in {ids.connect, ids.before, ids.send} ==>
                               id in answer && Truthy(Member(Some(answer[id]), "ok")))
            && reply.answer == answer[ids.send]
            && var runId := Member(Member(Some(reply.answer), "payload"), "runId");
               var before := LatestText(Member(Member(Some(answer[ids.before]), "payload"), "messages"));
               if runId.None? || !runId.value.Str? || runId.value.s == "" then reply.text == None
               else
                 && ids.after in answer && Truthy(Member(Some(answer[ids.after]), "ok"))
                 && var after := LatestText(Member(Member(Some(answer[ids.after]), "payload"), "messages"));
                    && (reply.text.Some? ==> reply.text == after && after != before)
                    && (reply.text.None? ==> after.None? || after == before)
  {
    assert forall f :: f in frames[1..] ==> f in frames;
    AwaitAnswer(frames[1..], ids.connect, answer);
    var frames1 := Await(frames[1..], ids.connect).1;
    AwaitAnswer(frames1, ids.before, answer);
    var frames2 := Await(frames1, ids.before).1;
    AwaitAnswer(frames2, ids.send, answer);
    var frames3 := Await(frames2, ids.send).1;
    AwaitAnswer(frames3, ids.wait, answer);
    AwaitAnswer(Await(frames3, ids.wait).1, ids.after, answer);
    AnswerParts(answer[ids.connect]);
    AnswerParts(answer[ids.before]);
    AnswerParts(answer[ids.send]);
    if RunId(answer[ids.send]).Some? {
      AnswerParts(answer[ids.after]);
    }
  }

  /** Frame k is the first response with this id from frame `from` on; the frames between are other objects. */
  ghost predicate Responds(frames: Frames, id: string, from: nat, k: nat) {
    && from <= k < |frames|
    && (forall j :: from <= j <= k ==> frames[j].Some? && frames[j].value.Obj?)
    && (forall j :: from <= j <= k ==>
                      (j == k <==> Member(frames[j], "type") == Some(Str("res"))
                                   && Member(frames[j], "id") == Some(Str(id))))
  }

  lemma {:induction false} AwaitResponds(frames: Frames, id: string, from: nat, k: nat)
    requires Responds(frames, id, from, k)
    ensures Await(frames[from..], id) == (Ok(frames[k].value), frames[k + 1..])
  {
    AwaitExact(frames[from..], id, k - from);
    assert frames[from..][k - from + 1..] == frames[k + 1..];
  }

  lemma {:induction false} ReplyTextEnds(ids: Ids, frames: Frames, s: nat, w: nat, a: nat, previous: Option<string>)
    requires s < |frames|
    requires Responds(frames, ids.wait, s + 1, w) && Responds(frames, ids.after, w + 1, a)
    ensures var after := LatestText(Member(Member(frames[a], "payload"), "messages"));
            ReplyText(ids, frames[s + 1..], previous) ==
            if Truthy(Member(frames[a], "ok")) then Ok(if after == previous then None else after) else Err(NotOk)
  {
    AwaitResponds(frames, ids.wait, s + 1, w);
    AwaitResponds(frames, ids.after, w + 1, a);
    AnswerParts(frames[a].value);
  }

  lemma {:induction false} AnsweredEnds(ids: Ids, frames: Frames, s: nat, w: nat, a: nat, previous: Option<string>)
    requires s < |frames| && frames[s].Some? && frames[s].value.Obj?
    requires Responds(frames, ids.wait, s + 1, w) && Responds(frames, ids.after, w + 1, a)
    ensures var runId := Member(Member(frames[s], "payload"), "runId");
            var after := LatestText(Member(Member(frames[a], "payload"), "messages"));
            Answered(ids, Ok(frames[s].value), frames[s + 1..], previous) ==
            if !Truthy(Member(frames[s], "ok")) then Err(NotOk)
            else if runId.None? || !runId.value.Str? || runId.value.s == "" then Ok(Reply(frames[s].value, None))
            else if !Truthy(Member(frames[a], "ok")) then Err(NotOk)
            else Ok(Reply(frames[s].value, if after == previous then None else after))
  {
    ReplyTextEnds(ids, frames, s, w, a, previous);
    AnswerParts(frames[s].value);
  }

  lemma {:induction false} AfterConnectIs(ids: Ids, frames: Frames, c: nat, b: nat, s: nat)
    requires c < |frames| && Responds(frames, ids.before, c + 1, b) && Truthy(Member(frames[b], "ok"))
    requires Responds(frames, ids.send, b + 1, s)
    ensures AfterConnect(ids, frames[c + 1..]) ==
            Answered(ids, Ok(frames[s].value), frames[s + 1..],
                     LatestText(Member(Member(frames[b], "payload"), "messages")))
  {
    AwaitResponds(frames, ids.send, b + 1, s);
    AwaitResponds(frames, ids.before, c + 1, b);
    AnswerParts(frames[b].value);
  }

  lemma {:induction false} ExchangeIs(ids: Ids, frames: Frames, c: nat)
    requires frames != [] && Truthy(Member(Member(frames[0], "payload"), "nonce"))
    requires Responds(frames, ids.connect, 1, c) && Truthy(Member(frames[c], "ok"))
    ensures Exchange(ids, frames) == AfterConnect(ids, frames[c + 1..])
  {
    AwaitResponds(frames, ids.connect, 1, c);
    AnswerParts(frames[c].value);
  }

  /**
   A run whose requests are answered in turn, the first two with an ok, gets the answer to its message. If
   that has the id of a started run, what comes is decided by the history that answers the last request.
   */
  lemma {:induction false} ExchangeEnds(ids: Ids, frames: Frames, c: nat, b: nat, s: nat, w: nat, a: nat)
    requires frames != [] && Truthy(Member(Member(frames[0], "payload"), "nonce"))
    requires Responds(frames, ids.connect, 1, c) && Truthy(Member(frames[c], "ok"))
    requires Responds(frames, ids.before, c + 1, b) && Truthy(Member(frames[b], "ok"))
    requires Responds(frames, ids.send, b + 1, s)
    requires Responds(frames, ids.wait, s + 1, w) && Responds(frames, ids.after, w + 1, a)
    ensures var runId := Member(Member(frames[s], "payload"), "runId");
            var before := LatestText(Member(Member(frames[b], "payload"), "messages"));
            var after := LatestText(Member(Member(frames[a], "payload"), "messages"));
            Exchange(ids, frames) ==
            if !Truthy(Member(frames[s], "ok")) then Err(NotOk)
            else if runId.None? || !runId.value.Str? || runId.value.s == "" then Ok(Reply(frames[s].value, None))
            else if !Truthy(Member(frames[a], "ok")) then Err(NotOk)
            else Ok(Reply(frames[s].value, if after == before then None else after))
  {
    ExchangeIs(ids, frames, c);
    AfterConnectIs(ids, frames, c, b, s);
    AnsweredEnds(ids, frames, s, w, a, LatestText(Member(Member(frames[b], "payload"), "messages")));
  }

  /** A run fails without a challenge that has a nonce, and if it cannot connect or gets no history. */
  lemma {:induction false} ExchangeStops(ids: Ids, frames: Frames, c: nat, b: nat)
    ensures frames == [] ==> Exchange(ids, frames) == Err(Closed)
    ensures frames != [] && frames[0].None? ==> Exchange(ids, frames) == Err(BadFrame)
    ensures frames != [] && frames[0].Some? && !Truthy(Member(Member(frames[0], "payload"), "nonce")) ==>
              Exchange(ids, frames) == Err(NoNonce)
    ensures && frames != [] && Truthy(Member(Member(frames[0], "payload"), "nonce"))
            && Responds(frames, ids.connect, 1, c) ==>
              if !Truthy(Member(frames[c], "ok")) then Exchange(ids, frames) == Err(NotOk)
              else
                Responds(frames, ids.before, c + 1, b) && !Truthy(Member(frames[b], "ok")) ==>
                  Exchange(ids, frames) == Err(NotOk)
  {
    if frames != [] && Truthy(Member(Member(frames[0], "payload"), "nonce")) && Responds(frames, ids.connect, 1, c) {
      AwaitResponds(frames, ids.connect, 1, c);
      AnswerParts(frames[c].value);
      if Truthy(Member(frames[c], "ok")) && Responds(frames, ids.before, c + 1, b) {
        ExchangeIs(ids, frames, c);
        AwaitResponds(frames, ids.before, c + 1, b);
        AnswerParts(frames[b].value);
      }
    }
  }

  // ---------- The tasks and their steps ----------

  // Tasks of the bridge: calls of the speak endpoint and runs.
  datatype Task = SpeakCall(call: nat) | Run(run: nat)

  // What can happen: the clock moves on; a run notes the time, sends a request, receives a frame, or looks
  // whether a speak call has completed; a task turns to the character, its text reaches the character,
  // or a speak call stores the time.
  datatype Action =
    | Passes(to: real)
    | Starts(run: nat)
    | Requests(run: nat, request: Request)
    | Receives(run: nat)
    | Decides(run: nat, skips: bool)
    | Tries(task: Task, text: string)
    | Delivers(task: Task, text: string)
    | Completes(call: nat)

  function By(a: Action): Option<Task> {
    match a
    case Passes(_) => None
    case Starts(run) => Some(Run(run))
    case Requests(run, _) => Some(Run(run))
    case Receives(run) => Some(Run(run))
    case Decides(run, _) => Some(Run(run))
    case Tries(task, _) => Some(task)
    case Delivers(task, _) => Some(task)
    case Completes(call) => Some(SpeakCall(call))
  }

  /** What one task has done. */
  function Own(trace: seq<Action>, task: Task): seq<Action> {
    if trace == [] then []
    else
      var last := trace[|trace| - 1];
      Own(trace[..|trace| - 1], task) + if By(last) == Some(task) then [last] else []
  }

  /** The latest step of a task is `a`. */
  predicate LastIs(trace: seq<Action>, task: Task, a: Action) {
    var own := Own(trace, task);
    own != [] && own[|own| - 1] == a
  }

  /** A run has started and is still talking to the gateway. */
  predicate Talking(trace: seq<Action>, run: nat) {
    var own := Own(trace, Run(run));
    own != [] && Rank(own[|own| - 1]) <= 1
  }

  /** The clock after a trace. */
  function Clock(began: real, trace: seq<Action>): real {
    if trace == [] then began
    else if trace[|trace| - 1].Passes? then trace[|trace| - 1].to
    else Clock(began, trace[..|trace| - 1])
  }

  /** It is the time to which the clock moved last, or the one it began with. */
  lemma {:induction false} ClockExact(began: real, trace: seq<Action>) returns (i: int)
    ensures -1 <= i < |trace| && forall j :: i < j < |trace| ==> !trace[j].Passes?
    ensures i >= 0 ==> trace[i].Passes? && Clock(began, trace) == trace[i].to
    ensures i == -1 ==> Clock(began, trace) == began
  {
    i := |trace| - 1;
    if trace != [] && !trace[i].Passes? {
      i := ClockExact(began, trace[..i]);
    }
  }

  /** The time stored by the last speak call that completed. */
  function StoredTime(began: real, trace: seq<Action>): real {
    if trace == [] then 0.0
    else if trace[|trace| - 1].Completes? then Clock(began, trace[..|trace| - 1])
    else StoredTime(began, trace[..|trace| - 1])
  }

  /** The time that a run noted when it started. */
  function StartTime(began: real, trace: seq<Action>, run: nat): real {
    if trace == [] then 0.0
    else if trace[|trace| - 1] == Starts(run) then Clock(began, trace[..|trace| - 1])
    else StartTime(began, trace[..|trace| - 1], run)
  }

  /** The order in which a task takes its steps. */
  function Rank(a: Action): nat {
    match a
    case Starts(_) => 0
    case Requests(_, _) => 1
    case Receives(_) => 1
    case Decides(_, _) => 2
    case Tries(_, _) => 3
    case Delivers(_, _) => 4
    case Completes(_) => 5
    case Passes(_) => 6
  }

  /** Which step can come next: the clock does not go back, and each task goes on where it is. */
  predicate Legal(began: real, trace: seq<Action>, a: Action) {
    match a
    case Passes(to) => Clock(began, trace) <= to
    case Starts(run) => Own(trace, Run(run)) == []
    case Requests(run, _) => Talking(trace, run)
    case Receives(run) => Talking(trace, run)
    case Decides(run, skips) =>
      Talking(trace, run) && skips == (StoredTime(began, trace) >= StartTime(began, trace, run))
    case Tries(task, _) =>
      if task.SpeakCall? then Own(trace, task) == [] else LastIs(trace, task, Decides(task.run, false))
    case Delivers(task, text) => LastIs(trace, task, Tries(task, text))
    case Completes(call) =>
      var own := Own(trace, SpeakCall(call));
      own != [] && own[|own| - 1].Delivers?
  }

  predicate AllLegal(began: real, trace: seq<Action>) {
    trace != [] ==>
      AllLegal(began, trace[..|trace| - 1]) && Legal(began, trace[..|trace| - 1], trace[|trace| - 1])
  }

  /** A step that other tasks, or the clock, can take while `task` waits. */
  predicate Allowed(began: real, trace: seq<Action>, task: Task, a: Action) {
    Legal(began, trace, a) && By(a) != Some(task)
  }

  lemma {:induction false} OneMoreAction(began: real, trace: seq<Action>, a: Action)
    ensures AllLegal(began, trace + [a]) <==> AllLegal(began, trace) && Legal(began, trace, a)
    ensures Clock(began, trace + [a]) == if a.Passes? then a.to else Clock(began, trace)
    ensures StoredTime(began, trace + [a]) == if a.Completes? then Clock(began, trace) else StoredTime(began, trace)
  {
    assert (trace + [a])[..|trace|] == trace;
  }

  lemma {:induction false} OwnPlus(trace: seq<Action>, a: Action, task: Task)
    ensures Own(trace + [a], task) == Own(trace, task) + if By(a) == Some(task) then [a] else []
  {
    assert (trace + [a])[..|trace|] == trace;
  }

  lemma {:induction false} OwnGrows(trace: seq<Action>, more: seq<Action>, task: Task)
    ensures |Own(trace, task)| <= |Own(trace + more, task)|
    ensures |Own(trace, task)| == |Own(trace + more, task)| ==> Own(trace, task) == Own(trace + more, task)
  {
    if more == [] {
      assert trace + more == trace;
    } else {
      var init := more[..|more| - 1];
      OwnGrows(trace, init, task);
      assert (trace + more)[..|trace + more| - 1] == trace + init;
    }
  }

  predicate AllAllowed(began: real, before: seq<Action>, task: Task, more: seq<Action>) {
    more != [] ==>
      && AllAllowed(began, before, task, more[..|more| - 1])
      && Allowed(began, before + more[..|more| - 1], task, more[|more| - 1])
  }

  /**
   What can happen while a task waits is every legal continuation in which it does nothing
   itself: each step of each other task, at any point.
   */
  lemma {:induction false} WaitingExactly(began: real, before: seq<Action>, task: Task, more: seq<Action>)
    requires AllLegal(began, before)
    ensures AllAllowed(began, before, task, more) <==>
            AllLegal(began, before + more) && Own(before + more, task) == Own(before, task)
  {
    if more == [] {
      assert before + more == before;
    } else {
      var init, last := more[..|more| - 1], more[|more| - 1];
      WaitingExactly(began, before, task, init);
      assert (before + init) + [last] == before + more;
      OneMoreAction(began, before + init, last);
      OwnPlus(before + init, last, task);
      OwnGrows(before, init, task);
    }
  }

  // ---------- What every interleaving keeps ----------

  lemma {:induction false} LegalPrefix(began: real, trace: seq<Action>, n: nat)
    requires AllLegal(began, trace) && n <= |trace|
    ensures AllLegal(began, trace[..n])
    ensures n < |trace| ==> Legal(began, trace[..n], trace[n])
  {
    if n < |trace| - 1 {
      LegalPrefix(began, trace[..|trace| - 1], n);
      assert trace[..|trace| - 1][..n] == trace[..n];
    } else if n == |trace| {
      assert trace[..n] == trace;
    }
  }

  /** A step comes later in the order than the latest one of its task, or both are part of the talk. */
  lemma {:induction false} LegalRank(began: real, trace: seq<Action>, a: Action, task: Task)
    requires Legal(began, trace, a) && By(a) == Some(task) && Own(trace, task) != []
    ensures var last := Own(trace, task)[|Own(trace, task)| - 1];
            Rank(last) < Rank(a) || Rank(last) == Rank(a) == 1
  {
  }

  lemma {:induction false} LatestRanksHighest(began: real, trace: seq<Action>, task: Task, i: nat)
    requires AllLegal(began, trace) && i < |trace| && By(trace[i]) == Some(task)
    ensures var own := Own(trace, task); own != [] && Rank(trace[i]) <= Rank(own[|own| - 1])
  {
    var init, last := trace[..|trace| - 1], trace[|trace| - 1];
    if i < |init| {
      LatestRanksHighest(began, init, task, i);
      if By(last) == Some(task) {
        LegalRank(began, init, last, task);
      }
    }
  }

  /** Each task takes its steps in order, and each but requests and receipts at most once. */
  lemma {:induction false} StepsInOrder(began: real, trace: seq<Action>, task: Task, i: nat, j: nat)
    requires AllLegal(began, trace) && i < j < |trace| && By(trace[i]) == By(trace[j]) == Some(task)
    ensures Rank(trace[i]) < Rank(trace[j]) || Rank(trace[i]) == Rank(trace[j]) == 1
  {
    LegalPrefix(began, trace, j);
    LatestRanksHighest(began, trace[..j], task, i);
    LegalRank(began, trace[..j], trace[j], task);
  }

  lemma {:induction false} ClockOnward(began: real, trace: seq<Action>, i: nat)
    requires AllLegal(began, trace) && i <= |trace|
    ensures Clock(began, trace[..i]) <= Clock(began, trace)
  {
    if i < |trace| {
      ClockOnward(began, trace[..|trace| - 1], i);
      assert trace[..|trace| - 1][..i] == trace[..i];
    } else {
      assert trace[..i] == trace;
    }
  }

  /** Step i completed a speak call, at `since` or later. */
  predicate CompletedSince(began: real, trace: seq<Action>, i: nat, since: real) {
    i < |trace| && trace[i].Completes? && Clock(began, trace[..i]) >= since
  }

  /** Some speak call has completed at `since` or later. */
  ghost predicate SpokenSince(began: real, trace: seq<Action>, since: real) {
    exists i: nat :: CompletedSince(began, trace, i, since)
  }

  lemma {:induction false} CompletedEarlier(began: real, trace: seq<Action>, since: real, i: nat)
    requires trace != [] && i < |trace| - 1
    ensures CompletedSince(began, trace, i, since) <==> CompletedSince(began, trace[..|trace| - 1], i, since)
  {
    assert trace[..|trace| - 1][..i] == trace[..i];
  }

  /** The stored time says whether some speak call has completed since a given moment. */
  lemma {:induction false} StoredTimeTells(began: real, trace: seq<Action>, since: real)
    requires AllLegal(began, trace) && 0.0 < since
    ensures StoredTime(began, trace) >= since <==> SpokenSince(began, trace, since)
  {
    if trace != [] {
      var init := trace[..|trace| - 1];
      StoredTimeTells(began, init, since);
      if StoredTime(began, trace) >= since {
        if trace[|init|].Completes? {
          assert CompletedSince(began, trace, |init|, since);
        } else {
          var i: nat :| CompletedSince(began, init, i, since);
          CompletedEarlier(began, trace, since, i);
        }
      }
      if i: nat :| CompletedSince(began, trace, i, since) {
        if i < |init| {
          CompletedEarlier(began, trace, since, i);
          ClockOnward(began, init, i);
        }
      }
    }
  }

  /** A run that has done anything has started, and its start time is the clock of that step. */
  lemma {:induction false} StartFound(began: real, trace: seq<Action>, run: nat) returns (s: nat)
    requires AllLegal(began, trace) && Own(trace, Run(run)) != []
    ensures s < |trace| && trace[s] == Starts(run) && StartTime(began, trace, run) == Clock(began, trace[..s])
  {
    var init, last := trace[..|trace| - 1], trace[|trace| - 1];
    if last == Starts(run) {
      s := |init|;
    } else {
      s := StartFound(began, init, run);
      assert init[..s] == trace[..s];
    }
  }

  /**
   At whatever point of whatever interleaving a run decides, it skips exactly if some speak call had
   completed before that point and not before the time at which the run started.
   */
  lemma {:induction false} DecidesExactly(began: real, trace: seq<Action>, run: nat, skips: bool, d: nat)
    returns (s: nat)
    requires 0.0 < began && AllLegal(began, trace) && d < |trace| && trace[d] == Decides(run, skips)
    ensures s < d && trace[s] == Starts(run)
    ensures skips <==> SpokenSince(began, trace[..d], Clock(began, trace[..s]))
  {
    LegalPrefix(began, trace, d);
    s := StartFound(began, trace[..d], run);
    assert trace[..d][..s] == trace[..s];
    LegalPrefix(began, trace, s);
    ClockOnward(began, trace[..s], 0);
    StoredTimeTells(began, trace[..d], Clock(began, trace[..s]));
  }

  /** A run that has turned to the character has decided to. */
  lemma {:induction false} DecisionFound(began: real, trace: seq<Action>, run: nat) returns (d: nat)
    requires AllLegal(began, trace)
    requires var own := Own(trace, Run(run));
             own != [] && (own[|own| - 1] == Decides(run, false) || Rank(own[|own| - 1]) > 2)
    ensures d < |trace| && trace[d] == Decides(run, false)
  {
    var init, last := trace[..|trace| - 1], trace[|trace| - 1];
    if last == Decides(run, false) {
      d := |init|;
    } else {
      d := DecisionFound(began, init, run);
    }
  }

  /**
   Over every interleaving: a run's text reaches the character only after the run has decided to speak,
   and between its start and that decision no speak call has completed.
   */
  lemma {:induction false} SpeaksOnlyIfQuiet(began: real, trace: seq<Action>, run: nat, text: string, k: nat)
    returns (s: nat, d: nat)
    requires 0.0 < began && AllLegal(began, trace) && k < |trace| && trace[k] == Delivers(Run(run), text)
    ensures s < d < k && trace[s] == Starts(run) && trace[d] == Decides(run, false)
    ensures forall i :: s < i < d ==> !trace[i].Completes?
  {
    LegalPrefix(began, trace, k);
    d := DecisionFound(began, trace[..k], run);
    s := DecidesExactly(began, trace, run, false, d);
    forall i | s < i < d
      ensures !trace[i].Completes?
    {
      LegalPrefix(began, trace, i);
      ClockOnward(began, trace[..i], s);
      assert trace[..i][..s] == trace[..s] && trace[..d][..i] == trace[..i];
      assert !CompletedSince(began, trace[..d], i, Clock(began, trace[..s]));
    }
  }

  // ---------- The steps of a run ----------

  /** Waiting for a response: a receipt for every frame up to it. */
  function AwaitSteps(run: nat, frames: Frames, id: string): seq<Action> {
    if frames == [] then []
    else
      [Receives(run)] +
      if frames[0].None? || !frames[0].value.Obj? || IsResponse(frames[0], id) then []
      else AwaitSteps(run, frames[1..], id)
  }

  /** A request, and waiting for its response. */
  function AskSteps(run: nat, request: Request, frames: Frames): seq<Action> {
    [Requests(run, request)] + AwaitSteps(run, frames, request.id)
  }

  function ReplySteps(run: nat, ids: Ids, frames: Frames, runId: string): seq<Action> {
    AskSteps(run, Wait(ids.wait, runId), frames) + AskSteps(run, History(ids.after), Await(frames, ids.wait).1)
  }

  /** What follows the answer to the message. */
  function SentSteps(run: nat, ids: Ids, sent: Result<Json, Failure>, frames: Frames): seq<Action> {
    if sent.Err? || !sent.value.Obj? || !Truthy(Get(sent.value, "ok")) || RunId(sent.value).None? then []
    else ReplySteps(run, ids, frames, RunId(sent.value).value)
  }

  function ConverseSteps(run: nat, ids: Ids, frames: Frames, message: string): seq<Action> {
    var (before, frames2) := Await(frames, ids.before);
    AskSteps(run, History(ids.before), frames) +
    if Payload(before).Err? then []
    else
      var (sent, frames3) := Await(frames2, ids.send);
      AskSteps(run, Send(ids.send, message), frames2) + SentSteps(run, ids, sent, frames3)
  }

  /** Everything a run sends to the gateway and receives from it, in order. */
  function TalkSteps(run: nat, ids: Ids, frames: Frames, message: string): seq<Action> {
    if frames == [] then []
    else
      [Receives(run)] +
      if frames[0].None? || !HasNonce(frames[0].value) then []
      else
        var (connected, rest) := Await(frames[1..], ids.connect);
        AskSteps(run, Connect(ids.connect, Nonce(frames[0].value)), frames[1..]) +
        if connected.Err? || !connected.value.Obj? || !Truthy(Get(connected.value, "ok")) then []
        else ConverseSteps(run, ids, rest, message)
  }

  function RequestsIn(steps: seq<Action>): seq<Request> {
    if steps == [] then []
    else (if steps[0].Requests? then [steps[0].request] else []) + RequestsIn(steps[1..])
  }

  lemma {:induction false} RequestsInJoin(a: seq<Action>, b: seq<Action>)
    ensures RequestsIn(a + b) == RequestsIn(a) + RequestsIn(b)
  {
    if a == [] {
      assert a + b == b;
    } else {
      assert (a + b)[0] == a[0] && (a + b)[1..] == a[1..] + b;
      RequestsInJoin(a[1..], b);
      Regroup(if a[0].Requests? then [a[0].request] else [], RequestsIn(a[1..]), RequestsIn(b));
    }
  }

  lemma {:induction false} AwaitRequestsNothing(run: nat, frames: Frames, id: string)
    ensures RequestsIn(AwaitSteps(run, frames, id)) == []
  {
    if frames != [] {
      var more := if frames[0].None? || !frames[0].value.Obj? || IsResponse(frames[0], id) then []
      else AwaitSteps(run, frames[1..], id);
      AwaitRequestsNothing(run, frames[1..], id);
      assert ([Receives(run)] + more)[1..] == more;
    }
  }

  lemma {:induction false} AskRequests(run: nat, request: Request, frames: Frames)
    ensures RequestsIn(AskSteps(run, request, frames)) == [request]
  {
    AwaitRequestsNothing(run, frames, request.id);
    assert AskSteps(run, request, frames)[1..] == AwaitSteps(run, frames, request.id);
  }

  lemma {:induction false} SentRequests(run: nat, ids: Ids, sent: Result<Json, Failure>, frames: Frames)
    ensures RequestsIn(SentSteps(run, ids, sent, frames)) ==
            if sent.Err? || !sent.value.Obj? || !Truthy(Get(sent.value, "ok")) || RunId(sent.value).None? then []
            else [Wait(ids.wait, RunId(sent.value).value), History(ids.after)]
  {
    if sent.Ok? && sent.value.Obj? && Truthy(Get(sent.value, "ok")) && RunId(sent.value).Some? {
      AskRequests(run, Wait(ids.wait, RunId(sent.value).value), frames);
      AskRequests(run, History(ids.after), Await(frames, ids.wait).1);
      RequestsInJoin(AskSteps(run, Wait(ids.wait, RunId(sent.value).value), frames),
                     AskSteps(run, History(ids.after), Await(frames, ids.wait).1));
    }
  }

  lemma {:induction false} ConverseRequests(run: nat, ids: Ids, frames: Frames, message: string)
    ensures var (before, frames2) := Await(frames, ids.before);
            var sent := Await(frames2, ids.send).0;
            var last :=
              if sent.Err? || !sent.value.Obj? || !Truthy(Get(sent.value, "ok")) || RunId(sent.value).None? then []
              else [Wait(ids.wait, RunId(sent.value).value), History(ids.after)];
            RequestsIn(ConverseSteps(run, ids, frames, message)) ==
            [History(ids.before)] + if Payload(before).Err? then [] else [Send(ids.send, message)] + last
  {
    var (before, frames2) := Await(frames, ids.before);
    var (sent, frames3) := Await(frames2, ids.send);
    AskRequests(run, History(ids.before), frames);
    AskRequests(run, Send(ids.send, message), frames2);
    SentRequests(run, ids, sent, frames3);
    RequestsInJoin(AskSteps(run, Send(ids.send, message), frames2), SentSteps(run, ids, sent, frames3));
    RequestsInJoin(AskSteps(run, History(ids.before), frames),
                   if Payload(before).Err? then []
                   else AskSteps(run, Send(ids.send, message), frames2) + SentSteps(run, ids, sent, frames3));
  }

  /** An answer that is there and ok. */
  ghost predicate IsOk(answer: Result<Json, Failure>) {
    answer.Ok? && Truthy(Member(Some(answer.value), "ok"))
  }

  /**
   What a run sends, however far it gets: it connects if it is given a nonce, asks for the history if that is
   accepted, sends its message if it gets the history, and waits and asks again if a run is started.
   */
  lemma {:induction false} TalkRequests(run: nat, ids: Ids, frames: Frames, message: string)
    ensures RequestsIn(TalkSteps(run, ids, frames, message)) ==
            if frames == [] || !Truthy(Member(Member(frames[0], "payload"), "nonce")) then []
            else
              var nonce := Member(Member(frames[0], "payload"), "nonce").value;
              var (connected, frames1) := Await(frames[1..], ids.connect);
              var (before, frames2) := Await(frames1, ids.before);
              var sent := Await(frames2, ids.send).0;
              var runId := if IsOk(sent) then Member(Member(Some(sent.value), "payload"), "runId") else None;
              var last :=
                match runId
                case Some(Str(id)) => if id == "" then [] else [Wait(ids.wait, id), History(ids.after)]
                case _ => [];
              var asked := [History(ids.before)] + if IsOk(before) then [Send(ids.send, message)] + last else [];
              [Connect(ids.connect, nonce)] + if IsOk(connected) then asked else []
  {
    if frames != [] && frames[0].Some? && HasNonce(frames[0].value) {
      TalkParts(run, ids, frames, message);
      var (connected, frames1) := Await(frames[1..], ids.connect);
      var (before, frames2) := Await(frames1, ids.before);
      var sent := Await(frames2, ids.send).0;
      ConverseRequests(run, ids, frames1, message);
      OkParts(connected);
      OkParts(before);
      OkParts(sent);
    } else if frames != [] {
      assert TalkSteps(run, ids, frames, message) == [Receives(run)] + [];
      assert ([Receives(run)] + [])[1..] == [];
    }
  }

  lemma OkParts(answer: Result<Json, Failure>)
    ensures IsOk(answer) <==> Payload(answer).Ok?
    ensures IsOk(answer) <==> answer.Ok? && answer.value.Obj? && Truthy(Get(answer.value, "ok"))
    ensures answer.Ok? ==> RunId(answer.value) == match Member(Member(Some(answer.value), "payload"), "runId")
                                                  case Some(Str(s)) => if s != "" then Some(s) else None
                                                  case _ => None
  {
    if answer.Ok? {
      AnswerParts(answer.value);
    }
  }

  lemma {:induction false} TalkParts(run: nat, ids: Ids, frames: Frames, message: string)
    requires frames != [] && frames[0].Some? && HasNonce(frames[0].value)
    ensures var (connected, rest) := Await(frames[1..], ids.connect);
            RequestsIn(TalkSteps(run, ids, frames, message)) ==
            [Connect(ids.connect, Nonce(frames[0].value))] + (
              if connected.Err? || !connected.value.Obj? || !Truthy(Get(connected.value, "ok")) then []
              else RequestsIn(ConverseSteps(run, ids, rest, message)))
  {
    var (connected, rest) := Await(frames[1..], ids.connect);
    var ask := AskSteps(run, Connect(ids.connect, Nonce(frames[0].value)), frames[1..]);
    var more := if connected.Err? || !connected.value.Obj? || !Truthy(Get(connected.value, "ok")) then []
                else ConverseSteps(run, ids, rest, message);
    AskRequests(run, Connect(ids.connect, Nonce(frames[0].value)), frames[1..]);
    RequestsInJoin(ask, more);
    RequestsInJoin([Receives(run)], ask + more);
    assert RequestsIn([Receives(run)]) == [] by {
      assert [Receives(run)][1..] == [];
    }
  }

  lemma JoinFour<T>(own: seq<T>, a: seq<T>, b: seq<T>, c: seq<T>, d: seq<T>)
    ensures own + a + b + c + d == own + (a + (b + c + d))
  {
  }

  /** A run's start time is the clock when it started. */
  lemma {:induction false} StartKept(began: real, before: seq<Action>, trace: seq<Action>, run: nat)
    requires AllLegal(began, trace) && before + [Starts(run)] <= trace
    ensures StartTime(began, trace, run) == Clock(began, before)
  {
    assert trace[|before|] == Starts(run);
    LatestRanksHighest(began, trace, Run(run), |before|);
    var s := StartFound(began, trace, run);
    if s < |before| {
      StepsInOrder(began, trace, Run(run), s, |before|);
    } else if s > |before| {
      StepsInOrder(began, trace, Run(run), |before|, s);
    }
    assert trace[..s] == before;
  }

  lemma {:induction false} LatestStripped(messages: seq<Json>)
    ensures Latest(messages).Some? ==> Strip(Latest(messages).value) != ""
  {
    if messages != [] && ExtractTextFromMessage(messages[|messages| - 1]).None? {
      LatestStripped(messages[..|messages| - 1]);
    } else if messages != [] {
      StripStrips(ExtractTextFromMessage(messages[|messages| - 1]).value);
    }
  }

  lemma NewTextStripped(messages: Option<Json>, previous: Option<string>)
    ensures var text := NewText(LatestText(messages), previous); text.Some? ==> Strip(text.value) != ""
  {
    if messages.Some? && messages.value.Arr? {
      LatestStripped(messages.value.items);
    }
  }

  /** A reply's text is not blank. */
  lemma ReplyStripped(ids: Ids, frames: Frames)
    requires Exchange(ids, frames).Ok? && Exchange(ids, frames).value.text.Some?
    ensures Strip(Exchange(ids, frames).value.text.value) != ""
  {
    var frames1 := Await(frames[1..], ids.connect).1;
    var (before, frames2) := Await(frames1, ids.before);
    var frames3 := Await(frames2, ids.send).1;
    var history := Payload(Await(Await(frames3, ids.wait).1, ids.after).0);
    NewTextStripped(Messages(history.value), LatestText(Messages(Payload(before).value)));
  }

  // ---------- The bridge ----------

  /** A connection to the gateway. */
  class Connection {
    var incoming: Frames

    constructor (incoming: Frames)
      ensures this.incoming == incoming
    {
      this.incoming := incoming;
    }
  }

  // What send_to_openclaw adds to the answer it returns.
  datatype Outcome = Outcome(answer: Json, assistantText: Option<string>, spoken: Option<bool>, skipped: bool)

  class Bridge {
    const began: real       // the clock when the bridge starts
    var now: real           // the monotonic clock
    var lastSpeakAt: real   // last_speak_at_monotonic
    var trace: seq<Action>  // everything that has happened

    ghost predicate Valid()
      reads this
    {
      && 0.0 < began && AllLegal(began, trace)
      && now == Clock(began, trace) && lastSpeakAt == StoredTime(began, trace)
    }

    constructor (now: real)
      requires 0.0 < now
      ensures Valid() && this.now == now && trace == []
    {
      began, this.now, lastSpeakAt, trace := now, now, 0.0, [];
    }

    method Perform(a: Action)
      requires Valid() && Legal(began, trace, a)
      modifies this
      ensures Valid() && trace == old(trace) + [a]
    {
      OneMoreAction(began, trace, a);
      match a {
        case Passes(to) => now := to;
        case Completes(_) => lastSpeakAt := now;
        case _ =>
      }
      trace := trace + [a];
    }

    /** `task` has taken these steps, and other tasks any; whatever had happened before stands. */
    twostate predicate Took(task: Task, steps: seq<Action>)
      reads this
    {
      old(trace) <= trace && Own(trace, task) == old(Own(trace, task)) + steps
    }

    /** `task` has done nothing meanwhile. */
    twostate predicate Waited(task: Task)
      reads this
    {
      old(trace) <= trace && Own(trace, task) == old(Own(trace, task))
    }

    /** An await of a task: any number of steps of everything else. */
    method Elapse(task: Task)
      requires Valid()
      modifies this
      ensures Valid() && Waited(task)
    {
      var steps: nat := *;
      while steps > 0
        invariant Valid() && Waited(task)
      {
        steps := steps - 1;
        var a: Action := *;
        if Allowed(began, trace, task, a) {
          OwnPlus(trace, a, task);
          Perform(a);
        }
      }
    }

    /** A task's own step. */
    method Act(task: Task, a: Action)
      requires Valid() && Legal(began, trace, a) && By(a) == Some(task)
      modifies this
      ensures Valid() && trace == old(trace) + [a] && Took(task, [a])
    {
      OwnPlus(trace, a, task);
      Perform(a);
    }

    /** What send_to_aituber does for a task, if it reaches the character or not. */
    static function SpeechSteps(task: Task, text: string, reached: bool): seq<Action> {
      if Strip(text) == "" then []
      else if reached then [Tries(task, text), Delivers(task, text)]
      else [Tries(task, text)]
    }

    /** A task's own step, and an await. */
    method ActAndWait(task: Task, a: Action)
      requires Valid() && Legal(began, trace, a) && By(a) == Some(task)
      modifies this
      ensures Valid() && Took(task, [a])
    {
      Act(task, a);
      Elapse(task);
    }

    /** send_to_aituber, awaited by a task; `reached` says whether the text can reach the character. */
    method SendToAituber(task: Task, text: string, reached: bool) returns (ok: bool)
      requires Valid() && Legal(began, trace, Tries(task, text))
      modifies this
      ensures Valid() && ok == (Strip(text) != "" && reached)
      ensures Took(task, SpeechSteps(task, text, reached))
    {
      ghost var own := Own(trace, task);
      assert own + [] == own;
      if Strip(text) == "" {
        return false;
      }
      ActAndWait(task, Tries(task, text));
      if reached {
        ActAndWait(task, Delivers(task, text));
        assert own + [Tries(task, text)] + [Delivers(task, text)] == own + [Tries(task, text), Delivers(task, text)];
      }
      ok := reached;
    }

    /**
     The speak endpoint; None for a blank text, and otherwise whether the character was reached. The
     stripped text is tried once; if it is delivered, the time is stored, as the call's last step.
     */
    method Speak(call: nat, text: string, reached: bool) returns (ok: Option<bool>)
      requires Valid() && Own(trace, SpeakCall(call)) == []
      modifies this
      ensures Valid() && old(trace) <= trace
      ensures ok == if Strip(text) == "" then None else Some(reached)
      ensures var task, said := SpeakCall(call), Strip(text);
              Own(trace, task) ==
              if said == "" then []
              else if !reached then [Tries(task, said)]
              else [Tries(task, said), Delivers(task, said), Completes(call)]
      ensures ok == Some(true) ==> trace[|trace| - 1] == Completes(call) && lastSpeakAt == now
    {
      var stripped := Strip(text);
      if stripped == "" {
        return None;
      }
      StripStrips(text);
      StripStrips(stripped);
      var sent := SendToAituber(SpeakCall(call), stripped, reached);
      if sent {
        Act(SpeakCall(call), Completes(call));
        OneMoreAction(began, trace[..|trace| - 1], Completes(call));
      }
      ok := Some(sent);
    }

    /** The next frame of a run's connection, if there is one. */
    method Receive(ws: Connection, run: nat) returns (frame: Option<Option<Json>>)
      requires Valid() && Talking(trace, run)
      modifies this, ws
      ensures Valid() && Talking(trace, run)
      ensures old(ws.incoming) == [] ==> frame == None && ws.incoming == [] && Waited(Run(run))
      ensures old(ws.incoming) != [] ==>
                && frame == Some(old(ws.incoming)[0]) && ws.incoming == old(ws.incoming)[1..]
                && Took(Run(run), [Receives(run)])
    {
      Elapse(Run(run));
      if ws.incoming == [] {
        return None;
      }
      frame := Some(ws.incoming[0]);
      ws.incoming := ws.incoming[1..];
      Act(Run(run), Receives(run));
    }

    method WaitForResponse(ws: Connection, run: nat, id: string) returns (r: Result<Json, Failure>)
      requires Valid() && Talking(trace, run)
      modifies this, ws
      ensures Valid() && Talking(trace, run) && Took(Run(run), AwaitSteps(run, old(ws.incoming), id))
      ensures (r, ws.incoming) == Await(old(ws.incoming), id)
    {
      while true
        invariant Valid() && Talking(trace, run) && old(trace) <= trace
        invariant Await(ws.incoming, id) == Await(old(ws.incoming), id)
        invariant Own(trace, Run(run)) + AwaitSteps(run, ws.incoming, id) ==
                  old(Own(trace, Run(run))) + AwaitSteps(run, old(ws.incoming), id)
        decreases |ws.incoming|
      {
        ghost var own, frames := Own(trace, Run(run)), ws.incoming;
        var received := Receive(ws, run);
        if received.None? {
          return Err(Closed);
        }
        var frame := received.value;
        Regroup(own, [Receives(run)], AwaitSteps(run, frames[1..], id));
        if frame.None? || !frame.value.Obj? {
          return Err(BadFrame);
        }
        var data := frame.value;
        if Get(data, "type") == Some(Str("res")) && Get(data, "id") == Some(Str(id)) {
          return Ok(data);
        }
      }
    }

    method RequestGateway(ws: Connection, run: nat, request: Request) returns (r: Result<Json, Failure>)
      requires Valid() && Talking(trace, run)
      modifies this, ws
      ensures Valid() && Talking(trace, run) && Took(Run(run), AskSteps(run, request, old(ws.incoming)))
      ensures r == Payload(Await(old(ws.incoming), request.id).0)
      ensures ws.incoming == Await(old(ws.incoming), request.id).1
    {
      ghost var own := Own(trace, Run(run));
      ActAndWait(Run(run), Requests(run, request));
      var res := WaitForResponse(ws, run, request.id);
      Regroup(own, [Requests(run, request)], AwaitSteps(run, old(ws.incoming), request.id));
      if res.Err? {
        return res;
      }
      if !res.value.Obj? || !Truthy(Get(res.value, "ok")) {
        return Err(NotOk);
      }
      var payload := Get(res.value, "payload");
      r := Ok(if payload.Some? && payload.value.Obj? then payload.value else Obj([]));
    }

    method WaitForAssistantText(ws: Connection, run: nat, ids: Ids, runId: string, previous: Option<string>)
      returns (r: Result<Option<string>, Failure>)
      requires Valid() && Talking(trace, run)
      modifies this, ws
      ensures Valid() && Talking(trace, run) && Took(Run(run), ReplySteps(run, ids, old(ws.incoming), runId))
      ensures r == ReplyText(ids, old(ws.incoming), previous)
    {
      ghost var own, frames := Own(trace, Run(run)), ws.incoming;
      var _ := RequestGateway(ws, run, Wait(ids.wait, runId));
      var history := RequestGateway(ws, run, History(ids.after));
      Regroup(own, AskSteps(run, Wait(ids.wait, runId), frames),
              AskSteps(run, History(ids.after), Await(frames, ids.wait).1));
      if history.Err? {
        return Err(history.error);
      }
      var text := ExtractLatestAssistantText(Messages(history.value));
      if text.Some? && text != previous {
        return Ok(text);
      }
      return Ok(None);
    }

    /** What a run does with the answer to its message. */
    method TakeAnswer(ws: Connection, run: nat, ids: Ids, sent: Result<Json, Failure>, previous: Option<string>)
      returns (r: Result<Reply, Failure>)
      requires Valid() && Talking(trace, run)
      modifies this, ws
      ensures Valid() && Talking(trace, run) && Took(Run(run), SentSteps(run, ids, sent, old(ws.incoming)))
      ensures r == Answered(ids, sent, old(ws.incoming), previous)
    {
      if sent.Err? {
        return Err(sent.error);
      }
      if !sent.value.Obj? || !Truthy(Get(sent.value, "ok")) {
        return Err(NotOk);
      }
      var runId := RunId(sent.value);
      if runId.None? {
        return Ok(Reply(sent.value, None));
      }
      var text := WaitForAssistantText(ws, run, ids, runId.value, previous);
      r := if text.Err? then Err(text.error) else Ok(Reply(sent.value, text.value));
    }

    /** The exchange of send_to_openclaw from the first history on. */
    method Converse(ws: Connection, run: nat, ids: Ids, message: string) returns (r: Result<Reply, Failure>)
      requires Valid() && Talking(trace, run)
      modifies this, ws
      ensures Valid() && Talking(trace, run) && Took(Run(run), ConverseSteps(run, ids, old(ws.incoming), message))
      ensures r == AfterConnect(ids, old(ws.incoming))
    {
      ghost var own, frames := Own(trace, Run(run)), ws.incoming;
      var before := RequestGateway(ws, run, History(ids.before));
      if before.Err? {
        return Err(before.error);
      }
      var previous := ExtractLatestAssistantText(Messages(before.value));
      ghost var frames2 := ws.incoming;
      ActAndWait(Run(run), Requests(run, Send(ids.send, message)));
      var sent := WaitForResponse(ws, run, ids.send);
      ghost var frames3 := ws.incoming;
      r := TakeAnswer(ws, run, ids, sent, previous);
      JoinFour(own, AskSteps(run, History(ids.before), frames), [Requests(run, Send(ids.send, message))],
               AwaitSteps(run, frames2, ids.send), SentSteps(run, ids, sent, frames3));
    }

    /** The exchange of send_to_openclaw with the gateway. */
    method Connect(ws: Connection, run: nat, ids: Ids, message: string) returns (r: Result<Reply, Failure>)
      requires Valid() && Talking(trace, run)
      modifies this, ws
      ensures Valid() && Talking(trace, run) && Took(Run(run), TalkSteps(run, ids, old(ws.incoming), message))
      ensures r == Exchange(ids, old(ws.incoming))
    {
      ghost var own := Own(trace, Run(run));
      var challenge := Receive(ws, run);
      if challenge.None? {
        return Err(Closed);
      }
      if challenge.value.None? {
        return Err(BadFrame);
      }
      if !HasNonce(challenge.value.value) {
        return Err(NoNonce);
      }
      ghost var frames1 := ws.incoming;
      ActAndWait(Run(run), Requests(run, Request.Connect(ids.connect, Nonce(challenge.value.value))));
      var connected := WaitForResponse(ws, run, ids.connect);
      ghost var frames2 := ws.incoming;
      ghost var asked := [Requests(run, Request.Connect(ids.connect, Nonce(challenge.value.value)))];
      JoinFour(own, [Receives(run)], asked, AwaitSteps(run, frames1, ids.connect), []);
      if connected.Err? {
        return Err(connected.error);
      }
      if !connected.value.Obj? || !Truthy(Get(connected.value, "ok")) {
        return Err(NotOk);
      }
      r := Converse(ws, run, ids, message);
      JoinFour(own, [Receives(run)], asked, AwaitSteps(run, frames1, ids.connect),
               ConverseSteps(run, ids, frames2, message));
    }

    /** A run with a new text looks whether a speak call has completed since it started. */
    method Decide(run: nat, runStartedAt: real) returns (skipped: bool)
      requires Valid() && Talking(trace, run) && runStartedAt == StartTime(began, trace, run)
      modifies this
      ensures Valid() && trace == old(trace) + [Decides(run, skipped)] && Took(Run(run), [Decides(run, skipped)])
    {
      skipped := lastSpeakAt >= runStartedAt;
      Act(Run(run), Decides(run, skipped));
    }

    /** What a run does about its new text, and whether it was spoken. */
    static function NewTextSteps(run: nat, text: string, skipped: bool, reached: bool): seq<Action> {
      [Decides(run, skipped)] + if skipped then [] else SpeechSteps(Run(run), text, reached)
    }

    /** The decision, and speaking unless it is to skip; `decided` is the number of the step that decided. */
    method SpeakUnlessSpoken(run: nat, runStartedAt: real, text: string, reached: bool)
      returns (spoken: bool, skipped: bool, ghost decided: nat)
      requires Valid() && Talking(trace, run) && 0.0 < runStartedAt == StartTime(began, trace, run)
      modifies this
      ensures Valid() && Took(Run(run), NewTextSteps(run, text, skipped, reached))
      ensures |old(trace)| == decided < |trace| && trace[decided] == Decides(run, skipped)
      ensures skipped <==> SpokenSince(began, trace[..decided], runStartedAt)
      ensures spoken == (!skipped && Strip(text) != "" && reached)
    {
      decided := |trace|;
      StoredTimeTells(began, trace, runStartedAt);
      ghost var own := Own(trace, Run(run));
      skipped := Decide(run, runStartedAt);
      spoken := false;
      if !skipped {
        spoken := SendToAituber(Run(run), text, reached);
        Regroup(own, [Decides(run, skipped)], SpeechSteps(Run(run), text, reached));
      }
      assert trace[..decided] == old(trace);
    }

    /** A run notes the time and talks to the gateway. */
    method TalkAsRun(ws: Connection, run: nat, ids: Ids, message: string)
      returns (r: Result<Reply, Failure>, runStartedAt: real)
      requires Valid() && Own(trace, Run(run)) == []
      modifies this, ws
      ensures Valid() && old(trace) <= trace && Talking(trace, run)
      ensures Own(trace, Run(run)) == [Starts(run)] + TalkSteps(run, ids, old(ws.incoming), message)
      ensures r == Exchange(ids, old(ws.incoming))
      ensures 0.0 < runStartedAt == old(now) == StartTime(began, trace, run)
    {
      ClockOnward(began, trace, 0);
      runStartedAt := now;
      Act(Run(run), Starts(run));
      r := Connect(ws, run, ids, message);
      StartKept(began, old(trace), trace, run);
    }

    /** What send_to_openclaw returns, given whether it skips and whether the character can be reached. */
    static function RunResult(ids: Ids, frames: Frames, message: string, skipped: bool, reached: bool)
      : Result<Outcome, Failure>
    {
      if Strip(message) == "" then Err(Empty)
      else
        match Exchange(ids, frames)
        case Err(e) => Err(e)
        case Ok(Reply(answer, None)) => Ok(Outcome(answer, None, None, false))
        case Ok(Reply(answer, text)) => Ok(Outcome(answer, text, Some(!skipped && reached), skipped))
    }

    /** The steps of a run: its talk with the gateway, and then what it does about a new text. */
    static function RunSteps(run: nat, ids: Ids, frames: Frames, message: string, skipped: bool, reached: bool)
      : seq<Action>
    {
      if Strip(message) == "" then []
      else
        [Starts(run)] + TalkSteps(run, ids, frames, Strip(message)) +
        match Exchange(ids, frames)
        case Ok(Reply(_, Some(text))) => NewTextSteps(run, text, skipped, reached)
        case _ => []
    }

    /**
     send_to_openclaw, for a new run. Its own steps are determined by what the gateway sends, by whether
     the character can be reached, and by one decision, which comes after everything it sends and
     receives and before it turns to the character: to skip exactly if a speak call has completed since
     the run started. `decided` is the number of the step that decided.
     */
    method SendToOpenclaw(ws: Connection, run: nat, ids: Ids, message: string, reached: bool)
      returns (r: Result<Outcome, Failure>, ghost skipped: bool, ghost decided: nat)
      requires Valid() && Own(trace, Run(run)) == []
      modifies this, ws
      ensures Valid() && old(trace) <= trace
      ensures r == RunResult(ids, old(ws.incoming), message, skipped, reached)
      ensures Own(trace, Run(run)) == RunSteps(run, ids, old(ws.incoming), message, skipped, reached)
      ensures r.Ok? && r.value.assistantText.Some? ==>
                && decided < |trace| && trace[decided] == Decides(run, skipped)
                && (skipped <==> SpokenSince(began, trace[..decided], old(now)))
    {
      skipped, decided := false, 0;
      var text := Strip(message);
      if text == "" {
        return Err(Empty), skipped, decided;
      }
      var exchange, runStartedAt := TalkAsRun(ws, run, ids, text);
      if exchange.Err? {
        return Err(exchange.error), skipped, decided;
      }
      var answer, newText := exchange.value.answer, exchange.value.text;
      if newText.None? {
        return Ok(Outcome(answer, None, None, false)), skipped, decided;
      }
      ReplyStripped(ids, old(ws.incoming));
      var spoken, skips;
      spoken, skips, decided := SpeakUnlessSpoken(run, runStartedAt, newText.value, reached);
      skipped := skips;
      r := Ok(Outcome(answer, newText, Some(spoken), skips));
    }
  }

  /**
   What a run returns, given what comes of its exchange: a blank message fails, and so does a failed exchange.
   Otherwise the answer is returned and a new text with it, which counts as spoken if it reaches the character.
   */
  lemma {:induction false} RunReturns(ids: Ids, frames: Frames, message: string, skipped: bool, reached: bool)
    ensures var result := Bridge.RunResult(ids, frames, message, skipped, reached);
            if Strip(message) == "" then result == Err(Empty)
            else
              match Exchange(ids, frames)
              case Err(e) => result == Err(e)
              case Ok(Reply(answer, None)) => result == Ok(Outcome(answer, None, None, false))
              case Ok(Reply(answer, Some(text))) =>
                if skipped then result == Ok(Outcome(answer, Some(text), Some(false), true))
                else result == Ok(Outcome(answer, Some(text), Some(reached), false))
  {
  }

  lemma {:induction false} NewTextStepsAre(run: nat, text: string, skipped: bool, reached: bool)
    requires Strip(text) != ""
    ensures Bridge.NewTextSteps(run, text, skipped, reached) ==
            if skipped then [Decides(run, true)]
            else if reached then [Decides(run, false), Tries(Run(run), text), Delivers(Run(run), text)]
            else [Decides(run, false), Tries(Run(run), text)]
  {
  }

  /** What a run does: its talk with the gateway, and with a new text the decision and at most one attempt to say it. */
  lemma {:induction false} RunActs(run: nat, ids: Ids, frames: Frames, message: string, skipped: bool, reached: bool)
    ensures var talk := [Starts(run)] + TalkSteps(run, ids, frames, Strip(message));
            Bridge.RunSteps(run, ids, frames, message, skipped, reached) ==
            if Strip(message) == "" then []
            else
              match Exchange(ids, frames)
              case Ok(Reply(_, Some(text))) =>
                if skipped then talk + [Decides(run, true)]
                else if reached then talk + [Decides(run, false), Tries(Run(run), text), Delivers(Run(run), text)]
                else talk + [Decides(run, false), Tries(Run(run), text)]
              case _ => talk
  {
    var talk := [Starts(run)] + TalkSteps(run, ids, frames, Strip(message));
    assert talk + [] == talk;
    if Exchange(ids, frames).Ok? && Exchange(ids, frames).value.text.Some? {
      ReplyStripped(ids, frames);
      NewTextStepsAre(run, Exchange(ids, frames).value.text.value, skipped, reached);
    }
  }
}
