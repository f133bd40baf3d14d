/**
 The WebSocket framing of the character bridge (ha-character-bridge/bridge_server.py): base framing
 and masking as in sections 5.2 and 5.3 of RFC 6455, for unfragmented frames.
 */
module WebSocketFrames {
  import opened Prelude

  // A byte as a number. Its bit fields are taken in arithmetic: `b & 0x0F` is b % 16, `b & 0x80` is set
  // just when b >= 128, `b & 0x7F` is b % 128, and `a | b` is a + b where no bit is in both.
  type Byte = b: int | 0 <= b < 256

  type Bytes = seq<Byte>

  // The UTF-8 codec of the runtime; decoding fails on bytes that are not UTF-8.
  datatype Codec = Codec(encode: string -> Bytes, decode: Bytes -> Option<string>)

  ghost predicate RoundTrips(codec: Codec) {
    forall s :: codec.decode(codec.encode(s)) == Some(s)
  }

  // ---------- Lengths ----------

  function Pow256(k: nat): (p: nat)
    ensures p >= 1
  {
    if k == 0 then 1 else 256 * Pow256(k - 1)
  }

  /** `n.to_bytes(k, "big")` */
  function ToBytes(n: nat, k: nat): (bytes: Bytes)
    ensures |bytes| == k
  {
    if k == 0 then [] else ToBytes(n / 256, k - 1) + [n % 256]
  }

  /** `int.from_bytes(bytes, "big")` */
  function FromBytes(bytes: Bytes): nat {
    if bytes == [] then 0 else FromBytes(bytes[..|bytes| - 1]) * 256 + bytes[|bytes| - 1]
  }

  lemma {:induction false} LengthRoundTrip(n: nat, k: nat)
    requires n < Pow256(k)
    ensures FromBytes(ToBytes(n, k)) == n
  {
    if k > 0 {
      var high := ToBytes(n / 256, k - 1);
      LengthRoundTrip(n / 256, k - 1);
      assert (high + [n % 256])[..|high|] == high;
    }
  }

  // ---------- Masking ----------

  function Pow2(k: nat): (p: nat)
    ensures p >= 1
  {
    if k == 0 then 1 else 2 * Pow2(k - 1)
  }

  /** The exclusive or of two numbers of k bits. */
  function Xor(a: nat, b: nat, k: nat): (x: nat)
    ensures x < Pow2(k)
  {
    if k == 0 then 0 else 2 * Xor(a / 2, b / 2, k - 1) + (a % 2 + b % 2) % 2
  }

  lemma {:induction false} XorTwice(a: nat, b: nat, k: nat)
    requires a < Pow2(k)
    ensures Xor(Xor(a, b, k), b, k) == a
  {
    if k > 0 {
      var half, bit := Xor(a / 2, b / 2, k - 1), (a % 2 + b % 2) % 2;
      XorTwice(a / 2, b / 2, k - 1);
      HalfAndBit(half, bit);
      assert Xor(a, b, k) == 2 * half + bit;
      BitTwice(a % 2, b % 2);
    }
  }

  lemma BitTwice(a: nat, b: nat)
    requires a < 2 && b < 2
    ensures ((a + b) % 2 + b) % 2 == a
  {
  }

  lemma HalfAndBit(half: nat, bit: nat)
    requires bit < 2
    ensures (2 * half + bit) / 2 == half && (2 * half + bit) % 2 == bit
  {
  }

  function XorByte(a: Byte, b: Byte): Byte {
    EightBits();
    Xor(a, b, 8)
  }

  lemma EightBits()
    ensures Pow2(8) == 256
  {
    assert Pow2(4) == 2 * (2 * (2 * (2 * Pow2(0))));
    assert Pow2(8) == 2 * (2 * (2 * (2 * Pow2(4))));
  }

  lemma {:induction false} XorSteps(a: nat, b: nat, k: nat)
    requires k > 0
    ensures Xor(a, b, k) / 2 == Xor(a / 2, b / 2, k - 1)
    ensures Xor(a, b, k) % 2 == if a % 2 == b % 2 then 0 else 1
  {
    HalfAndBit(Xor(a / 2, b / 2, k - 1), (a % 2 + b % 2) % 2);
  }

  /** Of its lowest k bits, x has exactly those that one of a and b has and the other has not. */
  ghost predicate HasOddBits(x: nat, a: nat, b: nat, k: nat) {
    k == 0 || ((x % 2 == 1 <==> a % 2 != b % 2) && HasOddBits(x / 2, a / 2, b / 2, k - 1))
  }

  lemma {:induction false} XorBits(a: nat, b: nat, k: nat)
    ensures HasOddBits(Xor(a, b, k), a, b, k)
  {
    if k > 0 {
      XorSteps(a, b, k);
      XorBits(a / 2, b / 2, k - 1);
    }
  }

  // ---------- Frames ----------

  datatype LengthForm = Short | Medium | Long

  // A frame as it is sent. `flags` holds FIN and the reserved bits in the upper half of the first byte.
  datatype Frame = Frame(flags: Byte, opcode: Byte, mask: Option<Bytes>, form: LengthForm, payload: Bytes)

  const TEXT: Byte := 0x1
  const CLOSE: Byte := 0x8

  ghost predicate Valid(f: Frame) {
    && f.flags % 16 == 0 && f.opcode < 16
    && (f.mask.Some? ==> |f.mask.value| == 4)
    && match f.form
       case Short => |f.payload| < 126
       case Medium => |f.payload| < Pow256(2)
       case Long => |f.payload| < Pow256(8)
  }

  function LengthCode(f: Frame): nat {
    match f.form
    case Short => |f.payload|
    case Medium => 126
    case Long => 127
  }

  function ExtendedLength(f: Frame): Bytes {
    match f.form
    case Short => []
    case Medium => ToBytes(|f.payload|, 2)
    case Long => ToBytes(|f.payload|, 8)
  }

  function Masked(payload: Bytes, mask: Bytes): (masked: Bytes)
    requires |mask| == 4
    ensures |masked| == |payload|
  {
    seq(|payload|, i requires 0 <= i < |payload| => XorByte(payload[i], mask[i % 4]))
  }

  /** Masking twice with the same key gives the payload back. */
  lemma MaskedTwice(payload: Bytes, mask: Bytes)
    requires |mask| == 4
    ensures Masked(Masked(payload, mask), mask) == payload
  {
    forall i | 0 <= i < |payload|
      ensures Masked(Masked(payload, mask), mask)[i] == payload[i]
    {
      EightBits();
      XorTwice(payload[i], mask[i % 4], 8);
    }
  }

  function SecondByte(masked: bool, code: nat): Byte
    requires code < 128
  {
    if masked then 128 + code else code
  }

  function Head(f: Frame): Bytes
    requires Valid(f)
  {
    [f.flags + f.opcode, SecondByte(f.mask.Some?, LengthCode(f))] + ExtendedLength(f)
  }

  function Encode(f: Frame): Bytes
    requires Valid(f)
  {
    Head(f) + Body(f)
  }

  // ---------- Reading one frame ----------

  // How reading a frame ends: a message (empty for a frame that is not a text), a close frame, the
  // end of the stream within the frame, or a text that is not UTF-8.
  datatype Read = Message(text: string) | Close | Incomplete | BadText

  function Interpret(codec: Codec, opcode: Byte, payload: Bytes): Read {
    if opcode == CLOSE then Close
    else if opcode != TEXT then Message("")
    else match codec.decode(payload)
         case Some(text) => Message(text)
         case None => BadText
  }

  /** How many bytes of extended length follow a 7-bit length code. */
  function ExtendedSize(code: nat): nat {
    if code == 126 then 2 else if code == 127 then 8 else 0
  }

  /** The part of read_frame after the length is known: the mask, the payload and their meaning. */
  function ReadBody(codec: Codec, opcode: Byte, masked: bool, length: nat, buffer: Bytes): (Read, Bytes) {
    var maskSize := if masked then 4 else 0;
    if |buffer| < maskSize + length then (Incomplete, [])
    else
      var payload := buffer[maskSize..maskSize + length];
      (Interpret(codec, opcode, if masked then Masked(payload, buffer[..4]) else payload), buffer[maskSize + length..])
  }

  /** The part of read_frame after the first two bytes: the length, if it is extended, and the rest. */
  function ReadLengthAndBody(codec: Codec, opcode: Byte, masked: bool, code: nat, buffer: Bytes): (Read, Bytes) {
    var size := ExtendedSize(code);
    if |buffer| < size then (Incomplete, [])
    else ReadBody(codec, opcode, masked, if size > 0 then FromBytes(buffer[..size]) else code, buffer[size..])
  }

  /** read_frame on the bytes up to the end of the stream, with the bytes it leaves unread. */
  function ReadFrame(codec: Codec, buffer: Bytes): (Read, Bytes) {
    if |buffer| < 2 then (Incomplete, [])
    else
      ReadLengthAndBody(codec, buffer[0] % 16, buffer[1] >= 128, buffer[1] % 128, buffer[2..])
  }

  class StreamReader {
    var buffer: Bytes // what the peer sends up to the end of the stream

    constructor (buffer: Bytes)
      ensures this.buffer == buffer
    {
      this.buffer := buffer;
    }

    /** readexactly: None when the stream ends first. */
    method ReadExactly(n: nat) returns (bytes: Option<Bytes>)
      modifies this
      ensures if n <= |old(buffer)|
              then bytes == Some(old(buffer)[..n]) && buffer == old(buffer)[n..]
              else bytes == None && buffer == []
    {
      if n <= |buffer| {
        bytes := Some(buffer[..n]);
        buffer := buffer[n..];
      } else {
        bytes := None;
        buffer := [];
      }
    }

    method ReadPayload(codec: Codec, opcode: Byte, masked: bool, length: nat) returns (read: Read)
      modifies this
      ensures (read, buffer) == ReadBody(codec, opcode, masked, length, old(buffer))
    {
      ghost var all := buffer;
      var mask := Some([]);
      if masked {
        mask := ReadExactly(4);
        if mask.None? {
          return Incomplete;
        }
      }
      var payload := ReadExactly(length);
      if payload.None? {
        return Incomplete;
      }
      assert masked ==> payload.value == all[4..4 + length] && buffer == all[4 + length..];
      read := Interpret(codec, opcode, if masked then Masked(payload.value, mask.value) else payload.value);
    }

    method ReadFrameFrom(codec: Codec) returns (read: Read)
      modifies this
      ensures (read, buffer) == ReadFrame(codec, old(buffer))
    {
      var header := ReadExactly(2);
      if header.None? {
        return Incomplete;
      }
      var opcode := header.value[0] % 16;
      var masked := header.value[1] >= 128;
      var length: nat := header.value[1] % 128;
      if length == 126 {
        var extended := ReadExactly(2);
        if extended.None? {
          return Incomplete;
        }
        length := FromBytes(extended.value);
      } else if length == 127 {
        var extended := ReadExactly(8);
        if extended.None? {
          return Incomplete;
        }
        length := FromBytes(extended.value);
      }
      read := ReadPayload(codec, opcode, masked, length);
    }
  }

  /** What a frame means to the bridge, whatever its length form, mask and flag bits. */
  function Meaning(codec: Codec, f: Frame): Read {
    Interpret(codec, f.opcode, f.payload)
  }

  lemma FirstByte(flags: Byte, opcode: Byte)
    requires flags % 16 == 0 && opcode < 16
    ensures (flags + opcode) % 16 == opcode
  {
  }

  lemma SecondByteParts(masked: bool, code: nat)
    requires code < 128
    ensures SecondByte(masked, code) >= 128 <==> masked
    ensures SecondByte(masked, code) % 128 == code
  {
  }

  lemma ExtendedLengthReads(f: Frame)
    requires Valid(f)
    ensures LengthCode(f) < 128 && |ExtendedLength(f)| == ExtendedSize(LengthCode(f))
    ensures |f.payload| ==
            if ExtendedLength(f) != [] then FromBytes(ExtendedLength(f)) else LengthCode(f)
  {
    if f.form == Medium {
      LengthRoundTrip(|f.payload|, 2);
    } else if f.form == Long {
      LengthRoundTrip(|f.payload|, 8);
    }
  }

  function Body(f: Frame): Bytes
    requires Valid(f)
  {
    if f.mask.Some? then f.mask.value + Masked(f.payload, f.mask.value) else f.payload
  }

  lemma BodyReads(codec: Codec, f: Frame, rest: Bytes)
    requires Valid(f)
    ensures ReadBody(codec, f.opcode, f.mask.Some?, |f.payload|, Body(f) + rest) == (Meaning(codec, f), rest)
  {
    var buffer := Body(f) + rest;
    if f.mask.Some? {
      MaskedTwice(f.payload, f.mask.value);
      assert buffer[..4] == f.mask.value;
      assert buffer[4..4 + |f.payload|] == Masked(f.payload, f.mask.value);
      assert buffer[4 + |f.payload|..] == rest;
    } else {
      assert buffer[0..0 + |f.payload|] == f.payload && buffer[0 + |f.payload|..] == rest;
    }
  }

  lemma LengthReads(codec: Codec, f: Frame, body: Bytes)
    requires Valid(f)
    ensures ReadLengthAndBody(codec, f.opcode, f.mask.Some?, LengthCode(f), ExtendedLength(f) + body) ==
            ReadBody(codec, f.opcode, f.mask.Some?, |f.payload|, body)
  {
    ExtendedLengthReads(f);
    var buffer, size := ExtendedLength(f) + body, |ExtendedLength(f)|;
    assert buffer[..size] == ExtendedLength(f) && buffer[size..] == body;
  }

  /** What reading finds in a stream that starts with a frame's head. */
  lemma HeadReads(codec: Codec, f: Frame, body: Bytes)
    requires Valid(f)
    ensures ReadFrame(codec, Head(f) + body) == ReadBody(codec, f.opcode, f.mask.Some?, |f.payload|, body)
  {
    var buffer := Head(f) + body;
    ExtendedLengthReads(f);
    FirstByte(f.flags, f.opcode);
    SecondByteParts(f.mask.Some?, LengthCode(f));
    assert buffer[0] == f.flags + f.opcode && buffer[1] == SecondByte(f.mask.Some?, LengthCode(f));
    assert buffer[2..] == ExtendedLength(f) + body;
    LengthReads(codec, f, body);
  }

  /** Reading from a stream that starts with an encoded frame yields its meaning and exactly its bytes. */
  lemma ReadEncoded(codec: Codec, f: Frame, rest: Bytes)
    requires Valid(f)
    ensures ReadFrame(codec, Encode(f) + rest) == (Meaning(codec, f), rest)
  {
    HeadReads(codec, f, Body(f) + rest);
    BodyReads(codec, f, rest);
    Regroup(Head(f), Body(f), rest);
  }

  /** A stream that ends within a frame yields no message from it. */
  lemma ReadTruncated(codec: Codec, f: Frame, n: nat)
    requires Valid(f) && n < |Encode(f)|
    ensures ReadFrame(codec, Encode(f)[..n]) == (Incomplete, [])
  {
    var buffer := Encode(f)[..n];
    ExtendedLengthReads(f);
    if n >= |Head(f)| {
      assert buffer == Head(f) + Body(f)[..n - |Head(f)|];
      HeadReads(codec, f, Body(f)[..n - |Head(f)|]);
    } else if n >= 2 {
      SecondByteParts(f.mask.Some?, LengthCode(f));
      assert buffer[1] == Head(f)[1] == SecondByte(f.mask.Some?, LengthCode(f));
    }
  }

  lemma FromBytesStep(bytes: Bytes, i: nat)
    requires i < |bytes|
    ensures FromBytes(bytes[..i + 1]) == FromBytes(bytes[..i]) * 256 + bytes[i]
  {
    assert bytes[..i + 1][..i] == bytes[..i];
  }

  /** Two and eight bytes as numbers, the highest byte first. */
  lemma {:induction false} BigEndian(bytes: Bytes)
    ensures |bytes| == 2 ==> FromBytes(bytes) == bytes[0] as int * 256 + bytes[1]
    ensures |bytes| == 8 ==>
              FromBytes(bytes) ==
              (((((((bytes[0] as int * 256 + bytes[1]) * 256 + bytes[2]) * 256 + bytes[3]) * 256 + bytes[4]) * 256
                 + bytes[5]) * 256 + bytes[6]) * 256) + bytes[7]
  {
    assert bytes[..|bytes|] == bytes && bytes[..0] == [];
    if |bytes| == 2 || |bytes| == 8 {
      FromBytesStep(bytes, 0);
      FromBytesStep(bytes, 1);
    }
    if |bytes| == 8 {
      FromBytesStep(bytes, 2);
      FromBytesStep(bytes, 3);
      FromBytesStep(bytes, 4);
      FromBytesStep(bytes, 5);
      FromBytesStep(bytes, 6);
      FromBytesStep(bytes, 7);
    }
  }

  /** The head of an encoded frame: flags and opcode, mask bit and length code, and an extended length. */
  lemma EncodedHead(f: Frame)
    requires Valid(f)
    ensures var bytes, masked, n := Encode(f), f.mask.Some?, |f.payload|;
            match f.form
            case Short =>
              |bytes| == 2 + (if masked then 4 else 0) + n && bytes[0] == f.flags + f.opcode
              && bytes[1] == (if masked then 128 else 0) + n
            case Medium =>
              |bytes| == 4 + (if masked then 4 else 0) + n && bytes[0] == f.flags + f.opcode
              && bytes[1] == (if masked then 128 else 0) + 126 && n == bytes[2] as int * 256 + bytes[3]
            case Long =>
              |bytes| == 10 + (if masked then 4 else 0) + n && bytes[0] == f.flags + f.opcode
              && bytes[1] == (if masked then 128 else 0) + 127
              && n == (((((((bytes[2] as int * 256 + bytes[3]) * 256 + bytes[4]) * 256 + bytes[5]) * 256
                          + bytes[6]) * 256 + bytes[7]) * 256 + bytes[8]) * 256) + bytes[9]
  {
    ExtendedLengthReads(f);
    BigEndian(ExtendedLength(f));
  }

  lemma {:induction false} MaskedBody(f: Frame, i: nat)
    requires Valid(f) && f.mask.Some? && i < |f.payload|
    ensures var bytes, start := Encode(f), |Encode(f)| - |f.payload|;
            && start >= 4 && bytes[start - 4..start] == f.mask.value
            && bytes[start + i] == XorByte(f.payload[i], f.mask.value[i % 4])
  {
    var mask, masked := f.mask.value, Masked(f.payload, f.mask.value);
    assert Encode(f) == Head(f) + (mask + masked);
    BytesAt(Head(f), mask, masked, i);
    assert masked[i] == XorByte(f.payload[i], mask[i % 4]);
  }

  lemma BytesAt(head: Bytes, mask: Bytes, masked: Bytes, i: nat)
    requires |mask| == 4 && i < |masked|
    ensures var bytes, start := head + (mask + masked), |head| + 4;
            |bytes| == start + |masked| && bytes[start - 4..start] == mask && bytes[start + i] == masked[i]
  {
  }

  /** The end of an encoded frame is the payload itself, or the mask and the payload with the mask's bits flipped. */
  lemma EncodedBody(f: Frame, i: nat)
    requires Valid(f) && i < |f.payload|
    ensures f.mask.None? ==> |Encode(f)| >= |f.payload| && Encode(f)[|Encode(f)| - |f.payload|..] == f.payload
    ensures f.mask.Some? ==>
              var bytes, start := Encode(f), |Encode(f)| - |f.payload|;
              && start >= 4 && bytes[start - 4..start] == f.mask.value
              && HasOddBits(bytes[start + i], f.payload[i], f.mask.value[i % 4], 8)
  {
    if f.mask.Some? {
      MaskedBody(f, i);
      XorBits(f.payload[i], f.mask.value[i % 4], 8);
    }
  }

  // ---------- The receive loop ----------

  // Why the loop of handle_client ends.
  datatype End = PeerClosed | StreamEnded | InvalidJson | InvalidText

  /** What the loop relays and why it ends, on all the bytes the peer sends. */
  function Receive(codec: Codec, isJson: string -> bool, buffer: Bytes): (seq<string>, End)
    decreases |buffer|
  {
    var (read, rest) := ReadFrame(codec, buffer);
    match read
    case Close => ([], PeerClosed)
    case Incomplete => ([], StreamEnded)
    case BadText => ([], InvalidText)
    case Message(text) =>
      if text == "" then Receive(codec, isJson, rest)
      else if !isJson(text) then ([], InvalidJson)
      else
        var (later, end) := Receive(codec, isJson, rest);
        ([text] + later, end)
  }

  method HandleClient(codec: Codec, isJson: string -> bool, reader: StreamReader)
    returns (relayed: seq<string>, end: End)
    modifies reader
    ensures (relayed, end) == Receive(codec, isJson, old(reader.buffer))
  {
    relayed := [];
    ghost var all := Receive(codec, isJson, reader.buffer);
    while true
      invariant all.0 == relayed + Receive(codec, isJson, reader.buffer).0
      invariant all.1 == Receive(codec, isJson, reader.buffer).1
      decreases |reader.buffer|
    {
      assert relayed + [] == relayed;
      var read := reader.ReadFrameFrom(codec);
      match read
      case Close => return relayed, PeerClosed;
      case Incomplete => return relayed, StreamEnded;
      case BadText => return relayed, InvalidText;
      case Message(message) =>
        if message == "" {
          continue;
        }
        if !isJson(message) {
          return relayed, InvalidJson;
        }
        relayed := relayed + [message];
    }
  }

  /** What one frame at the start of the stream contributes. */
  function Prepend(meaning: Read, isJson: string -> bool, later: (seq<string>, End)): (seq<string>, End) {
    match meaning
    case Close => ([], PeerClosed)
    case Incomplete => ([], StreamEnded)
    case BadText => ([], InvalidText)
    case Message(text) =>
      if text == "" then later else if !isJson(text) then ([], InvalidJson) else ([text] + later.0, later.1)
  }

  /** The messages of a list of frames, up to the first frame that ends the conversation. */
  function Messages(codec: Codec, isJson: string -> bool, frames: seq<Frame>): (seq<string>, End) {
    if frames == [] then ([], StreamEnded)
    else
      Prepend(Meaning(codec, frames[0]), isJson, Messages(codec, isJson, frames[1..]))
  }

  function EncodeAll(frames: seq<Frame>): Bytes
    requires forall f :: f in frames ==> Valid(f)
  {
    if frames == [] then [] else Encode(frames[0]) + EncodeAll(frames[1..])
  }

  lemma {:induction false} ReceiveOne(codec: Codec, isJson: string -> bool, f: Frame, rest: Bytes)
    requires Valid(f)
    ensures Receive(codec, isJson, Encode(f) + rest) ==
            Prepend(Meaning(codec, f), isJson, Receive(codec, isJson, rest))
  {
    ReadEncoded(codec, f, rest);
  }

  lemma {:induction false} ReceivesFrames(
    codec: Codec, isJson: string -> bool, frames: seq<Frame>, last: Frame, n: nat)
    requires (forall f :: f in frames ==> Valid(f)) && Valid(last) && n < |Encode(last)|
    ensures Receive(codec, isJson, EncodeAll(frames) + Encode(last)[..n]) == Messages(codec, isJson, frames)
  {
    var cut := Encode(last)[..n];
    if frames == [] {
      assert EncodeAll(frames) + cut == cut;
      ReadTruncated(codec, last, n);
    } else {
      var rest := EncodeAll(frames[1..]) + cut;
      assert forall f :: f in frames[1..] ==> f in frames;
      assert frames[0] in frames;
      Regroup(Encode(frames[0]), EncodeAll(frames[1..]), cut);
      ReceiveOne(codec, isJson, frames[0], rest);
      ReceivesFrames(codec, isJson, frames[1..], last, n);
    }
  }

  /** The frame ends nothing, and is relayed or not. */
  ghost predicate GoesOn(codec: Codec, isJson: string -> bool, f: Frame, relayed: bool) {
    && f.opcode != 8
    && (f.opcode == 1 ==>
          match codec.decode(f.payload)
          case None => false
          case Some(text) => text == "" || isJson(text))
    && (relayed <==> f.opcode == 1 && codec.decode(f.payload) != Some(""))
  }

  ghost predicate Rising(at: seq<nat>, k: nat) {
    (forall i, j :: 0 <= i < j < |at| ==> at[i] < at[j]) && forall j :: 0 <= j < |at| ==> at[j] < k
  }

  /** The first k frames end nothing, and `at` are the positions of those among them that have a text. */
  ghost predicate Positions(codec: Codec, isJson: string -> bool, frames: seq<Frame>, k: nat, at: seq<nat>) {
    && k <= |frames| && Rising(at, k)
    && forall i :: 0 <= i < k ==> GoesOn(codec, isJson, frames[i], i in at)
  }

  ghost predicate EndsWith(codec: Codec, isJson: string -> bool, frames: seq<Frame>, k: nat, end: End) {
    match end
    case StreamEnded => k == |frames|
    case PeerClosed => k < |frames| && frames[k].opcode == 8
    case InvalidText => k < |frames| && frames[k].opcode == 1 && codec.decode(frames[k].payload).None?
    case InvalidJson =>
      && k < |frames| && frames[k].opcode == 1 && codec.decode(frames[k].payload).Some?
      && codec.decode(frames[k].payload) != Some("") && !isJson(codec.decode(frames[k].payload).value)
  }

  /** The same positions, with one frame more in front. */
  function Shifted(at: seq<nat>): (shifted: seq<nat>)
    ensures |shifted| == |at| && forall j :: 0 <= j < |at| ==> shifted[j] == at[j] + 1
    ensures forall i :: i in shifted <==> i > 0 && i - 1 in at
  {
    if at == [] then [] else [at[0] + 1] + Shifted(at[1..])
  }

  lemma {:induction false} RisingShift(at: seq<nat>, k: nat)
    requires Rising(at, k)
    ensures Rising(Shifted(at), k + 1) && Rising([0] + Shifted(at), k + 1) && 0 !in Shifted(at)
  {
  }

  lemma {:induction false} PositionsShift(codec: Codec, isJson: string -> bool, frames: seq<Frame>, k: nat,
                                          at: seq<nat>)
    requires frames != [] && Positions(codec, isJson, frames[1..], k, at)
    requires Meaning(codec, frames[0]).Message?
    requires var text := Meaning(codec, frames[0]).text; text == "" || isJson(text)
    ensures Positions(codec, isJson, frames, k + 1,
                      if Meaning(codec, frames[0]).text == "" then Shifted(at) else [0] + Shifted(at))
  {
    var more := if Meaning(codec, frames[0]).text == "" then Shifted(at) else [0] + Shifted(at);
    RisingShift(at, k);
    assert GoesOn(codec, isJson, frames[0], 0 in more);
    forall i | 0 < i < k + 1
      ensures GoesOn(codec, isJson, frames[i], i in more)
    {
      assert frames[i] == frames[1..][i - 1] && (i in more <==> i - 1 in at);
    }
  }

  /** The relayed texts are decoded from the frames at these positions. */
  ghost predicate TextsAt(codec: Codec, frames: seq<Frame>, at: seq<nat>, relayed: seq<string>) {
    && |at| == |relayed|
    && forall j :: 0 <= j < |at| ==> at[j] < |frames| && codec.decode(frames[at[j]].payload) == Some(relayed[j])
  }

  lemma {:induction false} TextsShift(codec: Codec, frames: seq<Frame>, at: seq<nat>, relayed: seq<string>)
    requires frames != [] && TextsAt(codec, frames[1..], at, relayed) && Meaning(codec, frames[0]).Message?
    ensures var text := Meaning(codec, frames[0]).text;
            if text == "" then TextsAt(codec, frames, Shifted(at), relayed)
            else TextsAt(codec, frames, [0] + Shifted(at), [text] + relayed)
  {
    assert forall i :: 0 < i < |frames| ==> frames[i] == frames[1..][i - 1];
  }

  /** What a first frame that ends nothing adds to the messages of the others. */
  lemma {:induction false} MessagesNext(codec: Codec, isJson: string -> bool, frames: seq<Frame>)
    requires frames != [] && Meaning(codec, frames[0]).Message?
    requires var text := Meaning(codec, frames[0]).text; text == "" || isJson(text)
    ensures var text, (relayed, end) := Meaning(codec, frames[0]).text, Messages(codec, isJson, frames[1..]);
            Messages(codec, isJson, frames) == (if text == "" then relayed else [text] + relayed, end)
  {
  }

  /** The same, in one predicate. */
  ghost predicate Described(codec: Codec, isJson: string -> bool, frames: seq<Frame>, k: nat, at: seq<nat>,
                            out: (seq<string>, End))
  {
    && Positions(codec, isJson, frames, k, at) && TextsAt(codec, frames, at, out.0)
    && EndsWith(codec, isJson, frames, k, out.1)
  }

  lemma {:induction false} MessagesPast(codec: Codec, isJson: string -> bool, frames: seq<Frame>, k: nat, at: seq<nat>)
    requires frames != [] && Described(codec, isJson, frames[1..], k, at, Messages(codec, isJson, frames[1..]))
    requires Meaning(codec, frames[0]).Message?
    requires var text := Meaning(codec, frames[0]).text; text == "" || isJson(text)
    ensures Described(codec, isJson, frames, k + 1,
                      if Meaning(codec, frames[0]).text == "" then Shifted(at) else [0] + Shifted(at),
                      Messages(codec, isJson, frames))
  {
    var later := Messages(codec, isJson, frames[1..]);
    MessagesNext(codec, isJson, frames);
    PositionsShift(codec, isJson, frames, k, at);
    TextsShift(codec, frames, at, later.0);
    assert EndsWith(codec, isJson, frames, k + 1, later.1);
  }

  lemma {:induction false} MessagesEnd(codec: Codec, isJson: string -> bool, frames: seq<Frame>)
    requires frames == [] || !Meaning(codec, frames[0]).Message?
             || (Meaning(codec, frames[0]).text != "" && !isJson(Meaning(codec, frames[0]).text))
    ensures Described(codec, isJson, frames, 0, [], Messages(codec, isJson, frames))
  {
  }

  lemma {:induction false} MessagesAre(codec: Codec, isJson: string -> bool, frames: seq<Frame>)
    returns (k: nat, at: seq<nat>)
    ensures Described(codec, isJson, frames, k, at, Messages(codec, isJson, frames))
  {
    if frames == [] || !Meaning(codec, frames[0]).Message?
       || (Meaning(codec, frames[0]).text != "" && !isJson(Meaning(codec, frames[0]).text)) {
      k, at := 0, [];
      MessagesEnd(codec, isJson, frames);
    } else {
      k, at := MessagesAre(codec, isJson, frames[1..]);
      MessagesPast(codec, isJson, frames, k, at);
      k, at := k + 1, if Meaning(codec, frames[0]).text == "" then Shifted(at) else [0] + Shifted(at);
    }
  }

  /**
   Whatever frames the peer sends, and wherever within a further frame the stream breaks off, the loop relays
   the texts that the payloads of the text frames encode, in order and unless empty, up to the frame that ends
   it: the first close frame, or the first text frame whose payload is not UTF-8 or not JSON. Frames of other
   kinds contribute nothing and end nothing.
   */
  lemma {:induction false} RelaysMessages(
    codec: Codec, isJson: string -> bool, frames: seq<Frame>, last: Frame, n: nat) returns (k: nat, at: seq<nat>)
    requires (forall f :: f in frames ==> Valid(f)) && Valid(last) && n < |Encode(last)|
    ensures var (relayed, end) := Receive(codec, isJson, EncodeAll(frames) + Encode(last)[..n]);
            && k <= |frames| && |at| == |relayed|
            && (forall i :: 0 <= i < k ==>
                              && frames[i].opcode != 8
                              && (frames[i].opcode == 1 ==>
                                    match codec.decode(frames[i].payload)
                                    case None => false
                                    case Some(text) => text == "" || isJson(text))
                              && (i in at <==> frames[i].opcode == 1 && codec.decode(frames[i].payload) != Some("")))
            && (forall i, j :: 0 <= i < j < |at| ==> at[i] < at[j])
            && (forall j :: 0 <= j < |at| ==>
                              at[j] < k && codec.decode(frames[at[j]].payload) == Some(relayed[j]))
            && match end
               case StreamEnded => k == |frames|
               case PeerClosed => k < |frames| && frames[k].opcode == 8
               case InvalidText => k < |frames| && frames[k].opcode == 1 && codec.decode(frames[k].payload).None?
               case InvalidJson =>
                 && k < |frames| && frames[k].opcode == 1 && codec.decode(frames[k].payload).Some?
                 && codec.decode(frames[k].payload) != Some("") && !isJson(codec.decode(frames[k].payload).value)
  {
    ReceivesFrames(codec, isJson, frames, last, n);
    k, at := MessagesAre(codec, isJson, frames);
  }

  // ---------- Every stream is one of frames ----------

  lemma {:induction false} BytesBack(bytes: Bytes)
    ensures FromBytes(bytes) < Pow256(|bytes|) && ToBytes(FromBytes(bytes), |bytes|) == bytes
  {
    if bytes != [] {
      BytesBack(bytes[..|bytes| - 1]);
      assert bytes == bytes[..|bytes| - 1] + [bytes[|bytes| - 1]];
    }
  }

  /** The length that the first bytes of a stream announce. */
  function AnnouncedLength(bytes: Bytes): nat
    requires |bytes| >= 10
  {
    var code: nat := bytes[1] % 128;
    if code < 126 then code else FromBytes(bytes[2..2 + ExtendedSize(code)])
  }

  /** The frame with which a stream starts that holds all that its first bytes announce. */
  function FirstFrame(bytes: Bytes): Frame
    requires |bytes| >= 14 + if |bytes| >= 10 then AnnouncedLength(bytes) else 0
  {
    var code: nat, n := bytes[1] % 128, AnnouncedLength(bytes);
    var start := 2 + ExtendedSize(code);
    var form := if code < 126 then Short else if code == 126 then Medium else Long;
    if bytes[1] >= 128 then
      var mask := bytes[start..start + 4];
      Frame(bytes[0] - bytes[0] % 16, bytes[0] % 16, Some(mask), form, Masked(bytes[start + 4..start + 4 + n], mask))
    else
      Frame(bytes[0] - bytes[0] % 16, bytes[0] % 16, None, form, bytes[start..start + n])
  }

  lemma FirstPayload(bytes: Bytes)
    requires |bytes| >= 14 + if |bytes| >= 10 then AnnouncedLength(bytes) else 0
    ensures |FirstFrame(bytes).payload| == AnnouncedLength(bytes)
    ensures FirstFrame(bytes).mask.Some? <==> bytes[1] >= 128
    ensures FirstFrame(bytes).flags + FirstFrame(bytes).opcode == bytes[0]
    ensures FirstFrame(bytes).flags % 16 == 0 && FirstFrame(bytes).opcode < 16
    ensures FirstFrame(bytes).mask.Some? ==> |FirstFrame(bytes).mask.value| == 4
    ensures FirstFrame(bytes).form ==
            if bytes[1] % 128 < 126 then Short else if bytes[1] % 128 == 126 then Medium else Long
  {
  }

  lemma FirstLength(bytes: Bytes)
    requires |bytes| >= 14 + if |bytes| >= 10 then AnnouncedLength(bytes) else 0
    ensures LengthCode(FirstFrame(bytes)) == bytes[1] % 128
    ensures ExtendedLength(FirstFrame(bytes)) == bytes[2..2 + ExtendedSize(bytes[1] % 128)]
    ensures Valid(FirstFrame(bytes))
  {
    FirstPayload(bytes);
    var size := ExtendedSize(bytes[1] % 128);
    var announced := bytes[2..2 + size];
    BytesBack(announced);
    assert |announced| == size;
  }

  lemma FirstHead(bytes: Bytes)
    requires |bytes| >= 14 + if |bytes| >= 10 then AnnouncedLength(bytes) else 0
    ensures Valid(FirstFrame(bytes)) && Head(FirstFrame(bytes)) == bytes[..2 + ExtendedSize(bytes[1] % 128)]
  {
    FirstPayload(bytes);
    FirstLength(bytes);
    SecondByteIs(bytes[1]);
    var size := ExtendedSize(bytes[1] % 128);
    assert bytes[..2 + size] == [bytes[0], bytes[1]] + bytes[2..2 + size];
  }

  lemma SecondByteIs(b: Byte)
    ensures SecondByte(b >= 128, b % 128) == b
  {
  }

  lemma BodyOf(f: Frame, mask: Bytes, masked: Bytes)
    requires Valid(f) && |mask| == 4 && f.mask == Some(mask) && f.payload == Masked(masked, mask)
    ensures Body(f) == mask + masked
  {
    MaskedTwice(masked, mask);
  }

  lemma Adjacent(bytes: Bytes, start: nat, middle: nat, end: nat)
    requires start <= middle <= end <= |bytes|
    ensures bytes[start..middle] + bytes[middle..end] == bytes[start..end]
  {
  }

  lemma FirstMasked(bytes: Bytes)
    requires |bytes| >= 14 + if |bytes| >= 10 then AnnouncedLength(bytes) else 0
    requires bytes[1] >= 128
    ensures var start := 2 + ExtendedSize(bytes[1] % 128);
            var mask := bytes[start..start + 4];
            && FirstFrame(bytes).mask == Some(mask)
            && FirstFrame(bytes).payload == Masked(bytes[start + 4..start + 4 + AnnouncedLength(bytes)], mask)
  {
  }

  lemma FirstBody(bytes: Bytes)
    requires |bytes| >= 14 + if |bytes| >= 10 then AnnouncedLength(bytes) else 0
    ensures var start := 2 + ExtendedSize(bytes[1] % 128);
            var end := start + (if bytes[1] >= 128 then 4 else 0) + AnnouncedLength(bytes);
            Valid(FirstFrame(bytes)) && end <= |bytes| && Body(FirstFrame(bytes)) == bytes[start..end]
  {
    FirstLength(bytes);
    var f, n, start := FirstFrame(bytes), AnnouncedLength(bytes), 2 + ExtendedSize(bytes[1] % 128);
    if bytes[1] >= 128 {
      FirstMasked(bytes);
      Adjacent(bytes, start, start + 4, start + 4 + n);
      BodyOf(f, bytes[start..start + 4], bytes[start + 4..start + 4 + n]);
    } else {
      assert f.mask.None? && f.payload == bytes[start..start + n];
    }
  }

  lemma FirstEncoded(bytes: Bytes)
    requires |bytes| >= 14 + if |bytes| >= 10 then AnnouncedLength(bytes) else 0
    ensures var f := FirstFrame(bytes);
            Valid(f) && |Encode(f)| <= |bytes| && Encode(f) == bytes[..|Encode(f)|]
  {
    FirstHead(bytes);
    FirstBody(bytes);
    var start := 2 + ExtendedSize(bytes[1] % 128);
    Adjacent(bytes, 0, start, start + (if bytes[1] >= 128 then 4 else 0) + AnnouncedLength(bytes));
  }

  /** Zeros after a stream that make it hold all that its first bytes announce. */
  lemma Padding(bytes: Bytes) returns (more: Bytes)
    ensures |more| >= |bytes| && more[..|bytes|] == bytes
    ensures |more| >= 14 + if |more| >= 10 then AnnouncedLength(more) else 0
  {
    var ten := bytes + seq(10, _ => 0);
    more := ten + seq(4 + AnnouncedLength(ten), _ => 0);
    assert more[1] == ten[1] && more[2..2 + ExtendedSize(ten[1] % 128)] == ten[2..2 + ExtendedSize(ten[1] % 128)];
  }

  /** A stream starts with a frame, or is the start of one. */
  lemma StartsWithFrame(bytes: Bytes) returns (f: Frame)
    ensures Valid(f)
    ensures if |Encode(f)| <= |bytes| then Encode(f) == bytes[..|Encode(f)|] else bytes == Encode(f)[..|bytes|]
  {
    var more := Padding(bytes);
    f := FirstFrame(more);
    FirstEncoded(more);
    if |Encode(f)| <= |bytes| {
      assert more[..|bytes|][..|Encode(f)|] == more[..|Encode(f)|];
    } else {
      assert more[..|Encode(f)|][..|bytes|] == more[..|bytes|];
    }
  }

  lemma {:induction false} OneMoreFrame(f: Frame, frames: seq<Frame>, cut: Bytes)
    requires Valid(f) && forall g :: g in frames ==> Valid(g)
    ensures (forall g :: g in [f] + frames ==> Valid(g))
            && EncodeAll([f] + frames) + cut == Encode(f) + (EncodeAll(frames) + cut)
  {
    assert ([f] + frames)[1..] == frames;
    Regroup(Encode(f), EncodeAll(frames), cut);
  }

  /** So whatever bytes arrive are the bytes of some frames and of a part of another one. */
  lemma {:induction false} EveryStream(bytes: Bytes) returns (frames: seq<Frame>, last: Frame, n: nat)
    ensures (forall f :: f in frames ==> Valid(f)) && Valid(last) && n < |Encode(last)|
    ensures bytes == EncodeAll(frames) + Encode(last)[..n]
    decreases |bytes|
  {
    var f := StartsWithFrame(bytes);
    if |Encode(f)| <= |bytes| {
      TakeAndDrop(bytes, |Encode(f)|);
      frames, last, n := EveryStream(bytes[|Encode(f)|..]);
      OneMoreFrame(f, frames, Encode(last)[..n]);
      frames := [f] + frames;
    } else {
      frames, last, n := [], f, |bytes|;
      assert [] + Encode(last)[..n] == Encode(last)[..n];
    }
  }

  // ---------- Sending ----------

  function MinimalForm(size: nat): LengthForm {
    if size < 126 then Short else if size < 65536 then Medium else Long
  }

  function TextFrame(codec: Codec, text: string): Frame {
    Frame(0x80, TEXT, None, MinimalForm(|codec.encode(text)|), codec.encode(text))
  }

  lemma TwoBytes()
    ensures Pow256(2) == 65536
  {
    assert Pow256(1) == 256;
  }

  /** send_text: the bytes written, or None where to_bytes overflows. */
  method SendText(codec: Codec, text: string) returns (written: Option<Bytes>)
    ensures written.Some? <==> |codec.encode(text)| < 0x1_0000_0000_0000_0000
    ensures written.Some? ==> Valid(TextFrame(codec, text)) && written.value == Encode(TextFrame(codec, text))
    ensures written.Some? ==> |written.value| >= 2 && written.value[0] == 0x81 && written.value[1] < 128
  {
    var payload := codec.encode(text);
    var header: Bytes := [0x81];
    TwoBytes();
    assert Pow256(8) == 256 * (256 * (256 * (256 * (256 * (256 * Pow256(2))))));
    if |payload| < 126 {
      header := header + [|payload|];
    } else if |payload| < 65536 {
      header := header + [126];
      header := header + ToBytes(|payload|, 2);
    } else if |payload| < Pow256(8) {
      header := header + [127];
      header := header + ToBytes(|payload|, 8);
    } else {
      return None;
    }
    written := Some(header + payload);
  }

  /** A sent text is read back, and no valid unmasked frame with its payload is shorter. */
  lemma SentTextReads(codec: Codec, text: string, rest: Bytes)
    requires RoundTrips(codec) && |codec.encode(text)| < Pow256(8)
    ensures Valid(TextFrame(codec, text))
    ensures ReadFrame(codec, Encode(TextFrame(codec, text)) + rest) == (Message(text), rest)
    ensures forall g: Frame ::
              Valid(g) && g.mask.None? && g.payload == codec.encode(text) ==>
                |Encode(TextFrame(codec, text))| <= |Encode(g)|
  {
    TwoBytes();
    ReadEncoded(codec, TextFrame(codec, text), rest);
  }
}
