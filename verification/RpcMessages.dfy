/** The packets of the RPC protocol: how either side builds them and how the other takes them apart. */
module RpcMessages {
  import opened Wire
  import opened Bits
  import opened Leb128
  import opened TsRuntime

  const RESPONSE: byte := 0x00
  const STREAM_ITEM: byte := 0x01
  const STREAM_END: byte := 0x02
  const ERROR: byte := 0x03
  const REQUEST: byte := 0x80
  const CANCEL: byte := 0x81

  const ERR_CODE_DECODE_ERROR := 2

  /** An error text is either the bytes on the wire, which clients decode lossily, or one of their own. */
  datatype ErrorText = FromWire(raw: bytes) | Fixed(text: string)

  /** Clients in JavaScript read the code as a number, with what that may lose. */
  datatype RpcError = RpcError(code: Number, message: ErrorText)

  /** A string on the server: its length is a u64. */
  type Text = t: bytes | |t| < TWO_64

  /** What a stream's receiver is told. */
  datatype StreamEvent = Item(data: bytes) | End | Error(error: RpcError)

  // ---------------------------------------------------------------- from the server

  /** What a handler says: a type byte and a body. The call id goes between them on the wire. */
  function ResponseMessage(payload: bytes): bytes { [RESPONSE] + payload }

  function ItemMessage(payload: bytes): bytes { [STREAM_ITEM] + payload }

  function EndMessage(): bytes { [STREAM_END] }

  function ErrorMessage(code: nat, text: bytes): bytes { [ERROR] + Leb(code) + Leb(|text|) + text }

  /** What a stream may say: items, and then at most one END or ERROR. */
  predicate Grammar(messages: seq<bytes>)
  {
    forall i :: 0 <= i < |messages| ==>
      messages[i] != [] && messages[i][0] in {STREAM_ITEM, STREAM_END, ERROR} &&
      (i < |messages| - 1 ==> messages[i][0] == STREAM_ITEM)
  }

  function Reply(id: nat, message: bytes): bytes
    requires message != []
  {
    [message[0]] + Leb(id) + message[1..]
  }

  datatype FromServer =
    | Response(payload: bytes)
    | ItemReply(data: bytes)
    | EndReply
    | ErrorReply(error: RpcError)
    | UnknownReply

  /** `slice` with the clamping of JavaScript. */
  function Slice(data: bytes, from: nat, to: nat): bytes
  {
    var end := if to <= |data| then to else |data|;
    if from <= end then data[from..end] else []
  }

  /** `slice(from, from + length)`; an end that is no number counts as 0. */
  function SliceFor(data: bytes, from: nat, length: Number): bytes
  {
    match length
    case Exact(n) => Slice(data, from, from + n)
    case Huge => Slice(data, from, |data|)
    case NaN => []
  }

  /** The request id of a packet to the client. */
  function ReplyId(data: bytes): Decoded
    requires data != []
  {
    ReadNumber(data, 1)
  }

  /** The rest of the packet, as `handleMessage` understands it. */
  function ReplyBody(data: bytes): FromServer
    requires data != []
  {
    var from := ReplyId(data).next;
    if data[0] == RESPONSE then Response(Slice(data, from, |data|))
    else if data[0] == STREAM_ITEM then ItemReply(Slice(data, from, |data|))
    else if data[0] == STREAM_END then EndReply
    else if data[0] == ERROR then
      var code := ReadNumber(data, from);
      var len := ReadNumber(data, code.next);
      ErrorReply(RpcError(code.number, FromWire(SliceFor(data, len.next, len.number))))
    else UnknownReply
  }

  lemma ReplyIdRead(id: nat, message: bytes)
    requires message != [] && id < TWO_64
    ensures ReplyId(Reply(id, message)) == Decoded(Num(id), 1 + |Leb(id)|)
  {
    NumberRoundTrip(id, [message[0]], message[1..]);
  }

  /** The client reads the id and the body of whatever the server sends, with the code as a double. */
  lemma ReplyRead(id: nat, payload: bytes, code: nat, text: Text)
    requires id < TWO_64 && code < TWO_64
    ensures ReplyBody(Reply(id, ResponseMessage(payload))) == Response(payload)
    ensures ReplyBody(Reply(id, ItemMessage(payload))) == ItemReply(payload)
    ensures ReplyBody(Reply(id, EndMessage())) == EndReply
    ensures ReplyBody(Reply(id, ErrorMessage(code, text))) == ErrorReply(RpcError(Num(code), FromWire(text)))
  {
    hide ReadNumber, Leb;
    ReplyIdRead(id, ResponseMessage(payload));
    ReplyIdRead(id, ItemMessage(payload));
    ReplyIdRead(id, EndMessage());
    ReplyIdRead(id, ErrorMessage(code, text));
    assert ResponseMessage(payload)[1..] == payload && ItemMessage(payload)[1..] == payload;
    ErrorRead(id, code, text);
  }

  lemma ErrorRead(id: nat, code: nat, text: Text)
    requires id < TWO_64 && code < TWO_64
    ensures ReplyBody(Reply(id, ErrorMessage(code, text))) == ErrorReply(RpcError(Num(code), FromWire(text)))
  {
    hide ReadNumber, Leb, SliceFor;
    var data, head := Reply(id, ErrorMessage(code, text)), [ERROR] + Leb(id);
    ErrorLayout(id, code, text);
    ErrorParts(head, code, text);
    hide Reply;
    ReplyIdRead(id, ErrorMessage(code, text));
  }

  lemma ErrorLayout(id: nat, code: nat, text: Text)
    ensures Reply(id, ErrorMessage(code, text)) == [ERROR] + Leb(id) + Leb(code) + Leb(|text|) + text
  {
    hide Leb;
    Spliced(ERROR, Leb(id), Leb(code), Leb(|text|), text);
  }

  lemma Spliced(kind: byte, id: bytes, code: bytes, length: bytes, text: bytes)
    ensures [kind] + id + ([kind] + code + length + text)[1..] == [kind] + id + code + length + text
  {
    assert ([kind] + code + length + text)[1..] == code + length + text;
    assert id + (code + length + text) == id + code + length + text;
  }

  lemma ErrorParts(head: bytes, code: nat, text: Text)
    requires code < TWO_64
    ensures var data, next := head + Leb(code) + Leb(|text|) + text, |head| + |Leb(code)|;
      ReadNumber(data, |head|) == Decoded(Num(code), next) &&
      ReadNumber(data, next) == Decoded(Num(|text|), next + |Leb(|text|)|) &&
      SliceFor(data, next + |Leb(|text|)|, Num(|text|)) == text
  {
    hide ReadNumber, Leb, SliceFor;
    NumberRoundTrip(code, head, Leb(|text|) + text);
    assert head + Leb(code) + (Leb(|text|) + text) == head + Leb(code) + Leb(|text|) + text;
    NumberRoundTrip(|text|, head + Leb(code), text);
    WholeText(head + Leb(code) + Leb(|text|), text);
  }

  lemma WholeText(head: bytes, text: Text)
    ensures SliceFor(head + text, |head|, Num(|text|)) == text
  {
  }

  /**
   * A server's error whose length does not fit its text: a text longer than that is cut, a shorter one
   * taken as it is.
   */
  lemma ErrorClamped(id: nat, code: nat, length: nat, text: bytes)
    requires id < TWO_64 && code < TWO_64 && length < TWO_64 && |text| < TWO_53
    ensures ReplyBody([0x03] + Leb(id) + Leb(code) + Leb(length) + text) ==
      ErrorReply(RpcError(Num(code), FromWire(if length < |text| then text[..length] else text)))
  {
    hide ReadNumber, Leb, SliceFor;
    var data, head := [0x03] + Leb(id) + Leb(code) + Leb(length) + text, [ERROR] + Leb(id);
    assert data == [ERROR] + Leb(id) + (Leb(code) + Leb(length) + text);
    NumberRoundTrip(id, [ERROR], Leb(code) + Leb(length) + text);
    assert data == head + Leb(code) + (Leb(length) + text);
    NumberRoundTrip(code, head, Leb(length) + text);
    assert data == head + Leb(code) + Leb(length) + text;
    NumberRoundTrip(length, head + Leb(code), text);
    CutText(head + Leb(code) + Leb(length), length, text);
  }

  /** An error whose length is no number has an empty text. */
  lemma ErrorWithoutLength(data: bytes)
    requires data != [] && data[0] == 0x03
    requires var code := ReadNumber(data, ReplyId(data).next); ReadNumber(data, code.next).number.NaN?
    ensures ReplyBody(data).ErrorReply? && ReplyBody(data).error.message == FromWire([])
  {
    hide ReadNumber;
  }

  lemma CutText(head: bytes, length: nat, text: bytes)
    requires |text| < TWO_53
    ensures SliceFor(head + text, |head|, Num(length)) == if length < |text| then text[..length] else text
  {
    var data := head + text;
    assert data[|head|..] == text && data[|head|..|data|] == text;
    if length < |text| {
      assert data[|head|..|head| + length] == text[..length];
    }
  }

  // ---------------------------------------------------------------- from the client

  function Request(id: nat, methodIndex: nat, payload: bytes): bytes
  {
    [REQUEST] + Leb(id) + Leb(methodIndex) + payload
  }

  function Cancel(id: nat): bytes { [CANCEL] + Leb(id) }

  datatype FromClient =
    | StartCall(id: nat, methodIndex: nat, payload: bytes)
    | CancelCall(id: nat)
    | BadMethod(id: nat)
    | Ignored

  /** A packet to the server, as its receive loop understands it. */
  function ParseRequest(data: bytes): FromClient
  {
    if data == [] then Ignored
    else
      var id := DecodeLeb(data[1..]);
      if id.Err? then Ignored
      else if data[0] == REQUEST then
        var m := DecodeLeb(id.rest);
        if m.Err? then BadMethod(id.value) else StartCall(id.value, m.value % TWO_32, m.rest)
      else if data[0] == CANCEL then CancelCall(id.value)
      else Ignored
  }

  lemma RequestRead(id: nat, methodIndex: nat, payload: bytes)
    requires id < TWO_64 && methodIndex < TWO_32
    ensures ParseRequest(Request(id, methodIndex, payload)) == StartCall(id, methodIndex, payload)
    ensures ParseRequest(Cancel(id)) == CancelCall(id)
  {
    hide DecodeLeb, Leb;
    LebRoundTrip(id, Leb(methodIndex) + payload);
    LebRoundTrip(methodIndex, payload);
    assert Request(id, methodIndex, payload)[1..] == Leb(id) + (Leb(methodIndex) + payload);
    LebRoundTrip(id, []);
    assert Cancel(id)[1..] == Leb(id) + [];
  }

  /** The buffer code of `callUnary`, `callStream` and `sendCancel`. */
  method BuildRequest(id: nat, methodIndex: nat, payload: bytes) returns (packet: bytes)
    ensures packet == Request(id, methodIndex, payload)
  {
    var buf := new WriteBuf(256);
    buf.PushByte(REQUEST);
    EncodeVarint(id, buf);
    EncodeVarint(methodIndex, buf);
    buf.Push(payload);
    packet := buf.ToUint8Array();
    assert [] + [REQUEST] == [REQUEST];
  }

  method BuildCancel(id: nat) returns (packet: bytes)
    ensures packet == Cancel(id)
  {
    var buf := new WriteBuf(256);
    buf.PushByte(CANCEL);
    EncodeVarint(id, buf);
    packet := buf.ToUint8Array();
    assert [] + [CANCEL] == [CANCEL];
  }

  /** The packet the server makes of a call id and a message. */
  method BuildReply(id: nat, message: bytes) returns (packet: bytes)
    requires message != []
    ensures packet == Reply(id, message)
  {
    var buf := new Buffer();
    buf.Push(message[0]);
    EncodeLeb128(id, buf);
    buf.Extend(message[1..]);
    packet := buf.data;
    assert [] + [message[0]] == [message[0]];
  }
}
