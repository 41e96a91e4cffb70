/**
 * The Rust HTTP stream reader: stream messages cut out of a body that arrives in arbitrary chunks,
 * and the frames the server's body writes. `events` is what the reader sends to a receiver that
 * stays: the channel between them, its 16 places and the return when the receiver is gone, is not
 * modelled.
 */
module HttpStream {
  import opened Wire
  import opened Bits
  import opened Leb128
  import opened RpcMessages
  import opened TsRuntime

  predicate Terminal(e: StreamEvent) { !e.Item? }

  // ---------------------------------------------------------------- one message

  datatype Cut = Cut(message: bytes, rest: bytes)

  /** The message at the front of the buffer. A bad or zero length is waited out like an incomplete one. */
  function NextMessage(buf: bytes): (r: Option<Cut>)
    ensures r.Some? ==> |r.value.message| > 0 && |r.value.rest| < |buf|
  {
    var len := DecodeLeb(buf);
    if len.Err? || |len.rest| < len.value || len.value == 0 then None
    else Some(Cut(len.rest[..len.value], len.rest[len.value..]))
  }

  function OrZero(p: Parse<nat>): nat { if p.Ok? then p.value else 0 }

  /** The code as a u32 and the text; whatever fails to decode counts as 0, from where the cursor stopped. */
  function ErrorOf(payload: bytes): StreamEvent
  {
    var code := DecodeLeb(payload);
    var len := DecodeLeb(code.rest);
    var text := if |len.rest| >= OrZero(len) then FromWire(len.rest[..OrZero(len)]) else Fixed("unknown error");
    Error(RpcError(Exact(OrZero(code) % TWO_32), text))
  }

  function EventOf(message: bytes): StreamEvent
    requires message != []
  {
    if message[0] == STREAM_ITEM then Item(message[1..])
    else if message[0] == STREAM_END then End
    else if message[0] == ERROR then ErrorOf(message[1..])
    else Error(RpcError(Exact(0), Fixed("unknown stream message type")))
  }

  // ---------------------------------------------------------------- the reader

  /** The unread bytes, the events sent to the receiver, and whether the reading loop has returned. */
  datatype Reader = Reader(buf: bytes, events: seq<StreamEvent>, done: bool)

  const START := Reader([], [], false)

  function Drain(r: Reader): Reader
    decreases |r.buf|
  {
    var c := NextMessage(r.buf);
    if r.done || c.None? then r
    else
      var e := EventOf(c.value.message);
      Drain(Reader(c.value.rest, r.events + [e], Terminal(e)))
  }

  datatype BodyEvent = Chunk(data: bytes) | Trailers | Broken(text: string) | Eof

  function Step(r: Reader, e: BodyEvent): Reader
  {
    if r.done then r
    else
      match e
      case Chunk(data) => Drain(r.(buf := r.buf + data))
      case Trailers => r
      case Broken(text) => r.(events := r.events + [Error(RpcError(Exact(0), Fixed(text)))], done := true)
      case Eof => r.(events := r.events + [End], done := true)
  }

  function Run(r: Reader, body: seq<BodyEvent>): Reader
    decreases |body|
  {
    if body == [] then r else Run(Step(r, body[0]), body[1..])
  }

  // ---------------------------------------------------------------- chunk independence

  lemma {:induction false} LengthStable(buf: bytes, more: bytes, shift: nat, acc: nat)
    requires LebFrom(buf, shift, acc).Ok?
    ensures LebFrom(buf + more, shift, acc) == Ok(LebFrom(buf, shift, acc).value, LebFrom(buf, shift, acc).rest + more)
  {
    hide Low, Shl;
    assert (buf + more)[1..] == buf[1..] + more;
    if buf[0] >= 128 {
      LengthStable(buf[1..], more, shift + 7, acc + Low(Shl(buf[0] % 128, shift), 64));
    }
  }

  lemma MessageStable(buf: bytes, more: bytes)
    requires NextMessage(buf).Some?
    ensures NextMessage(buf + more) == Some(Cut(NextMessage(buf).value.message, NextMessage(buf).value.rest + more))
  {
    hide LebFrom;
    LengthStable(buf, more, 0, 0);
    var len := DecodeLeb(buf);
    assert (len.rest + more)[..len.value] == len.rest[..len.value];
    assert (len.rest + more)[len.value..] == len.rest[len.value..] + more;
  }

  function Append(r: Reader, data: bytes): Reader { r.(buf := r.buf + data) }

  /** Draining before more bytes arrive changes nothing. */
  lemma {:induction false} DrainTwice(r: Reader, data: bytes)
    ensures Drain(Append(r, data)) == Drain(Append(Drain(r), data))
    decreases |r.buf|
  {
    hide NextMessage, EventOf;
    var c := NextMessage(r.buf);
    if !r.done && c.Some? {
      MessageStable(r.buf, data);
      var e := EventOf(c.value.message);
      DrainTwice(Reader(c.value.rest, r.events + [e], Terminal(e)), data);
    }
  }

  function Concat(chunks: seq<bytes>): bytes
  {
    if chunks == [] then [] else chunks[0] + Concat(chunks[1..])
  }

  function Chunks(chunks: seq<bytes>): seq<BodyEvent>
  {
    if chunks == [] then [] else [Chunk(chunks[0])] + Chunks(chunks[1..])
  }

  ghost predicate Settled(r: Reader)
  {
    Drain(r) == r
  }

  lemma {:induction false} DrainSettles(r: Reader)
    ensures Settled(Drain(r))
    decreases |r.buf|
  {
    hide NextMessage, EventOf;
    var c := NextMessage(r.buf);
    if !r.done && c.Some? {
      DrainSettles(Reader(c.value.rest, r.events + [EventOf(c.value.message)], Terminal(EventOf(c.value.message))));
    }
  }

  /** What a receiver can tell of a reader: a finished one no longer keeps the bytes it is given. */
  predicate Alike(a: Reader, b: Reader)
  {
    a.events == b.events && a.done == b.done
  }

  lemma StepTwice(r: Reader, first: bytes, later: bytes)
    requires Settled(r)
    ensures Settled(Step(r, Chunk(first)))
    ensures Alike(Step(Step(r, Chunk(first)), Chunk(later)), Step(r, Chunk(first + later)))
  {
    hide Drain;
    if !r.done {
      DrainSettles(Append(r, first));
      DrainTwice(Append(r, first), later);
      assert r.buf + first + later == r.buf + (first + later);
      DrainDone(Append(Drain(Append(r, first)), later));
    }
  }

  lemma StepNothing(r: Reader)
    requires Settled(r)
    ensures Step(r, Chunk([])) == r
  {
    hide Drain;
    assert r.buf + [] == r.buf;
  }

  /** A body cut into chunks in any way yields the events it yields in one piece. */
  lemma {:induction false} ChunksIrrelevant(r: Reader, chunks: seq<bytes>)
    requires Settled(r)
    ensures Alike(Run(r, Chunks(chunks)), Step(r, Chunk(Concat(chunks))))
    decreases |chunks|
  {
    hide Step, Settled;
    if chunks == [] {
      StepNothing(r);
    } else {
      assert Chunks(chunks)[1..] == Chunks(chunks[1..]);
      StepTwice(r, chunks[0], Concat(chunks[1..]));
      ChunksIrrelevant(Step(r, Chunk(chunks[0])), chunks[1..]);
    }
  }

  lemma DrainDone(r: Reader)
    ensures r.done ==> Drain(r) == r
  {
  }

  /** Any two ways of cutting the same bytes agree, whatever ends the body. */
  lemma SameBytesSameEvents(one: seq<bytes>, other: seq<bytes>, last: BodyEvent)
    requires Concat(one) == Concat(other) && !last.Chunk?
    ensures Step(Run(START, Chunks(one)), last).events == Step(Run(START, Chunks(other)), last).events
  {
    hide Run, Drain, Chunks, Concat, Settled;
    ChunksIrrelevant(START, one) by { StartSettled(); }
    ChunksIrrelevant(START, other) by { StartSettled(); }
  }

  lemma StartSettled()
    ensures Settled(START)
  {
  }

  // ---------------------------------------------------------------- terminal events

  ghost predicate WellEnded(r: Reader)
  {
    (forall i :: 0 <= i < |r.events| && Terminal(r.events[i]) ==> i == |r.events| - 1) &&
    (r.done <==> r.events != [] && Terminal(r.events[|r.events| - 1]))
  }

  lemma {:induction false} DrainEnds(r: Reader)
    requires WellEnded(r)
    ensures WellEnded(Drain(r))
    decreases |r.buf|
  {
    hide NextMessage, EventOf;
    var c := NextMessage(r.buf);
    if !r.done && c.Some? {
      var e := EventOf(c.value.message);
      DrainEnds(Reader(c.value.rest, r.events + [e], Terminal(e)));
    }
  }

  /** In every run an END or an error is the last event, and the loop goes on exactly until there is one. */
  lemma {:induction false} NothingAfterTerminal(r: Reader, body: seq<BodyEvent>)
    requires WellEnded(r)
    ensures WellEnded(Run(r, body))
    decreases |body|
  {
    hide Drain;
    if body != [] {
      if body[0].Chunk? {
        DrainEnds(r.(buf := r.buf + body[0].data));
      }
      NothingAfterTerminal(Step(r, body[0]), body[1..]);
    }
  }

  // ---------------------------------------------------------------- the server's body

  /** The frame `poll_frame` makes of a stream message. */
  function Frame(message: bytes): bytes { Leb(|message|) + message }

  function Body(messages: seq<bytes>): bytes
  {
    if messages == [] then [] else Frame(messages[0]) + Body(messages[1..])
  }

  function EventsOf(messages: seq<bytes>): seq<StreamEvent>
    requires Grammar(messages)
  {
    if messages == [] then [] else [EventOf(messages[0])] + EventsOf(messages[1..])
  }

  predicate Framable(messages: seq<bytes>)
  {
    Grammar(messages) && forall i :: 0 <= i < |messages| ==> |messages[i]| < TWO_64
  }

  predicate Closes(messages: seq<bytes>)
    requires Framable(messages)
  {
    messages != [] && messages[|messages| - 1][0] != STREAM_ITEM
  }

  lemma FrameCut(message: bytes, rest: bytes)
    requires 0 < |message| < TWO_64
    ensures NextMessage(Frame(message) + rest) == Some(Cut(message, rest))
  {
    hide DecodeLeb, Leb;
    LebRoundTrip(|message|, message + rest);
    assert Frame(message) + rest == Leb(|message|) + (message + rest);
  }

  /** What the reader makes of a body written by the server: one event a message, up to the first terminal one. */
  lemma {:induction false} BodyIsRead(r: Reader, messages: seq<bytes>)
    requires !r.done && r.buf == Body(messages) && Framable(messages)
    ensures Drain(r).events == r.events + EventsOf(messages)
    ensures Drain(r).done <==> Closes(messages)
    decreases |messages|
  {
    hide NextMessage, Frame;
    if messages == [] {
      assert NextMessage([]).None? by { NothingThere(); }
    } else {
      hide EventOf;
      var m, e := messages[0], EventOf(messages[0]);
      FrameCut(m, Body(messages[1..]));
      ClosingKind(m);
      if !Terminal(e) {
        BodyIsRead(Reader(Body(messages[1..]), r.events + [e], false), messages[1..]);
      }
      assert r.events + ([e] + EventsOf(messages[1..])) == r.events + [e] + EventsOf(messages[1..]);
    }
  }

  lemma ClosingKind(message: bytes)
    requires message != []
    ensures Terminal(EventOf(message)) <==> message[0] != STREAM_ITEM
  {
  }

  lemma NothingThere()
    ensures NextMessage([]).None?
  {
  }

  /** The code of an error loses all but 32 bits; a text shorter than it says is replaced, a longer one cut. */
  lemma ErrorMeans(code: nat, length: nat, text: bytes)
    requires code < TWO_64 && length < TWO_64
    ensures EventOf([0x03] + Leb(code) + Leb(length) + text) ==
      Error(RpcError(Exact(code % 0x1_0000_0000),
                     if length <= |text| then FromWire(text[..length]) else Fixed("unknown error")))
  {
    hide DecodeLeb, Leb;
    LebRoundTrip(code, Leb(length) + text);
    LebRoundTrip(length, text);
    assert ([0x03] + Leb(code) + Leb(length) + text)[1..] == Leb(code) + (Leb(length) + text);
  }

  /** The messages of the server's stream sender are read as what they were sent for. */
  lemma MessagesMean(payload: bytes, code: nat, text: bytes)
    requires code < TWO_32 && |text| < TWO_64
    ensures EventOf(ItemMessage(payload)) == Item(payload)
    ensures EventOf(EndMessage()) == End
    ensures EventOf(ErrorMessage(code, text)) == Error(RpcError(Exact(code), FromWire(text)))
  {
    hide ErrorOf, Leb;
    ErrorMeans(code, |text|, text);
    assert text[..|text|] == text;
  }

  /**
   * End to end: items and at most one closing message, framed by the server, cut into any chunks,
   * followed by the end of the body: the events are the messages sent, and an END if the closing
   * one was lost.
   */
  lemma StreamDelivered(messages: seq<bytes>, chunks: seq<bytes>)
    requires Framable(messages) && Concat(chunks) == Body(messages)
    ensures Step(Run(START, Chunks(chunks)), Eof).events == EventsOf(messages) + if Closes(messages) then [] else [End]
  {
    hide Run, EventOf, Drain, Chunks, Concat, Settled;
    ChunksIrrelevant(START, chunks) by { StartSettled(); }
    assert [] + Body(messages) == Body(messages);
    BodyIsRead(Reader(Body(messages), [], false), messages);
    assert [] + EventsOf(messages) == EventsOf(messages) && EventsOf(messages) + [] == EventsOf(messages);
  }

  // ---------------------------------------------------------------- what any body comes to

  predicate NoneEmpty(messages: seq<bytes>)
  {
    forall i :: 0 <= i < |messages| ==> messages[i] != []
  }

  /** All messages that can be cut off the front of the bytes. */
  function Cuts(buf: bytes): (r: seq<bytes>)
    ensures NoneEmpty(r)
    decreases |buf|
  {
    var c := NextMessage(buf);
    if c.None? then [] else [c.value.message] + Cuts(c.value.rest)
  }

  /** One event a message, up to the first that closes the stream. */
  function ReadAll(messages: seq<bytes>): seq<StreamEvent>
    requires NoneEmpty(messages)
  {
    if messages == [] then []
    else
      var e := EventOf(messages[0]);
      [e] + if Terminal(e) then [] else ReadAll(messages[1..])
  }

  predicate Ended(events: seq<StreamEvent>)
  {
    events != [] && Terminal(events[|events| - 1])
  }

  /** The bytes of a body up to where it ends or breaks. */
  function Bytes(body: seq<BodyEvent>): bytes
  {
    if body == [] || body[0].Eof? || body[0].Broken? then []
    else (if body[0].Chunk? then body[0].data else []) + Bytes(body[1..])
  }

  /** How a body ends: END for its regular end, an error of code 0 where it breaks, nothing if it does neither. */
  function Ending(body: seq<BodyEvent>): seq<StreamEvent>
  {
    if body == [] then []
    else
      match body[0]
      case Eof => [End]
      case Broken(text) => [Error(RpcError(Exact(0), Fixed(text)))]
      case _ => Ending(body[1..])
  }

  lemma {:induction false} DrainReads(r: Reader)
    requires !r.done
    ensures Drain(r).events == r.events + ReadAll(Cuts(r.buf)) && (Drain(r).done <==> Ended(ReadAll(Cuts(r.buf))))
    decreases |r.buf|
  {
    hide NextMessage, EventOf;
    var c := NextMessage(r.buf);
    if c.None? {
      assert r.events + [] == r.events;
    } else {
      var e, more := EventOf(c.value.message), ReadAll(Cuts(c.value.rest));
      assert ReadAll(Cuts(r.buf)) == [e] + if Terminal(e) then [] else more;
      if !Terminal(e) {
        DrainReads(Reader(c.value.rest, r.events + [e], false));
        assert r.events + ([e] + more) == r.events + [e] + more;
      }
    }
  }

  function Finished(r: Reader, ending: seq<StreamEvent>): Reader
  {
    if r.done || ending == [] then r else r.(events := r.events + ending, done := true)
  }

  lemma {:induction false} RunJoined(r: Reader, body: seq<BodyEvent>)
    requires Settled(r)
    ensures Alike(Run(r, body), Finished(Step(r, Chunk(Bytes(body))), Ending(body)))
    decreases |body|
  {
    hide Settled, Drain;
    if body == [] {
      StepNothing(r);
    } else {
      match body[0]
      case Chunk(data) =>
        StepTwice(r, data, Bytes(body[1..]));
        RunJoined(Step(r, body[0]), body[1..]);
      case Trailers =>
        assert [] + Bytes(body[1..]) == Bytes(body[1..]);
        RunJoined(r, body[1..]);
      case _ =>
        StepNothing(r);
        DoneStays(Step(r, body[0]), body[1..]);
    }
  }

  lemma {:induction false} DoneStays(r: Reader, body: seq<BodyEvent>)
    requires r.done
    ensures Run(r, body) == r
    decreases |body|
  {
    if body != [] {
      DoneStays(r, body[1..]);
    }
  }

  /**
   * Every run: one event for each message that the bytes before the end hold, up to the first that
   * closes the stream; if none does, the event for how the body ended.
   */
  lemma RunMeans(body: seq<BodyEvent>)
    ensures var read := ReadAll(Cuts(Bytes(body)));
      Run(START, body).events == read + if Ended(read) then [] else Ending(body)
  {
    hide Settled, Run, Drain, Cuts, ReadAll, Bytes, Ending, Ended;
    assert Settled(START) by { StartSettled(); }
    RunJoined(START, body);
    assert [] + Bytes(body) == Bytes(body);
    var read := ReadAll(Cuts(Bytes(body)));
    DrainReads(Reader(Bytes(body), [], false));
    assert [] + read == read && read + [] == read;
  }

  /** In every run an END comes from an END message or from the regular end of the body, never from a broken one. */
  lemma EndsAreMeant(body: seq<BodyEvent>)
    requires End in Run(START, body).events
    ensures (exists i :: 0 <= i < |Cuts(Bytes(body))| && Cuts(Bytes(body))[i][0] == STREAM_END) ||
      Ending(body) == [End]
  {
    hide Run, Cuts, ReadAll, Bytes, Ending, Ended;
    RunMeans(body);
    OneEnding(body);
    if Ending(body) != [End] {
      assert End !in Ending(body);
      EndsRead(Cuts(Bytes(body)));
    }
  }

  lemma {:induction false} EndsRead(messages: seq<bytes>)
    requires NoneEmpty(messages) && End in ReadAll(messages)
    ensures exists i :: 0 <= i < |messages| && messages[i][0] == STREAM_END
  {
    hide ErrorOf;
    assert ErrorOf(messages[0][1..]) != End by { NeverEnd(messages[0][1..]); }
    if EventOf(messages[0]) != End {
      EndsRead(messages[1..]);
      var i :| 0 <= i < |messages[1..]| && messages[1..][i][0] == STREAM_END;
      assert messages[i + 1] == messages[1..][i];
    }
  }

  lemma NeverEnd(payload: bytes)
    ensures ErrorOf(payload).Error?
  {
  }

  lemma OneEnding(body: seq<BodyEvent>)
    ensures |Ending(body)| <= 1
  {
  }

  // ---------------------------------------------------------------- bodies that are cut off

  /** How many of the messages are complete in the first `n` bytes of their body. */
  function Whole(messages: seq<bytes>, n: nat): (r: nat)
    ensures r <= |messages|
  {
    if messages == [] || n < |Frame(messages[0])| then 0
    else 1 + Whole(messages[1..], n - |Frame(messages[0])|)
  }

  /** The beginning of a frame is no message. */
  lemma PartOfFrame(message: bytes, n: nat)
    requires 0 < |message| < TWO_64 && n < |Frame(message)|
    ensures NextMessage(Frame(message)[..n]).None?
  {
    hide NextMessage;
    var part, more := Frame(message)[..n], Frame(message)[n..];
    assert part + more == Frame(message) + [];
    if NextMessage(part).Some? {
      MessageStable(part, more);
      FrameCut(message, []);
    }
  }

  /** From the beginning of a body exactly the messages that are complete in it can be cut. */
  lemma {:induction false} PrefixCuts(messages: seq<bytes>, n: nat)
    requires Framable(messages) && n <= |Body(messages)|
    ensures Cuts(Body(messages)[..n]) == messages[..Whole(messages, n)]
    decreases |messages|
  {
    hide NextMessage, Frame;
    if messages == [] {
      NothingThere();
    } else {
      var first, more := Frame(messages[0]), Body(messages[1..]);
      if n < |first| {
        assert (first + more)[..n] == first[..n];
        PartOfFrame(messages[0], n);
      } else {
        assert (first + more)[..n] == first + more[..n - |first|];
        FrameCut(messages[0], more[..n - |first|]);
        PrefixCuts(messages[1..], n - |first|);
        assert messages[..Whole(messages, n)] == [messages[0]] + messages[1..][..Whole(messages[1..], n - |first|)];
      }
    }
  }

  lemma {:induction false} ReadsGrammar(messages: seq<bytes>)
    requires Framable(messages)
    ensures ReadAll(messages) == EventsOf(messages) && (Ended(EventsOf(messages)) <==> Closes(messages))
  {
    hide EventOf;
    if messages != [] {
      ClosingKind(messages[0]);
      ReadsGrammar(messages[1..]);
    }
  }

  /**
   * End to end for a stream that stops anywhere: chunks of any size hold the first bytes of what the
   * server framed, and then the body ends, breaks or just goes quiet. The events are those of the
   * messages that came through whole, and then that ending unless a closing message was among them.
   */
  lemma CutStreamDelivered(messages: seq<bytes>, body: seq<BodyEvent>)
    requires Framable(messages) && Bytes(body) <= Body(messages)
    ensures var seen := messages[..Whole(messages, |Bytes(body)|)];
      Framable(seen) && Run(START, body).events == EventsOf(seen) + if Closes(seen) then [] else Ending(body)
  {
    hide Run, Cuts, ReadAll, Ending, Bytes, Body, EventOf, Ended, EventsOf;
    RunMeans(body);
    PrefixCuts(messages, |Bytes(body)|);
    assert Body(messages)[..|Bytes(body)|] == Bytes(body);
    ReadsGrammar(messages[..Whole(messages, |Bytes(body)|)]);
  }

  // ---------------------------------------------------------------- what no server would send

  /** A length of zero, or one that overflows, stops the reader until the body ends, whatever follows it. */
  lemma Stalled(buf: bytes, more: bytes)
    requires var len := DecodeLeb(buf);
      if len.Ok? then len.value == 0 else len.error == Leb128Overflow
    ensures Cuts(buf + more) == []
  {
    hide LebFrom;
    if DecodeLeb(buf).Ok? {
      LengthStable(buf, more, 0, 0);
    } else {
      OverflowStable(buf, more, 0, 0);
    }
  }

  lemma {:induction false} OverflowStable(buf: bytes, more: bytes, shift: nat, acc: nat)
    requires LebFrom(buf, shift, acc).Err? && LebFrom(buf, shift, acc).error == Leb128Overflow
    ensures LebFrom(buf + more, shift, acc).Err?
  {
    hide Low, Shl;
    assert (buf + more)[1..] == buf[1..] + more;
    if buf[0] >= 128 && shift < 63 {
      OverflowStable(buf[1..], more, shift + 7, acc + Low(Shl(buf[0] % 128, shift), 64));
    }
  }

  /** What cannot be read of an error counts as 0: its code, or the length of its text. */
  lemma BareError(code: nat)
    requires code < TWO_64
    ensures EventOf([0x03]) == Error(RpcError(Exact(0), FromWire([])))
    ensures EventOf([0x03] + Leb(code)) == Error(RpcError(Exact(code % 0x1_0000_0000), FromWire([])))
  {
    hide Leb, LebFrom;
    LebRoundTrip(code, []);
    assert ([0x03] + Leb(code))[1..] == Leb(code) + [] && [0x03][1..] == [];
    NothingToRead();
  }

  lemma NothingToRead()
    ensures DecodeLeb([]) == Err(UnexpectedEof, [])
  {
  }

  /** A message of no known kind is an error of code 0. */
  lemma UnknownKind(message: bytes)
    requires message != [] && message[0] !in {0x01, 0x02, 0x03}
    ensures EventOf(message) == Error(RpcError(Exact(0), Fixed("unknown stream message type")))
  {
  }

  // ---------------------------------------------------------------- the loop

  class HttpReader {
    var buf: bytes
    var events: seq<StreamEvent>
    var done: bool

    ghost function State(): Reader
      reads this
    {
      Reader(buf, events, done)
    }

    constructor ()
      ensures State() == START
    {
      buf, events, done := [], [], false;
    }

    /** The event for one message, as the reader's `match` builds it. */
    method ParseEvent(message: bytes) returns (event: StreamEvent)
      requires message != []
      ensures event == EventOf(message)
    {
      hide DecodeLeb;
      var payload := message[1..];
      if message[0] == STREAM_ITEM {
        event := Item(payload);
      } else if message[0] == STREAM_END {
        event := End;
      } else if message[0] == ERROR {
        var ebuf := new Cursor(payload);
        var code := DecodeLeb128(ebuf);
        var len := DecodeLeb128(ebuf);
        var text := if |ebuf.rest| >= OrZero(len) then FromWire(ebuf.rest[..OrZero(len)]) else Fixed("unknown error");
        event := Error(RpcError(Exact(OrZero(code) % TWO_32), text));
      } else {
        event := Error(RpcError(Exact(0), Fixed("unknown stream message type")));
      }
    }

    /** Appends the chunk, then parses as many complete messages as there are. */
    method OnChunk(chunk: bytes)
      requires !done
      modifies this
      ensures State() == Step(old(State()), Chunk(chunk))
    {
      hide DecodeLeb, EventOf;
      buf := buf + chunk;
      ghost var all := State();
      while !done
        invariant Drain(State()) == Drain(all)
        decreases |buf|, !done
      {
        var cursor := new Cursor(buf);
        var originalLen := |cursor.rest|;
        if cursor.rest == [] {
          NothingThere();
          break;
        }
        var length := DecodeLeb128(cursor);
        if length.Err? {
          break;
        }
        var headerLen := originalLen - |cursor.rest|;
        if |cursor.rest| < length.value || length.value == 0 {
          break;
        }
        var message := cursor.rest[..length.value];
        var consumed := headerLen + length.value;
        assert buf[consumed..] == cursor.rest[length.value..];
        var event := ParseEvent(message);
        events := events + [event];
        buf := buf[consumed..];
        done := Terminal(event);
      }
    }

    method OnBodyError(text: string)
      requires !done
      modifies this
      ensures State() == Step(old(State()), Broken(text))
    {
      events := events + [Error(RpcError(Exact(0), Fixed(text)))];
      done := true;
    }

    method OnBodyEnd()
      requires !done
      modifies this
      ensures State() == Step(old(State()), Eof)
    {
      events := events + [End];
      done := true;
    }
  }

  // ---------------------------------------------------------------- the server's body, polled

  /** What the handler does while it is polled: the messages it puts into the channel, and whether it lets go of it. */
  datatype Progress = Progress(messages: seq<bytes>, ends: bool)

  datatype Poll = Ready(frame: bytes) | Finished | Pending

  /** `written` and `out` record the messages put into the channel and the bytes handed to the connection. */
  datatype Serving = Serving(queue: seq<bytes>, ended: bool, written: seq<bytes>, out: bytes)

  const NOTHING_SERVED := Serving([], false, [], [])

  /** The handler moves first, then the head of the queue is framed. */
  function Polled(s: Serving, p: Progress): Serving
  {
    var driven := if s.ended then s else Serving(s.queue + p.messages, p.ends, s.written + p.messages, s.out);
    if driven.queue == [] then driven
    else driven.(queue := driven.queue[1..], out := driven.out + Frame(driven.queue[0]))
  }

  function PolledAll(s: Serving, polls: seq<Progress>): Serving
    decreases |polls|
  {
    if polls == [] then s else PolledAll(Polled(s, polls[0]), polls[1..])
  }

  lemma {:induction false} BodyAppend(a: seq<bytes>, b: seq<bytes>)
    ensures Body(a + b) == Body(a) + Body(b)
  {
    if a == [] {
      assert a + b == b;
    } else {
      assert (a + b)[1..] == a[1..] + b;
      BodyAppend(a[1..], b);
    }
  }

  /** Handed out and still queued make up the body of what was written. */
  ghost predicate InFull(s: Serving)
  {
    s.out + Body(s.queue) == Body(s.written)
  }

  lemma PolledKeeps(s: Serving, p: Progress)
    requires InFull(s)
    ensures InFull(Polled(s, p))
  {
    hide Frame;
    var driven := if s.ended then s else Serving(s.queue + p.messages, p.ends, s.written + p.messages, s.out);
    BodyAppend(s.queue, p.messages);
    BodyAppend(s.written, p.messages);
    assert s.out + (Body(s.queue) + Body(p.messages)) == s.out + Body(s.queue) + Body(p.messages);
    if driven.queue != [] {
      assert driven.out + (Frame(driven.queue[0]) + Body(driven.queue[1..])) ==
        driven.out + Frame(driven.queue[0]) + Body(driven.queue[1..]);
    }
  }

  /**
   * However it is polled, the body is the beginning of the frames of the messages written, and all of
   * them at its end.
   */
  lemma {:induction false} BodyServed(s: Serving, polls: seq<Progress>)
    requires InFull(s)
    ensures var r := PolledAll(s, polls);
      InFull(r) && r.out <= Body(r.written) && (r.queue == [] ==> r.out == Body(r.written))
    decreases |polls|
  {
    hide Polled, Body;
    if polls == [] {
      assert s.out + Body([]) == s.out by { EmptyBody(); }
    } else {
      PolledKeeps(s, polls[0]);
      BodyServed(Polled(s, polls[0]), polls[1..]);
    }
  }

  /** As many more polls as there are messages queued empty the queue, if the handler writes nothing new. */
  lemma {:induction false} BodyCompletes(s: Serving, polls: seq<Progress>)
    requires InFull(s) && |polls| == |s.queue| && forall p <- polls :: p.messages == []
    ensures var r := PolledAll(s, polls); r.queue == [] && r.written == s.written && r.out == Body(s.written)
    decreases |polls|
  {
    hide Body;
    if polls == [] {
      assert s.out + Body([]) == s.out by { EmptyBody(); }
    } else {
      PolledKeeps(s, polls[0]);
      assert s.queue + [] == s.queue && s.written + [] == s.written;
      BodyCompletes(Polled(s, polls[0]), polls[1..]);
    }
  }

  lemma EmptyBody()
    ensures Body([]) == []
  {
  }

  class StreamBody {
    var queue: seq<bytes>
    var ended: bool
    ghost var written: seq<bytes>
    ghost var out: bytes

    ghost function State(): Serving
      reads this
    {
      Serving(queue, ended, written, out)
    }

    constructor ()
      ensures State() == NOTHING_SERVED
    {
      queue, ended, written, out := [], false, [], [];
    }

    /** The next frame; the end once the channel is empty and let go of; or neither yet. */
    method PollFrame(p: Progress) returns (r: Poll)
      modifies this
      ensures State() == Polled(old(State()), p)
      ensures r.Ready? ==> out == old(out) + r.frame
      ensures r.Finished? <==> old(queue) == [] && (old(ended) || p == Progress([], true))
      ensures r.Pending? <==> old(queue) == [] && !old(ended) && p == Progress([], false)
    {
      if !ended {
        queue, written, ended := queue + p.messages, written + p.messages, p.ends;
      }
      if queue == [] {
        return if ended then Finished else Pending;
      }
      var frame := new Buffer();
      EncodeLeb128(|queue[0]|, frame);
      frame.Extend(queue[0]);
      assert frame.data == Frame(queue[0]);
      queue, out := queue[1..], out + frame.data;
      return Ready(frame.data);
    }
  }
}
