/**
 * What the server puts on the wire, byte for byte: all that a stream's sender writes over its whole
 * life, and what each step of a handler and of the receive loop sends.
 */
module RpcReplies {
  import opened Wire
  import opened Leb128
  import opened RpcMessages
  import opened RpcServer

  /** An error on the wire: its kind, its code, and its text behind its length. */
  function ErrorBytes(code: u32, text: Text): bytes { [0x03] + Leb(code) + Leb(|text|) + text }

  // ---------------------------------------------------------------- a stream, from its first item to its last word

  /** The payloads of the sends that find the sender open and the channel with room. */
  function Accepted(ch: Channel, events: seq<SenderEvent>): seq<bytes>
    decreases |events|
  {
    if events == [] then []
    else
      (if events[0].Send? && ch.sender.Open? && !ch.closed && |ch.queue| < 16 then [events[0].payload] else []) +
      Accepted(SenderStep(ch, events[0]), events[1..])
  }

  /**
   * What a sender says last: the error it is about to report, `due`, once there is room for it, or an
   * END where it is dropped with none due and room for it. A sender that is dropped or gone says
   * nothing more.
   */
  function FinalWord(ch: Channel, due: Option<bytes>, events: seq<SenderEvent>): seq<bytes>
    decreases |events|
  {
    if events == [] || ch.sender.Gone? then []
    else
      var room, next := !ch.closed && |ch.queue| < 16, SenderStep(ch, events[0]);
      match events[0]
      case Drop => if due.None? && room then [[0x02]] else []
      case PushError => if due.Some? && room then [due.value] else FinalWord(next, due, events[1..])
      case StartError(code, text) =>
        FinalWord(next, if due.None? then Some(ErrorBytes(code, text)) else due, events[1..])
      case _ => FinalWord(next, due, events[1..])
  }

  function AsItems(payloads: seq<bytes>): seq<bytes>
  {
    if payloads == [] then [] else [[0x01] + payloads[0]] + AsItems(payloads[1..])
  }

  /** `due` is the error the sender is about to report. */
  predicate Reporting(ch: Channel, due: Option<bytes>)
  {
    match ch.sender
    case Open => due.None?
    case Failing(message) => due == Some(message)
    case Gone => true
  }

  lemma {:induction false} WrittenFrom(ch: Channel, due: Option<bytes>, events: seq<SenderEvent>)
    requires Reporting(ch, due)
    ensures SenderRun(ch, events).written == ch.written + (AsItems(Accepted(ch, events)) + FinalWord(ch, due, events))
    decreases |events|
  {
    hide *;
    if events == [] || ch.sender.Gone? {
      SaysNoMore(ch, due, events);
    } else {
      var next, later := SenderStep(ch, events[0]), DueAfter(ch, due, events[0]);
      Turn(ch, due, events);
      if next.sender.Gone? {
        SaysNoMore(next, later, events[1..]);
        Joined(ch.written, [], [], FinalWord(ch, due, events));
      } else {
        WrittenFrom(next, later, events[1..]);
        var taken, last := Accepted(next, events[1..]), FinalWord(next, later, events[1..]);
        if events[0].Send? && ch.sender.Open? && Room(ch) {
          OneItemMore(events[0].payload, taken);
          Joined(ch.written, [[0x01] + events[0].payload], AsItems(taken), last);
        }
      }
    }
  }

  lemma Joined(written: seq<bytes>, now: seq<bytes>, taken: seq<bytes>, last: seq<bytes>)
    ensures written + now + (taken + last) == written + ((now + taken) + last)
    ensures written + ([] + last) == written + last
  {
    assert [] + last == last;
  }

  lemma SaysNoMore(ch: Channel, due: Option<bytes>, events: seq<SenderEvent>)
    requires events == [] || ch.sender.Gone?
    ensures SenderRun(ch, events).written == ch.written
    ensures ch.written + (AsItems(Accepted(ch, events)) + FinalWord(ch, due, events)) == ch.written
  {
    if ch.sender.Gone? {
      GoneIsSilent(ch, events);
      NoneAccepted(ch, events);
    }
    assert ch.written + [] == ch.written;
  }

  function DueAfter(ch: Channel, due: Option<bytes>, e: SenderEvent): Option<bytes>
  {
    if e.StartError? && due.None? then Some(ErrorBytes(e.code, e.text)) else due
  }

  /** One event of a sender that is still there. */
  lemma Turn(ch: Channel, due: Option<bytes>, events: seq<SenderEvent>)
    requires events != [] && !ch.sender.Gone? && Reporting(ch, due)
    ensures var e, next := events[0], SenderStep(ch, events[0]);
      SenderRun(ch, events) == SenderRun(next, events[1..]) && Reporting(next, DueAfter(ch, due, e)) &&
      if next.sender.Gone? then
        AsItems(Accepted(ch, events)) == [] && next.written == ch.written + FinalWord(ch, due, events)
      else
        FinalWord(ch, due, events) == FinalWord(next, DueAfter(ch, due, e), events[1..]) &&
        if e.Send? && ch.sender.Open? && Room(ch) then
          next.written == ch.written + [[0x01] + e.payload] &&
          Accepted(ch, events) == [e.payload] + Accepted(next, events[1..])
        else next.written == ch.written && Accepted(ch, events) == Accepted(next, events[1..])
  {
    hide SenderRun, Accepted, FinalWord, AsItems;
    RunTurn(ch, events);
    if SenderStep(ch, events[0]).sender.Gone? {
      LastTurn(ch, due, events);
    } else {
      AnyTurn(ch, due, events);
    }
  }

  lemma LastTurn(ch: Channel, due: Option<bytes>, events: seq<SenderEvent>)
    requires events != [] && !ch.sender.Gone? && Reporting(ch, due) && SenderStep(ch, events[0]).sender.Gone?
    ensures AsItems(Accepted(ch, events)) == []
    ensures SenderStep(ch, events[0]).written == ch.written + FinalWord(ch, due, events)
  {
    hide Leb;
    var next := SenderStep(ch, events[0]);
    NoneAccepted(next, events[1..]);
    assert ch.written + [] == ch.written;
    assert FinalWord(next, due, events[1..]) == [];
  }

  lemma AnyTurn(ch: Channel, due: Option<bytes>, events: seq<SenderEvent>)
    requires events != [] && !ch.sender.Gone? && Reporting(ch, due) && !SenderStep(ch, events[0]).sender.Gone?
    ensures var e, next := events[0], SenderStep(ch, events[0]);
      Reporting(next, DueAfter(ch, due, e)) &&
      FinalWord(ch, due, events) == FinalWord(next, DueAfter(ch, due, e), events[1..]) &&
      if e.Send? && ch.sender.Open? && Room(ch) then
        next.written == ch.written + [[0x01] + e.payload] &&
        Accepted(ch, events) == [e.payload] + Accepted(next, events[1..])
      else next.written == ch.written && Accepted(ch, events) == Accepted(next, events[1..])
  {
    hide Leb;
    var next := SenderStep(ch, events[0]);
    assert [] + Accepted(next, events[1..]) == Accepted(next, events[1..]);
  }

  lemma RunTurn(ch: Channel, events: seq<SenderEvent>)
    requires events != []
    ensures SenderRun(ch, events) == SenderRun(SenderStep(ch, events[0]), events[1..])
  {
  }

  lemma NoItems()
    ensures AsItems([]) == []
  {
  }

  lemma OneItemMore(payload: bytes, more: seq<bytes>)
    ensures AsItems([payload] + more) == [[0x01] + payload] + AsItems(more)
  {
    assert ([payload] + more)[1..] == more;
  }

  lemma {:induction false} NoneAccepted(ch: Channel, events: seq<SenderEvent>)
    requires ch.sender.Gone?
    ensures Accepted(ch, events) == []
    decreases |events|
  {
    if events != [] {
      NoneAccepted(SenderStep(ch, events[0]), events[1..]);
    }
  }

  /**
   * Everything a stream ever says: its accepted items in the order they were sent, each whole, and
   * then at most one last word, the END of a sender dropped or the first error it was given.
   */
  lemma WrittenExactly(events: seq<SenderEvent>)
    ensures SenderRun(NEW_CHANNEL, events).written ==
      AsItems(Accepted(NEW_CHANNEL, events)) + FinalWord(NEW_CHANNEL, None, events)
  {
    hide SenderRun, Accepted, FinalWord, AsItems;
    WrittenFrom(NEW_CHANNEL, None, events);
    var all := AsItems(Accepted(NEW_CHANNEL, events)) + FinalWord(NEW_CHANNEL, None, events);
    assert [] + all == all;
  }

  // ---------------------------------------------------------------- handlers

  /** What a step of a run says: its answer, its failure or the message its stream has on hand; nothing without room. */
  function Says(s: Server, run: Run, e: HandlerEvent): seq<bytes>
  {
    if |s.out| >= 64 then []
    else
      match e
      case Respond(payload) => if run.context.Fresh? then [[0x00] + payload] else []
      case Fail(code, text) => if run.context.Fresh? then [ErrorBytes(code, text)] else []
      case Forward => if run.context.Streaming? then Held(run.context.channel) else []
      case _ => []
  }

  function Outgoing(r: nat, id: nat, messages: seq<bytes>): seq<Outbound>
  {
    seq(|messages|, i requires 0 <= i < |messages| => Outbound(Some(r), id, messages[i]))
  }

  /**
   * In every reachable state a step of a run says just that, in that run's name and behind everything
   * queued before; a run answers once, and no step of one run touches another.
   */
  lemma HandlerSays(events: seq<ServerEvent>, r: nat, e: HandlerEvent)
    requires r < |ServerRun(IDLE, events).runs|
    ensures var s := ServerRun(IDLE, events); var t := HandlerStep(s, r, e);
      var run := s.runs[r]; var messages := Says(s, run, e);
      |t.runs| == |s.runs| && t.cancels == s.cancels &&
      t.out == s.out + Outgoing(r, run.id, messages) && t.runs[r].said == run.said + messages &&
      t.runs[r].id == run.id && t.runs[r].methodIndex == run.methodIndex && t.runs[r].payload == run.payload &&
      (messages != [] && !e.Forward? ==> run.said == [] && t.runs[r].context.Consumed?) &&
      forall q: nat :: q < |s.runs| && q != r ==> t.runs[q] == s.runs[q]
  {
    hide ServerRun, SenderStep, Dropped, ChannelOk;
    var s := ServerRun(IDLE, events);
    ServerRunKeeps(IDLE, events);
    assert RunOk(s.runs[r]);
    assert s.out + [] == s.out && s.runs[r].said + [] == s.runs[r].said;
  }

  /**
   * What becomes of the run: an answer or giving up uses its context, a stream opens on an empty
   * channel and forwards what it has on hand, and a cancelled run may be cut off at any time.
   */
  lemma HandlerMoves(s: Server, r: nat, e: HandlerEvent)
    requires r < |s.runs|
    ensures var run, after := s.runs[r], HandlerStep(s, r, e).runs[r].context;
      match run.context
      case Fresh =>
        if e.Respond? || e.Fail? then after == if |s.out| < 64 then Consumed else Fresh
        else if e.Abandon? || (e.Cut? && run.cancelled) then after == Consumed
        else if e.OpenStream? then after == Streaming(Channel(Open, [], None, false, []))
        else after == Fresh
      case Consumed => after == Consumed
      case Streaming(ch) =>
        if e.OnStream? then after == Streaming(SenderStep(ch, e.e))
        else if e.Forward? && ch.held.Some? && |s.out| < 64 then
          after == Streaming(Channel(ch.sender, ch.queue, None, ch.closed, ch.written))
        else if e.Cut? && run.cancelled then after == Streaming(SenderStep(ch, SenderEvent.Drop))
        else after == run.context
  {
    hide SenderStep, Dropped;
    if e.Cut? && s.runs[r].context.Streaming? {
      DropStep(s.runs[r].context.channel);
    }
  }

  lemma DropStep(ch: Channel)
    ensures SenderStep(ch, SenderEvent.Drop) == Dropped(ch)
  {
  }

  /**
   * How messages move through a channel: in at the back while there is room, out at the front onto the
   * forwarder's hand.
   */
  lemma ChannelMoves(ch: Channel, e: SenderEvent)
    ensures var next := SenderStep(ch, e);
      match e
      case Take =>
        if ch.held.None? && ch.queue != [] then next.held == Some(ch.queue[0]) && next.queue == ch.queue[1..]
        else next == ch
      case Close => next.closed && next.queue == [] && next.held.None? && next.sender == ch.sender
      case _ =>
        next.held == ch.held && next.closed == ch.closed && ch.written <= next.written &&
        next.queue == ch.queue + next.written[|ch.written|..]
  {
    hide Leb;
    assert ch.queue + [] == ch.queue;
  }

  // ---------------------------------------------------------------- the receive loop

  const REFUSAL: bytes := [0x03, 0x02, 0x1D] + BAD_METHOD

  /** "failed to decode method index", code 2. */
  lemma RefusalBytes()
    ensures ErrorMessage(ERR_CODE_DECODE_ERROR, BAD_METHOD) == REFUSAL && |BAD_METHOD| == 29
    ensures forall i :: 0 <= i < 29 ==> BAD_METHOD[i] as char == "failed to decode method index"[i]
  {
    assert Leb(2) == [0x02] && Leb(29) == [0x1D];
  }

  /**
   * In every reachable state a packet is answered by the receive loop itself only if it is a request
   * whose method index cannot be read; a request starts one run, which has said nothing; whatever is
   * neither a request nor a cancel, or has no id, changes nothing.
   */
  lemma ReceiveSays(events: seq<ServerEvent>, data: bytes)
    ensures var s := ServerRun(IDLE, events); var t := Accept(s, data);
      var id := DecodeLeb(if data == [] then [] else data[1..]);
      if data == [] || id.Err? || data[0] !in {0x80, 0x81} then t == s
      else if data[0] == 0x81 then t.out == s.out && |t.runs| == |s.runs|
      else
        var m := DecodeLeb(id.rest);
        if m.Err? then
          t == s.(out := s.out + if |s.out| < 64 then [Outbound(None, id.value, REFUSAL)] else [])
        else
          t.out == s.out && |t.runs| == |s.runs| + 1 &&
          t.runs[|s.runs|] == Run(id.value, m.value % 0x1_0000_0000, m.rest, Fresh, false, [])
  {
    hide ServerRun, DecodeLeb, ErrorMessage;
    var s := ServerRun(IDLE, events);
    ServerRunKeeps(IDLE, events);
    RefusalBytes();
    assert s.out + [] == s.out;
  }
}
