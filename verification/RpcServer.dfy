/**
 * The Rust packet server: requests become concurrent handler runs that answer once or stream, and
 * whose packets share one bounded channel. Any interleaving of the runs, and a handler dropped at
 * any point, is a sequence of the steps below.
 */
module RpcServer {
  import opened Wire
  import opened Leb128
  import opened TsRuntime
  import opened RpcMessages

  const STREAM_CAPACITY := 16
  const OUT_CAPACITY := 64

  // ---------------------------------------------------------------- the stream sender

  /** `Failing` is `error` between marking the stream finished and getting its message into the channel. */
  datatype Sender = Open | Failing(message: bytes) | Gone

  /**
   * A stream channel, its sender and its forwarder; `written` records what got in. It is closed
   * once its receiver is gone, and what was still in it with the receiver.
   */
  datatype Channel = Channel(sender: Sender, queue: seq<bytes>, held: Option<bytes>, closed: bool, written: seq<bytes>)

  const NEW_CHANNEL := Channel(Open, [], None, false, [])

  function Write(ch: Channel, message: bytes): Channel
  {
    ch.(queue := ch.queue + [message], written := ch.written + [message])
  }

  predicate Room(ch: Channel) { !ch.closed && |ch.queue| < STREAM_CAPACITY }

  /** Dropping the sender ends the stream, if the channel has room for the END: `try_send` does not wait. */
  function Dropped(ch: Channel): Channel
  {
    if ch.sender.Open? && Room(ch) then Write(ch, EndMessage()).(sender := Gone) else ch.(sender := Gone)
  }

  datatype SenderEvent =
    | Send(payload: bytes)
    | StartError(code: u32, text: Text)
    | PushError
    | Drop
    | Take
    | Close

  /** A step that is not enabled changes nothing: the future that would take it is still waiting, or has failed. */
  function SenderStep(ch: Channel, e: SenderEvent): Channel
  {
    match e
    case Send(payload) => if ch.sender.Open? && Room(ch) then Write(ch, ItemMessage(payload)) else ch
    case StartError(code, text) => if ch.sender.Open? then ch.(sender := Failing(ErrorMessage(code, text))) else ch
    case PushError =>
      if !ch.sender.Failing? then ch
      else if Room(ch) then Write(ch, ch.sender.message).(sender := Gone)
      else if ch.closed then ch.(sender := Gone)
      else ch
    case Drop => Dropped(ch)
    case Take => if ch.held.None? && ch.queue != [] then ch.(held := Some(ch.queue[0]), queue := ch.queue[1..]) else ch
    case Close => ch.(closed := true, queue := [], held := None)
  }

  function SenderRun(ch: Channel, events: seq<SenderEvent>): Channel
    decreases |events|
  {
    if events == [] then ch else SenderRun(SenderStep(ch, events[0]), events[1..])
  }

  /** One of the four kinds of message, in the form the client takes apart. */
  ghost predicate Spoken(m: bytes)
  {
    m != [] &&
    (m[0] == RESPONSE || m[0] == STREAM_ITEM || m == EndMessage() ||
     exists code: u32, text: Text :: m == ErrorMessage(code, text))
  }

  ghost predicate OnlyItems(messages: seq<bytes>)
  {
    forall m <- messages :: m != [] && m[0] == STREAM_ITEM
  }

  ghost predicate ChannelOk(ch: Channel)
  {
    Grammar(ch.written) && (forall m <- ch.written :: Spoken(m)) && (!ch.sender.Gone? ==> OnlyItems(ch.written)) &&
    (ch.sender.Failing? ==> exists code: u32, text: Text :: ch.sender.message == ErrorMessage(code, text)) &&
    |ch.queue| <= STREAM_CAPACITY
  }

  lemma GrammarSnoc(messages: seq<bytes>, m: bytes)
    requires OnlyItems(messages) && m != [] && m[0] in {STREAM_ITEM, STREAM_END, ERROR}
    ensures Grammar(messages + [m]) && (m[0] == STREAM_ITEM ==> OnlyItems(messages + [m]))
  {
  }

  lemma SenderStepKeeps(ch: Channel, e: SenderEvent)
    requires ChannelOk(ch)
    ensures ChannelOk(SenderStep(ch, e)) && ch.written <= SenderStep(ch, e).written
  {
    match e
    case Send(payload) => if ch.sender.Open? { GrammarSnoc(ch.written, ItemMessage(payload)); }
    case PushError => if ch.sender.Failing? { GrammarSnoc(ch.written, ch.sender.message); }
    case Drop => if ch.sender.Open? { GrammarSnoc(ch.written, EndMessage()); }
    case _ =>
  }

  lemma {:induction false} SenderRunKeeps(ch: Channel, events: seq<SenderEvent>)
    requires ChannelOk(ch)
    ensures ChannelOk(SenderRun(ch, events))
    decreases |events|
  {
    hide ChannelOk, SenderStep;
    if events != [] {
      SenderStepKeeps(ch, events[0]);
      SenderRunKeeps(SenderStep(ch, events[0]), events[1..]);
    }
  }

  /**
   * For every sequence of sends, error, drop and forwarding: items, then at most one END or ERROR,
   * and once the sender is gone nothing more.
   */
  lemma StreamGrammar(events: seq<SenderEvent>, later: seq<SenderEvent>)
    ensures Grammar(SenderRun(NEW_CHANNEL, events).written)
    ensures var ch := SenderRun(NEW_CHANNEL, events);
      ch.sender.Gone? ==> SenderRun(ch, later).written == ch.written
  {
    hide SenderRun;
    SenderRunKeeps(NEW_CHANNEL, events);
    if SenderRun(NEW_CHANNEL, events).sender.Gone? {
      GoneIsSilent(SenderRun(NEW_CHANNEL, events), later);
    }
  }

  lemma {:induction false} GoneIsSilent(ch: Channel, events: seq<SenderEvent>)
    requires ch.sender.Gone?
    ensures SenderRun(ch, events).written == ch.written
    decreases |events|
  {
    if events != [] {
      GoneIsSilent(SenderStep(ch, events[0]), events[1..]);
    }
  }

  predicate Closed(messages: seq<bytes>)
  {
    messages != [] && var last := messages[|messages| - 1]; last != [] && last[0] in {STREAM_END, ERROR}
  }

  lemma {:induction false} RunBySteps(ch: Channel, events: seq<SenderEvent>, i: nat)
    requires i < |events|
    ensures SenderRun(ch, events[..i + 1]) == SenderStep(SenderRun(ch, events[..i]), events[i])
    ensures SenderRun(ch, events) == SenderRun(SenderRun(ch, events[..i + 1]), events[i + 1..])
    decreases i
  {
    hide SenderStep;
    assert events[..i + 1][1..] == events[1..][..i] && events[..i + 1][0] == events[0];
    if i == 0 {
      assert events[..0] == [] && events[1..][..0] == [];
    } else {
      RunBySteps(SenderStep(ch, events[0]), events[1..], i - 1);
      assert events[..i][1..] == events[1..][..i - 1] && events[1..][i..] == events[i + 1..];
    }
  }

  /** The step found room for what it had to say: the END of a sender dropped open, or its error. */
  predicate FoundRoom(ch: Channel, e: SenderEvent)
  {
    Room(ch) && ((e.Drop? && ch.sender.Open?) || e.PushError?)
  }

  lemma LastWord(ch: Channel, e: SenderEvent)
    requires ChannelOk(ch) && !ch.sender.Gone? && SenderStep(ch, e).sender.Gone?
    ensures Closed(SenderStep(ch, e).written) <==> FoundRoom(ch, e)
  {
    if ch.written != [] {
      assert ch.written[|ch.written| - 1] in ch.written;
    }
  }

  /**
   * Whatever the run, what got into a channel ends in an END or an error exactly if the step that
   * ended its sender, step `i`, found room for it.
   */
  lemma EndsIff(events: seq<SenderEvent>, i: nat)
    requires i < |events|
    requires !SenderRun(NEW_CHANNEL, events[..i]).sender.Gone? && SenderRun(NEW_CHANNEL, events[..i + 1]).sender.Gone?
    ensures Closed(SenderRun(NEW_CHANNEL, events).written) <==>
      FoundRoom(SenderRun(NEW_CHANNEL, events[..i]), events[i])
  {
    hide SenderRun, SenderStep, ChannelOk, Closed, FoundRoom;
    var ch := SenderRun(NEW_CHANNEL, events[..i]);
    assert ChannelOk(NEW_CHANNEL) by { NewChannelOk(); }
    SenderRunKeeps(NEW_CHANNEL, events[..i]);
    RunBySteps(NEW_CHANNEL, events, i);
    LastWord(ch, events[i]);
    GoneIsSilent(SenderStep(ch, events[i]), events[i + 1..]);
  }

  lemma NewChannelOk()
    ensures ChannelOk(NEW_CHANNEL)
  {
  }

  function Sends(payloads: seq<bytes>): seq<SenderEvent>
  {
    seq(|payloads|, i requires 0 <= i < |payloads| => Send(payloads[i]))
  }

  function ItemMessages(payloads: seq<bytes>): seq<bytes>
  {
    seq(|payloads|, i requires 0 <= i < |payloads| => ItemMessage(payloads[i]))
  }

  /** As many items as fit, with nobody taking them. */
  function Filled(payloads: seq<bytes>): Channel
  {
    Channel(Open, ItemMessages(payloads), None, false, ItemMessages(payloads))
  }

  lemma {:induction false} SendsFill(payloads: seq<bytes>, n: nat)
    requires n <= |payloads| <= STREAM_CAPACITY
    ensures SenderRun(Filled(payloads[..n]), Sends(payloads)[n..] + [Drop]) == Dropped(Filled(payloads))
    decreases |payloads| - n
  {
    hide ItemMessage, Dropped;
    var events := Sends(payloads)[n..] + [Drop];
    if n == |payloads| {
      assert payloads[..n] == payloads && events == [Drop] && events[1..] == [];
    } else {
      assert events[1..] == Sends(payloads)[n + 1..] + [Drop];
      assert ItemMessages(payloads[..n + 1]) == ItemMessages(payloads[..n]) + [ItemMessage(payloads[n])];
      SendsFill(payloads, n + 1);
    }
  }

  /** A handler that sends up to 16 items nobody takes and is dropped: 16 items leave no room for the END. */
  lemma EndLost(payloads: seq<bytes>)
    requires |payloads| <= STREAM_CAPACITY
    ensures SenderRun(NEW_CHANNEL, Sends(payloads) + [Drop]).written ==
      ItemMessages(payloads) + if |payloads| < STREAM_CAPACITY then [EndMessage()] else []
  {
    hide ItemMessages, SenderRun;
    SendsFill(payloads, 0);
    assert Sends(payloads)[0..] == Sends(payloads);
    assert ItemMessages(payloads[..0]) == [] && |ItemMessages(payloads)| == |payloads| by { NoneAndAll(payloads); }
  }

  lemma NoneAndAll(payloads: seq<bytes>)
    ensures ItemMessages(payloads[..0]) == [] && |ItemMessages(payloads)| == |payloads|
  {
  }

  // ---------------------------------------------------------------- the server

  /** What a call context has come to: not used yet, used up, or turned into a stream. */
  datatype Context = Fresh | Consumed | Streaming(channel: Channel)

  /** One handler run. `said` records the messages it has put on the way to the client. */
  datatype Run = Run(id: nat, methodIndex: nat, payload: bytes, context: Context, cancelled: bool, said: seq<bytes>)

  /** A packet in the out channel, with the run it comes from; a refused request has none. */
  datatype Outbound = Outbound(run: Option<nat>, id: nat, message: bytes)

  /** `cancels` finds the latest run of a call id; an entry goes away by a CANCEL or a newer run with that id. */
  datatype Server = Server(runs: seq<Run>, cancels: map<nat, nat>, out: seq<Outbound>)

  const IDLE := Server([], map[], [])

  predicate CanSend(s: Server) { |s.out| < OUT_CAPACITY }

  const BAD_METHOD: bytes := [
    102, 97, 105, 108, 101, 100, 32, 116, 111, 32, 100, 101, 99, 111, 100, 101, 32,
    109, 101, 116, 104, 111, 100, 32, 105, 110, 100, 101, 120]

  /** The receive loop waits for room before it refuses a request, and takes no other packet meanwhile. */
  predicate Ready(s: Server, data: bytes)
  {
    ParseRequest(data).BadMethod? ==> CanSend(s)
  }

  /** One turn of the receive loop. A packet it is not ready for is still to be taken. */
  function Accept(s: Server, data: bytes): Server
  {
    match ParseRequest(data)
    case Ignored => s
    case BadMethod(id) =>
      if CanSend(s) then s.(out := s.out + [Outbound(None, id, ErrorMessage(ERR_CODE_DECODE_ERROR, BAD_METHOD))])
      else s
    case StartCall(id, m, payload) =>
      Signal(s, id).(runs := Signal(s, id).runs + [Run(id, m, payload, Fresh, false, [])],
                     cancels := Signal(s, id).cancels[id := |s.runs|])
    case CancelCall(id) => Signal(s, id)
  }

  /** The cancel channel of the latest run of `id` fires, by a message or because its sender is dropped. */
  function Signal(s: Server, id: nat): Server
  {
    if id in s.cancels && s.cancels[id] < |s.runs| then
      s.(cancels := s.cancels - {id}, runs := s.runs[s.cancels[id] := s.runs[s.cancels[id]].(cancelled := true)])
    else s
  }

  datatype HandlerEvent =
    | Respond(payload: bytes)
    | Fail(code: u32, text: Text)
    | Abandon
    | OpenStream
    | OnStream(e: SenderEvent)
    | Forward
    | Cut

  function Say(s: Server, r: nat, run: Run, message: bytes): Server
    requires r < |s.runs|
  {
    s.(runs := s.runs[r := run.(said := run.said + [message])], out := s.out + [Outbound(Some(r), run.id, message)])
  }

  /** A step of run `r`: its handler, its stream's sender, or the forwarder of the stream. */
  function HandlerStep(s: Server, r: nat, e: HandlerEvent): Server
    requires r < |s.runs|
  {
    var run := s.runs[r];
    match e
    case Respond(payload) =>
      if run.context.Fresh? && CanSend(s) then Say(s, r, run.(context := Consumed), ResponseMessage(payload)) else s
    case Fail(code, text) =>
      if run.context.Fresh? && CanSend(s) then Say(s, r, run.(context := Consumed), ErrorMessage(code, text)) else s
    case Abandon => if run.context.Fresh? then s.(runs := s.runs[r := run.(context := Consumed)]) else s
    case OpenStream =>
      if run.context.Fresh? then s.(runs := s.runs[r := run.(context := Streaming(NEW_CHANNEL))]) else s
    case OnStream(e) =>
      if run.context.Streaming? then
        s.(runs := s.runs[r := run.(context := Streaming(SenderStep(run.context.channel, e)))])
      else s
    case Forward =>
      if run.context.Streaming? && run.context.channel.held.Some? && CanSend(s) then
        Say(s, r, run.(context := Streaming(run.context.channel.(held := None))), run.context.channel.held.value)
      else s
    case Cut => if run.cancelled then s.(runs := s.runs[r := run.(context := CutOff(run.context))]) else s
  }

  /**
   * The cancel channel wins the race against the handler, whose future is dropped. Its stream sender
   * is dropped with it: that a handler may have moved the sender into another task is not modelled.
   */
  function CutOff(context: Context): Context
  {
    match context
    case Fresh => Consumed
    case Consumed => Consumed
    case Streaming(channel) => Streaming(Dropped(channel))
  }

  // ---------------------------------------------------------------- what every run of the server keeps

  function Held(ch: Channel): seq<bytes>
  {
    if ch.held.Some? then [ch.held.value] else []
  }

  /** What a run has said is one answer, or the beginning of what its stream's sender wrote. */
  ghost predicate RunOk(run: Run)
  {
    (forall m <- run.said :: Spoken(m)) &&
    match run.context
    case Fresh => run.said == []
    case Consumed => |run.said| <= 1 && forall m <- run.said :: m[0] in {RESPONSE, ERROR}
    case Streaming(ch) => ChannelOk(ch) && Ordered(run.said, ch)
  }

  /** Said, on hand and queued make up what was written, unless the receiver went away with the rest. */
  ghost predicate Ordered(said: seq<bytes>, ch: Channel)
  {
    if ch.closed then said <= ch.written && Held(ch) == [] && ch.queue == []
    else said + Held(ch) + ch.queue == ch.written
  }

  /** The runs that `cancels` finds are exactly those not cancelled yet, so at most one for an id. */
  ghost predicate CancelsOk(s: Server)
  {
    (forall id <- s.cancels :: s.cancels[id] < |s.runs| && s.runs[s.cancels[id]].id == id) &&
    (forall r: nat :: r < |s.runs| ==>
      (!s.runs[r].cancelled <==> s.runs[r].id in s.cancels && s.cancels[s.runs[r].id] == r))
  }

  ghost predicate ServerOk(s: Server)
  {
    (forall run <- s.runs :: RunOk(run)) && CancelsOk(s) && |s.out| <= OUT_CAPACITY
  }

  lemma SenderTurn(ch: Channel, said: seq<bytes>, e: SenderEvent)
    requires ChannelOk(ch) && Ordered(said, ch)
    ensures var next := SenderStep(ch, e); ChannelOk(next) && Ordered(said, next)
  {
    SenderStepKeeps(ch, e);
    hide ChannelOk;
    if e.Take? && ch.held.None? && ch.queue != [] {
      assert ch.queue == [ch.queue[0]] + ch.queue[1..];
    }
  }

  lemma HandlerKeeps(s: Server, r: nat, e: HandlerEvent)
    requires ServerOk(s) && r < |s.runs|
    ensures ServerOk(HandlerStep(s, r, e))
  {
    var next := HandlerStep(s, r, e);
    hide SenderStep, ChannelOk;
    assert RunOk(s.runs[r]);
    assert RunOk(next.runs[r]) by { HandlerRunOk(s, r, e); }
    forall run <- next.runs ensures RunOk(run) {
      if run != next.runs[r] {
        assert run in s.runs;
      }
    }
  }

  lemma HandlerRunOk(s: Server, r: nat, e: HandlerEvent)
    requires r < |s.runs| && RunOk(s.runs[r])
    ensures RunOk(HandlerStep(s, r, e).runs[r])
  {
    var run := s.runs[r];
    if run.context.Streaming? {
      hide SenderStep, ChannelOk, Ordered, Dropped;
      match e
      case OnStream(e) => SenderTurn(run.context.channel, run.said, e);
      case Forward => if run.context.channel.held.Some? { ForwardTurn(run); }
      case Cut => CutTurn(run);
      case _ =>
    } else if e.OpenStream? {
      assert [] + Held(NEW_CHANNEL) + NEW_CHANNEL.queue == NEW_CHANNEL.written;
    }
  }

  lemma CutTurn(run: Run)
    requires RunOk(run)
    ensures RunOk(run.(context := CutOff(run.context)))
  {
    if run.context.Streaming? {
      SenderTurn(run.context.channel, run.said, SenderEvent.Drop);
    }
  }

  lemma ForwardTurn(run: Run)
    requires RunOk(run) && run.context.Streaming? && run.context.channel.held.Some?
    ensures var ch := run.context.channel;
      RunOk(run.(context := Streaming(ch.(held := None)), said := run.said + [ch.held.value]))
  {
    var ch := run.context.channel;
    FromChannel(run);
    hide ChannelOk;
    assert run.said + [ch.held.value] + ch.queue == run.said + [ch.held.value] + [] + ch.queue;
    assert ChannelOk(ch.(held := None)) by { HeldIrrelevant(ch); }
  }

  lemma HeldIrrelevant(ch: Channel)
    requires ChannelOk(ch)
    ensures ChannelOk(ch.(held := None))
  {
  }

  /** The message on hand is one the sender wrote. */
  lemma FromChannel(run: Run)
    requires RunOk(run) && run.context.Streaming? && run.context.channel.held.Some?
    ensures run.context.channel.held.value in run.context.channel.written && run.context.channel.held.value != []
  {
    var ch := run.context.channel;
    assert (run.said + Held(ch) + ch.queue)[|run.said|] == ch.held.value;
  }

  lemma SignalKeeps(s: Server, id: nat)
    requires ServerOk(s)
    ensures ServerOk(Signal(s, id)) && id !in Signal(s, id).cancels && |Signal(s, id).runs| == |s.runs|
  {
    hide RunOk;
    var next := Signal(s, id);
    forall run <- next.runs ensures RunOk(run) {
      if run !in s.runs {
        assert s.runs[s.cancels[id]] in s.runs;
        assert RunOk(run) by { FlagIrrelevant(s.runs[s.cancels[id]]); }
      }
    }
  }

  lemma FlagIrrelevant(run: Run)
    requires RunOk(run)
    ensures RunOk(run.(cancelled := true))
  {
  }

  lemma FreshRunOk(id: nat, methodIndex: nat, payload: bytes)
    ensures RunOk(Run(id, methodIndex, payload, Fresh, false, []))
  {
  }

  lemma AcceptKeeps(s: Server, data: bytes)
    requires ServerOk(s)
    ensures ServerOk(Accept(s, data))
  {
    hide ParseRequest, RunOk, Signal;
    match ParseRequest(data)
    case StartCall(id, m, payload) =>
      SignalKeeps(s, id);
      FreshRunOk(id, m, payload);
    case CancelCall(id) => SignalKeeps(s, id);
    case _ =>
  }

  datatype ServerEvent = Incoming(data: bytes) | Handler(run: nat, e: HandlerEvent) | Transmit

  function Step(s: Server, e: ServerEvent): Server
  {
    match e
    case Incoming(data) => Accept(s, data)
    case Handler(r, e) => if r < |s.runs| then HandlerStep(s, r, e) else s
    case Transmit => if s.out != [] then s.(out := s.out[1..]) else s
  }

  function ServerRun(s: Server, events: seq<ServerEvent>): Server
    decreases |events|
  {
    if events == [] then s else ServerRun(Step(s, events[0]), events[1..])
  }

  lemma {:induction false} ServerRunKeeps(s: Server, events: seq<ServerEvent>)
    requires ServerOk(s)
    ensures ServerOk(ServerRun(s, events))
    decreases |events|
  {
    hide ServerOk, Accept, HandlerStep;
    if events != [] {
      match events[0] {
        case Incoming(data) => AcceptKeeps(s, data);
        case Handler(r, e) => if r < |s.runs| { HandlerKeeps(s, r, e); }
        case Transmit => OutIrrelevant(s, Step(s, events[0]));
      }
      ServerRunKeeps(Step(s, events[0]), events[1..]);
    }
  }

  lemma OutIrrelevant(s: Server, next: Server)
    requires ServerOk(s) && next.runs == s.runs && next.cancels == s.cancels && |next.out| <= |s.out|
    ensures ServerOk(next)
  {
  }

  /** No run of the server fills a channel beyond its capacity: a send waits for room. */
  lemma ChannelsBounded(events: seq<ServerEvent>)
    ensures var s := ServerRun(IDLE, events);
      |s.out| <= OUT_CAPACITY &&
      forall run <- s.runs :: run.context.Streaming? ==> |run.context.channel.queue| <= STREAM_CAPACITY
  {
    hide ServerRun, Grammar, Spoken, OnlyItems;
    ServerRunKeeps(IDLE, events);
    var s := ServerRun(IDLE, events);
    forall run <- s.runs | run.context.Streaming? ensures |run.context.channel.queue| <= STREAM_CAPACITY {
      assert RunOk(run);
    }
  }

  /** What the client can see of a call: one answer, or items followed by at most one END or ERROR. */
  ghost predicate Legal(said: seq<bytes>)
  {
    Grammar(said) || (|said| == 1 && said[0] != [] && said[0][0] in {RESPONSE, ERROR})
  }

  /** In every run of the server, with any interleaving and cancellation, each call's packets are legal. */
  lemma CallsAnswerLegally(events: seq<ServerEvent>, r: nat)
    requires r < |ServerRun(IDLE, events).runs|
    ensures Legal(ServerRun(IDLE, events).runs[r].said)
  {
    hide ServerRun;
    ServerRunKeeps(IDLE, events);
    LegalRun(ServerRun(IDLE, events).runs[r]);
  }

  lemma LegalRun(run: Run)
    requires RunOk(run)
    ensures Legal(run.said)
  {
    match run.context
    case Streaming(ch) =>
      assert run.said == ch.written[..|run.said|];
      GrammarPrefix(ch.written, |run.said|);
    case Consumed =>
      if run.said != [] {
        assert run.said[0] in run.said;
      }
    case Fresh =>
  }

  lemma GrammarPrefix(messages: seq<bytes>, n: nat)
    requires Grammar(messages) && n <= |messages|
    ensures Grammar(messages[..n])
  {
  }

  /**
   * In every run a CANCEL leaves no run of its id uncancelled, a request leaves only its own, and
   * neither touches the flag of another id.
   */
  lemma CancelReaches(events: seq<ServerEvent>, data: bytes, r: nat)
    requires r < |Accept(ServerRun(IDLE, events), data).runs|
    ensures var s := ServerRun(IDLE, events); var t := Accept(s, data);
      match ParseRequest(data)
      case CancelCall(id) => t.runs[r].cancelled == (t.runs[r].id == id || s.runs[r].cancelled)
      case StartCall(id, _, _) => t.runs[r].cancelled == (r < |s.runs| && (t.runs[r].id == id || s.runs[r].cancelled))
      case _ => r < |s.runs| && t.runs[r].cancelled == s.runs[r].cancelled
  {
    hide ServerRun, ParseRequest, RunOk;
    ServerRunKeeps(IDLE, events);
  }

  /** All a run has still to say without its handler. */
  function Due(run: Run): seq<bytes>
  {
    if run.context.Streaming? then run.said + Held(run.context.channel) + run.context.channel.queue else run.said
  }

  predicate HandlerGone(run: Run)
  {
    run.context.Consumed? || (run.context.Streaming? && run.context.channel.sender.Gone?)
  }

  lemma CutFinishes(s: Server, r: nat)
    requires r < |s.runs| && s.runs[r].cancelled
    ensures var run, next := s.runs[r], HandlerStep(s, r, Cut).runs[r];
      HandlerGone(next) && next.said == run.said &&
      (Due(next) == Due(run) || (run.context.Streaming? && Due(next) == Due(run) + [EndMessage()]))
  {
  }

  lemma GoneSender(ch: Channel, said: seq<bytes>, e: SenderEvent)
    requires ch.sender.Gone?
    ensures var next := SenderStep(ch, e);
      next.sender.Gone? && said + Held(next) + next.queue <= said + Held(ch) + ch.queue
  {
    if e.Take? && ch.held.None? && ch.queue != [] {
      assert ch.queue == [ch.queue[0]] + ch.queue[1..];
    }
  }

  lemma GoneHandler(s: Server, r: nat, e: HandlerEvent)
    requires r < |s.runs| && HandlerGone(s.runs[r])
    ensures var run, next := s.runs[r], HandlerStep(s, r, e).runs[r];
      HandlerGone(next) && Due(next) <= Due(run)
  {
    var run := s.runs[r];
    if run.context.Streaming? {
      var ch := run.context.channel;
      hide SenderStep;
      match e
      case OnStream(e) => GoneSender(ch, run.said, e);
      case Forward =>
        if ch.held.Some? {
          assert run.said + [ch.held.value] + Held(ch.(held := None)) + ch.queue == run.said + Held(ch) + ch.queue;
        }
      case _ =>
    }
  }

  lemma GoneStep(s: Server, e: ServerEvent, r: nat)
    requires r < |s.runs| && HandlerGone(s.runs[r])
    ensures r < |Step(s, e).runs| && HandlerGone(Step(s, e).runs[r]) && Due(Step(s, e).runs[r]) <= Due(s.runs[r])
  {
    hide ParseRequest, SenderStep, Dropped;
    match e
    case Handler(q, e) =>
      if q == r {
        GoneHandler(s, r, e);
      }
    case _ =>
  }

  lemma {:induction false} GoneForGood(s: Server, events: seq<ServerEvent>, r: nat)
    requires r < |s.runs| && HandlerGone(s.runs[r])
    ensures r < |ServerRun(s, events).runs| && ServerRun(s, events).runs[r].said <= Due(s.runs[r])
    decreases |events|
  {
    hide Step, HandlerGone;
    if events != [] {
      GoneStep(s, events[0], r);
      GoneForGood(Step(s, events[0]), events[1..], r);
    }
  }

  /** A cancelled call is cut off for good: it says no more than its stream had already written, and an END. */
  lemma CutForGood(s: Server, r: nat, events: seq<ServerEvent>)
    requires r < |s.runs| && s.runs[r].cancelled
    ensures var t := ServerRun(HandlerStep(s, r, Cut), events);
      r < |t.runs| && t.runs[r].said <= Due(s.runs[r]) + if s.runs[r].context.Streaming? then [EndMessage()] else []
  {
    hide HandlerStep, Due, HandlerGone;
    assert |HandlerStep(s, r, Cut).runs| == |s.runs| by { SameRuns(s, r, Cut); }
    CutFinishes(s, r);
    GoneForGood(HandlerStep(s, r, Cut), events, r);
  }

  lemma SameRuns(s: Server, r: nat, e: HandlerEvent)
    requires r < |s.runs|
    ensures |HandlerStep(s, r, e).runs| == |s.runs|
  {
    hide SenderStep, Dropped;
  }

  // ---------------------------------------------------------------- the classes

  /** How a send comes out; one that blocks is still waiting for room and is tried again. */
  datatype SendResult = Delivered | ChannelClosed | Blocked

  class StreamSenderBase {
    var finished: bool
    var sender: Sender
    var queue: seq<bytes>
    var held: Option<bytes>
    var closed: bool
    ghost var written: seq<bytes>

    ghost function State(): Channel
      reads this
    {
      Channel(sender, queue, held, closed, written)
    }

    /** `finished` is set from the moment `error` is called. */
    ghost predicate Valid()
      reads this
    {
      (sender.Open? ==> !finished) && (sender.Failing? ==> finished)
    }

    constructor ()
      ensures Valid() && State() == NEW_CHANNEL
    {
      finished, sender, queue, held, closed := false, Open, [], None, false;
      written := [];
    }

    /** One message towards the channel. */
    method Offer(message: bytes) returns (r: SendResult)
      modifies this`queue, this`written
      ensures r == if closed then ChannelClosed else if Room(old(State())) then Delivered else Blocked
      ensures State() == if r.Delivered? then Write(old(State()), message) else old(State())
    {
      if closed {
        return ChannelClosed;
      }
      if |queue| >= STREAM_CAPACITY {
        return Blocked;
      }
      queue := queue + [message];
      written := written + [message];
      return Delivered;
    }

    method Send(payload: bytes) returns (r: SendResult)
      requires Valid() && sender.Open?
      modifies this
      ensures Valid() && State() == SenderStep(old(State()), SenderEvent.Send(payload))
      ensures r.ChannelClosed? <==> old(closed)
      ensures r.Delivered? <==> written == old(written) + [ItemMessage(payload)]
    {
      var buf := new Buffer();
      buf.Push(STREAM_ITEM);
      buf.Extend(payload);
      assert buf.data == ItemMessage(payload);
      r := Offer(buf.data);
      assert written + [buf.data] != written;
    }

    /** `error` up to its await: the stream counts as finished from here on. */
    method BeginError(code: u32, text: Text)
      requires Valid() && sender.Open?
      modifies this
      ensures Valid() && State() == SenderStep(old(State()), StartError(code, text))
    {
      finished := true;
      var buf := new Buffer();
      buf.Push(ERROR);
      EncodeLeb128(code, buf);
      EncodeLeb128(|text|, buf);
      buf.Extend(text);
      assert buf.data == ErrorMessage(code, text);
      sender := Failing(buf.data);
    }

    /** The rest of `error`; whether the message got in is not looked at. */
    method EndError() returns (r: SendResult)
      requires Valid() && sender.Failing?
      modifies this
      ensures Valid() && State() == SenderStep(old(State()), PushError)
      ensures sender.Gone? <==> !r.Blocked?
    {
      r := Offer(sender.message);
      if !r.Blocked? {
        sender := Gone;
      }
    }

    /** The destructor, wherever the handler or the call is dropped. */
    method Drop()
      requires Valid() && !sender.Gone?
      modifies this
      ensures Valid() && State() == SenderStep(old(State()), SenderEvent.Drop)
    {
      if !finished {
        var _ := Offer([STREAM_END]);
      }
      sender := Gone;
    }
  }

  class PacketServer {
    var runs: seq<Run>
    var cancelTxs: map<nat, nat>
    var out: seq<Outbound>

    ghost function State(): Server
      reads this
    {
      Server(runs, cancelTxs, out)
    }

    constructor ()
      ensures State() == IDLE
    {
      runs, cancelTxs, out := [], map[], [];
    }

    /** One packet through the receive loop; not taken if the loop has to wait for room to refuse it. */
    method Receive(data: bytes) returns (taken: bool)
      modifies this
      ensures State() == Accept(old(State()), data) && taken == Ready(old(State()), data)
    {
      hide DecodeLeb;
      taken := true;
      if data == [] {
        return;
      }
      var buf := new Cursor(data[1..]);
      var callId := DecodeLeb128(buf);
      if callId.Err? {
        return;
      }
      if data[0] == REQUEST {
        var methodIndex := DecodeLeb128(buf);
        if methodIndex.Err? {
          if |out| >= OUT_CAPACITY {
            return false;
          }
          out := out + [Outbound(None, callId.value, ErrorMessage(ERR_CODE_DECODE_ERROR, BAD_METHOD))];
          return;
        }
        // inserting drops the sender that was there, which wakes its receiver
        RemoveCancel(callId.value);
        cancelTxs := cancelTxs[callId.value := |runs|];
        runs := runs + [Run(callId.value, methodIndex.value % TWO_32, buf.rest, Fresh, false, [])];
      } else if data[0] == CANCEL {
        RemoveCancel(callId.value);
      }
    }

    /** Takes the cancel sender of a call, if there is one, and wakes its receiver. */
    method RemoveCancel(id: nat)
      modifies this
      ensures State() == Signal(old(State()), id)
    {
      if id in cancelTxs && cancelTxs[id] < |runs| {
        var r := cancelTxs[id];
        cancelTxs := cancelTxs - {id};
        runs := runs[r := runs[r].(cancelled := true)];
      }
    }

    /** The send loop: the next packet for the transport. */
    method SendNext() returns (packet: bytes)
      requires out != [] && out[0].message != []
      modifies this`out
      ensures packet == Reply(old(out)[0].id, old(out)[0].message)
      ensures State() == Step(old(State()), Transmit)
    {
      packet := BuildReply(out[0].id, out[0].message);
      out := out[1..];
    }
  }
}
