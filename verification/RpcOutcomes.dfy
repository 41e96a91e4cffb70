/**
 * What each event does to each call, in every reachable state: the outcome of a unary call, what a
 * stream's receiver is told, and what goes out.
 */
module RpcOutcomes {
  import opened Wire
  import opened TsRuntime
  import opened RpcMessages
  import opened RpcClient

  /** The event is a packet that the client takes for call `id`. */
  predicate PacketFor(c: Client, e: Event, id: nat)
  {
    e.Arrives? && Listening(c) && e.data != [] && ReplyId(e.data).number == Exact(id)
  }

  /** How a call fails on its own side: code 0 and a text. */
  function Failure(text: string): RpcError { RpcError(Exact(0), Fixed(text)) }

  /**
   * What a client drops: packets of no known kind, for no pending call, with an id that is no exact
   * number, or of a kind that the call does not take.
   */
  lemma Dropped(c: Client, data: bytes)
    requires data == [] || data[0] !in {0x00, 0x01, 0x02, 0x03} || !ReplyId(data).number.Exact? ||
      ReplyId(data).number.n !in c.pending || ReplyId(data).number.n !in c.calls ||
      (c.calls[ReplyId(data).number.n].UnaryCall? && data[0] in {0x01, 0x02}) ||
      (c.calls[ReplyId(data).number.n].StreamCall? && data[0] == 0x00)
    ensures Handle(c, data) == c
  {
    hide ReadNumber, Slice, SliceFor, Deliver;
  }

  // ---------------------------------------------------------------- unary calls

  /** The event settles the pending unary call, and with what. */
  function Verdict(c: Client, e: Event, id: nat): Option<Outcome>
    requires id in c.calls
  {
    if PacketFor(c, e, id) then
      match ReplyBody(e.data)
      case Response(payload) => Some(Resolved(payload))
      case ErrorReply(error) => Some(Rejected(error))
      case _ => None
    else if e.RecvFails? && Listening(c) then Some(Rejected(Failure(e.message)))
    else if e == Aborts(id) && c.calls[id].phase.Sent? then Some(Rejected(Failure("aborted")))
    else None
  }

  /**
   * In every reachable state a pending unary call is settled by its response, its error, the end of
   * the connection or its abort, each with its own outcome; a failed send ends it with the send's
   * error; nothing else touches it.
   */
  lemma UnaryFate(events: seq<Event>, e: Event, id: nat)
    requires var c := Run(INIT, events); id in c.pending && id in c.calls && c.calls[id].UnaryCall?
    ensures var c, d := Run(INIT, events), Step(Run(INIT, events), e);
      id in d.calls &&
      if e.SendFails? && e.id == id && c.calls[id].phase.Sending? then
        id !in d.pending && d.calls[id] == UnaryCall(c.calls[id].ask, SendFailed(Failure(e.message)), None)
      else if Verdict(c, e, id).Some? then
        id !in d.pending && d.calls[id] == UnaryCall(c.calls[id].ask, c.calls[id].phase, Verdict(c, e, id))
      else if e == SendDone(id) && c.calls[id].phase.Sending? then
        id in d.pending && d.calls[id] == UnaryCall(c.calls[id].ask, Sent, None)
      else id in d.pending && d.calls[id] == c.calls[id]
  {
    hide Run, ReplyId, ReplyBody, Broadcast, Receive, Deliver, Recorded, Inv, Fifo;
    RunKeeps(INIT, events) by { InitInv(); }
    InvMeans(Run(INIT, events), id);
  }

  // ---------------------------------------------------------------- streams

  /** What the event tells the receiver of a pending stream. */
  function News(c: Client, e: Event, id: nat): seq<StreamEvent>
    requires id in c.calls && c.calls[id].StreamCall?
  {
    var all := |c.calls[id].stream.waiters| + 1;
    if PacketFor(c, e, id) then
      match ReplyBody(e.data)
      case ItemReply(data) => [Item(data)]
      case EndReply => [End]
      case ErrorReply(error) => [Error(error)]
      case _ => []
    else if e.RecvFails? && Listening(c) then RpcClient.Times(Error(Failure(e.message)), all)
    else AbortNews(c, e, id)
  }

  /** An abort tells it to everyone who waits and to the next one. */
  function AbortNews(c: Client, e: Event, id: nat): seq<StreamEvent>
    requires id in c.calls && c.calls[id].StreamCall?
  {
    if e == Aborts(id) && c.calls[id].phase.Sent? && !c.calls[id].aborted then
      RpcClient.Times(Error(Failure("aborted")), |c.calls[id].stream.waiters| + 1)
    else []
  }

  /**
   * In every reachable state the receiver of a pending stream is told exactly this, behind all it
   * has been told before; the stream stays pending just as long as that is nothing or an item and
   * its request has not failed.
   */
  lemma StreamFate(events: seq<Event>, e: Event, id: nat)
    requires var c := Run(INIT, events); id in c.pending && id in c.calls && c.calls[id].StreamCall?
    ensures var c, d := Run(INIT, events), Step(Run(INIT, events), e);
      var st, failed := c.calls[id].stream, e.SendFails? && e.id == id && c.calls[id].phase.Sending?;
      id in d.calls && d.calls[id].StreamCall? && InOrder(st) && InOrder(d.calls[id].stream) &&
      Told(d.calls[id].stream) == Told(st) + News(c, e, id) &&
      d.calls[id].stream.recvs == st.recvs + (if e == Recv(id) && c.calls[id].phase.Sent? then 1 else 0) &&
      (id in d.pending <==> !failed && (News(c, e, id) == [] || News(c, e, id)[0].Item?)) &&
      d.calls[id].phase ==
        if failed then SendFailed(Failure(e.message))
        else if e == SendDone(id) && c.calls[id].phase.Sending? then Sent
        else c.calls[id].phase
  {
    hide Run, ReplyId, ReplyBody, Told, InOrder, Fifo, Broadcast, Receive, Deliver, Recorded, RpcClient.Times;
    var c := Run(INIT, events);
    RunKeeps(INIT, events) by { InitInv(); }
    StreamOk(c, id);
    StreamStep(c, e, id);
    ToldMoved(c, e, id);
  }

  /** The receiver after the event. */
  function Moved(c: Client, e: Event, id: nat): Stream
    requires id in c.calls && c.calls[id].StreamCall?
  {
    var st := c.calls[id].stream;
    if PacketFor(c, e, id) then
      match ReplyBody(e.data)
      case ItemReply(data) => Deliver(Recorded(st, Item(data)), Item(data))
      case EndReply => Deliver(Recorded(st, End), End)
      case ErrorReply(error) => Deliver(Recorded(st, Error(error)), Error(error))
      case _ => st
    else if e.RecvFails? && Listening(c) then Broadcast(st, Error(Failure(e.message)))
    else if AbortNews(c, e, id) != [] then Broadcast(st, Error(Failure("aborted")))
    else if e == Recv(id) && c.calls[id].phase.Sent? then Receive(st)
    else st
  }

  lemma StreamStep(c: Client, e: Event, id: nat)
    requires Inv(c) && id in c.pending && id in c.calls && c.calls[id].StreamCall?
    ensures var d := Step(c, e);
      var failed := e.SendFails? && e.id == id && c.calls[id].phase.Sending?;
      id in d.calls && d.calls[id].StreamCall? && d.calls[id].stream == Moved(c, e, id) &&
      (id in d.pending <==> !failed && (News(c, e, id) == [] || News(c, e, id)[0].Item?)) &&
      d.calls[id].phase ==
        if failed then SendFailed(Failure(e.message))
        else if e == SendDone(id) && c.calls[id].phase.Sending? then Sent
        else c.calls[id].phase
  {
    hide Inv, ReplyId, ReplyBody, Broadcast, Receive, Deliver, Recorded, Fifo;
    InvMeans(c, id);
    if e.Arrives? {
      hide Abort, FailCalls;
    } else {
      hide Handle, Addresses;
    }
  }

  lemma InvMeans(c: Client, id: nat)
    requires Inv(c) && id in c.calls
    ensures CallOk(c, id) && c.nextId !in c.calls && c.nextId !in c.pending
  {
    CallsOk(c, id);
  }

  lemma ToldMoved(c: Client, e: Event, id: nat)
    requires id in c.calls && c.calls[id].StreamCall? && InOrder(c.calls[id].stream)
    ensures InOrder(Moved(c, e, id)) && Told(Moved(c, e, id)) == Told(c.calls[id].stream) + News(c, e, id)
    ensures Moved(c, e, id).recvs ==
      c.calls[id].stream.recvs + if e == Recv(id) && c.calls[id].phase.Sent? then 1 else 0
  {
    hide ReplyId, ReplyBody, Told, InOrder, Broadcast, Receive, Deliver, RpcClient.Times;
    var st := c.calls[id].stream;
    Counts(st);
    assert Told(st) + [] == Told(st);
    if PacketFor(c, e, id) {
      match ReplyBody(e.data)
      case ItemReply(data) => TakenIn(st, Item(data));
      case EndReply => TakenIn(st, End);
      case ErrorReply(error) => TakenIn(st, Error(error));
      case _ =>
    } else if e.RecvFails? && Listening(c) {
      BroadcastTold(st, Error(Failure(e.message)));
    } else {
      BroadcastTold(st, Error(Failure("aborted")));
      ReceiveTold(st);
    }
  }

  /** Only a recv counts as one. */
  lemma Counts(st: Stream)
    ensures forall e :: Deliver(Recorded(st, e), e).recvs == st.recvs && Broadcast(st, e).recvs == st.recvs
    ensures Receive(st).recvs == st.recvs + 1
  {
  }

  lemma TakenIn(st: Stream, e: StreamEvent)
    requires InOrder(st)
    ensures InOrder(Deliver(Recorded(st, e), e)) && Told(Deliver(Recorded(st, e), e)) == Told(st) + [e]
  {
    SameTold(st, Recorded(st, e));
    DeliverTold(Recorded(st, e), e);
  }

  /** Once it is no longer pending, only the caller's own first abort still tells a receiver anything. */
  lemma EndedStreamFate(events: seq<Event>, e: Event, id: nat)
    requires var c := Run(INIT, events); id !in c.pending && id in c.calls && c.calls[id].StreamCall?
    ensures var c, d := Run(INIT, events), Step(Run(INIT, events), e);
      id in d.calls && id !in d.pending && d.calls[id].StreamCall? &&
      InOrder(c.calls[id].stream) && InOrder(d.calls[id].stream) &&
      Told(d.calls[id].stream) == Told(c.calls[id].stream) + AbortNews(c, e, id)
  {
    hide Run, ReplyId, ReplyBody, Told, InOrder, Fifo, Broadcast, Receive, Deliver, Recorded, RpcClient.Times, Inv;
    var c := Run(INIT, events);
    RunKeeps(INIT, events) by { InitInv(); }
    InvMeans(c, id);
    var st := c.calls[id].stream;
    assert InOrder(st) by { StreamOk(c, id); }
    assert Told(st) + [] == Told(st);
    BroadcastTold(st, Error(Failure("aborted")));
    ReceiveTold(st);
  }

  /** All that a client sends: a request for each call it begins, and one CANCEL for each call it aborts in time. */
  lemma SentExactly(events: seq<Event>, e: Event)
    ensures var c, d := Run(INIT, events), Step(Run(INIT, events), e);
      d.sent == c.sent +
        if (e.CallUnary? || e.CallStream?) && c.recvError.None? && !e.aborted then [AsRequest(c.nextId, e.ask)]
        else if e.Aborts? && e.id in c.calls && c.calls[e.id].phase.Sent? &&
          (if c.calls[e.id].UnaryCall? then e.id in c.pending else !c.calls[e.id].aborted) then [AsCancel(e.id)]
        else []
  {
    hide Run, ReplyId, ReplyBody, Broadcast, Receive, Deliver, Recorded;
    var c := Run(INIT, events);
    assert c.sent + [] == c.sent;
  }

  lemma StreamOk(c: Client, id: nat)
    requires Inv(c) && id in c.calls && c.calls[id].StreamCall?
    ensures InOrder(c.calls[id].stream)
  {
    CallsOk(c, id);
  }
}
