/**
 * The TypeScript packet client: many calls over one connection, told apart by id. The client as a
 * step system, what every run of it keeps, and the class that implements the steps.
 */
module RpcClient {
  import opened Wire
  import opened Leb128
  import opened TsRuntime
  import opened RpcMessages

  // ---------------------------------------------------------------- state

  datatype Outcome = Resolved(payload: bytes) | Rejected(error: RpcError)

  /** How far the send of the request has come. */
  datatype Phase = Sending | Sent | SendFailed(error: RpcError)

  datatype Ask = Ask(methodIndex: nat, payload: bytes)

  /**
   * A pending stream and its receiver. `recv` calls are numbered; `given` says which event each
   * settled one got. `arrived` records the items that came in for this call while it was pending.
   */
  datatype Stream = Stream(
    queue: seq<StreamEvent>, waiters: seq<nat>, recvs: nat, given: map<nat, StreamEvent>, arrived: seq<bytes>)

  const NEW_STREAM := Stream([], [], 0, map[], [])

  datatype Call =
    | UnaryCall(ask: Ask, phase: Phase, promise: Option<Outcome>)
    | StreamCall(ask: Ask, phase: Phase, stream: Stream, aborted: bool)

  datatype Outgoing = AsRequest(id: nat, ask: Ask) | AsCancel(id: nat)

  function Packet(o: Outgoing): bytes
  {
    match o
    case AsRequest(id, ask) => Request(id, ask.methodIndex, ask.payload)
    case AsCancel(id) => Cancel(id)
  }

  /** `sent` records what was handed to the transport. */
  datatype Client = Client(
    nextId: nat, pending: set<nat>, running: bool, recvError: Option<string>,
    calls: map<nat, Call>, sent: seq<Outgoing>)

  const INIT := Client(1, {}, false, None, map[], [])

  datatype Event =
    | RunStarts
    | Arrives(data: bytes)
    | RecvFails(message: string)
    | CallUnary(ask: Ask, aborted: bool)
    | CallStream(ask: Ask, aborted: bool)
    | SendDone(id: nat)
    | SendFails(id: nat, message: string)
    | Aborts(id: nat)
    | Recv(id: nat)

  // ---------------------------------------------------------------- streams

  /** To the first waiter, or else to the queue. */
  function Deliver(st: Stream, e: StreamEvent): Stream
  {
    if st.waiters != [] then st.(given := st.given[st.waiters[0] := e], waiters := st.waiters[1..])
    else st.(queue := st.queue + [e])
  }

  function ToAll(given: map<nat, StreamEvent>, waiters: seq<nat>, e: StreamEvent): map<nat, StreamEvent>
  {
    given + map w | w in waiters :: e
  }

  /** To every waiter and to the queue for a later one. */
  function Broadcast(st: Stream, e: StreamEvent): Stream
  {
    st.(given := ToAll(st.given, st.waiters, e), waiters := [], queue := st.queue + [e])
  }

  function Receive(st: Stream): Stream
  {
    if st.queue != [] then
      st.(given := st.given[st.recvs := st.queue[0]], queue := st.queue[1..], recvs := st.recvs + 1)
    else st.(waiters := st.waiters + [st.recvs], recvs := st.recvs + 1)
  }

  // ---------------------------------------------------------------- steps

  function Settle(c: Client, id: nat, outcome: Outcome): Client
    requires id in c.calls && c.calls[id].UnaryCall?
  {
    c.(pending := c.pending - {id}, calls := c.calls[id := c.calls[id].(promise := Some(outcome))])
  }

  function Recorded(st: Stream, e: StreamEvent): Stream
  {
    if e.Item? then st.(arrived := st.arrived + [e.data]) else st
  }

  function Feed(c: Client, id: nat, e: StreamEvent): Client
    requires id in c.calls && c.calls[id].StreamCall?
  {
    c.(pending := if e.Item? then c.pending else c.pending - {id},
       calls := c.calls[id := c.calls[id].(stream := Deliver(Recorded(c.calls[id].stream, e), e))])
  }

  /** The id is one of the numbers in `pending`, all of which are exact. */
  predicate Addresses(c: Client, data: bytes)
    requires data != []
  {
    ReplyId(data).number.Exact? && ReplyId(data).number.n in c.pending
  }

  /** `handleMessage`. A packet for no pending call, or of the wrong kind for it, changes nothing. */
  function Handle(c: Client, data: bytes): Client
  {
    if data == [] || !Addresses(c, data) then c
    else
      var id := ReplyId(data).number.n;
      if id !in c.calls then c
      else
        match ReplyBody(data)
        case Response(payload) => if c.calls[id].UnaryCall? then Settle(c, id, Resolved(payload)) else c
        case ItemReply(item) => if c.calls[id].StreamCall? then Feed(c, id, Item(item)) else c
        case EndReply => if c.calls[id].StreamCall? then Feed(c, id, End) else c
        case ErrorReply(error) =>
          if c.calls[id].UnaryCall? then Settle(c, id, Rejected(error)) else Feed(c, id, Error(error))
        case UnknownReply => c
  }

  function FailCall(call: Call, error: RpcError): Call
  {
    match call
    case UnaryCall(_, _, _) => call.(promise := Some(Rejected(error)))
    case StreamCall(_, _, st, _) => call.(stream := Broadcast(st, Error(error)))
  }

  function FailCalls(calls: map<nat, Call>, ids: set<nat>, error: RpcError): map<nat, Call>
  {
    map id | id in calls :: if id in ids then FailCall(calls[id], error) else calls[id]
  }

  function Local(message: string): RpcError { RpcError(Exact(0), Fixed(message)) }

  const ABORTED := Local("aborted")

  function Open(c: Client, call: Call): Client
  {
    c.(nextId := c.nextId + 1, pending := c.pending + {c.nextId}, calls := c.calls[c.nextId := call],
       sent := c.sent + [AsRequest(c.nextId, call.ask)])
  }

  function Abort(c: Client, id: nat): Client
    requires id in c.calls
  {
    match c.calls[id]
    case UnaryCall(_, _, _) =>
      if id in c.pending then Settle(c, id, Rejected(ABORTED)).(sent := c.sent + [AsCancel(id)]) else c
    case StreamCall(_, _, st, aborted) =>
      if aborted then c
      else c.(pending := c.pending - {id}, sent := c.sent + [AsCancel(id)],
              calls := c.calls[id := c.calls[id].(stream := Broadcast(st, Error(ABORTED)), aborted := true)])
  }

  predicate Listening(c: Client) { c.running && c.recvError.None? }

  function Step(c: Client, e: Event): Client
  {
    match e
    case RunStarts => c.(running := true)
    case Arrives(data) => if Listening(c) then Handle(c, data) else c
    case RecvFails(message) =>
      if Listening(c) then
        c.(recvError := Some(message), calls := FailCalls(c.calls, c.pending, Local(message)), pending := {})
      else c
    case CallUnary(ask, aborted) =>
      if c.recvError.Some? || aborted then c else Open(c, UnaryCall(ask, Sending, None))
    case CallStream(ask, aborted) =>
      if c.recvError.Some? || aborted then c else Open(c, StreamCall(ask, Sending, NEW_STREAM, false))
    case SendDone(id) =>
      if id in c.calls && c.calls[id].phase.Sending? then c.(calls := c.calls[id := c.calls[id].(phase := Sent)]) else c
    case SendFails(id, message) =>
      if id in c.calls && c.calls[id].phase.Sending? then
        c.(pending := c.pending - {id}, calls := c.calls[id := c.calls[id].(phase := SendFailed(Local(message)))])
      else c
    case Aborts(id) => if id in c.calls && c.calls[id].phase.Sent? then Abort(c, id) else c
    case Recv(id) =>
      if id in c.calls && c.calls[id].phase.Sent? && c.calls[id].StreamCall? then
        c.(calls := c.calls[id := c.calls[id].(stream := Receive(c.calls[id].stream))])
      else c
  }

  function Run(c: Client, events: seq<Event>): Client
    decreases |events|
  {
    if events == [] then c else Run(Step(c, events[0]), events[1..])
  }

  // ---------------------------------------------------------------- invariants

  function Items(events: seq<StreamEvent>): seq<bytes>
  {
    if events == [] then [] else (if events[0].Item? then [events[0].data] else []) + Items(events[1..])
  }

  lemma {:induction false} ItemsAppend(a: seq<StreamEvent>, b: seq<StreamEvent>)
    ensures Items(a + b) == Items(a) + Items(b)
  {
    if a == [] {
      assert a + b == b;
    } else {
      assert (a + b)[1..] == a[1..] + b;
      ItemsAppend(a[1..], b);
    }
  }

  ghost predicate InOrder(st: Stream)
  {
    |st.waiters| <= st.recvs && Consecutive(st.waiters, st.recvs - |st.waiters|) &&
    (forall k: nat :: k in st.given <==> k < st.recvs - |st.waiters|) &&
    (st.queue == [] || st.waiters == [])
  }

  /** The events given to the recv calls, in the order of the calls. */
  function GivenInOrder(st: Stream): seq<StreamEvent>
    requires InOrder(st)
  {
    seq(st.recvs - |st.waiters|, k requires 0 <= k < st.recvs - |st.waiters| => st.given[k])
  }

  /** All a stream's recv calls have been told or will be, in that order. */
  function Told(st: Stream): seq<StreamEvent>
    requires InOrder(st)
  {
    GivenInOrder(st) + st.queue
  }

  /** No item comes after an end or an error. */
  predicate ItemsFirst(events: seq<StreamEvent>)
  {
    forall i, j :: 0 <= i < j < |events| && events[j].Item? ==> events[i].Item?
  }

  predicate AllItems(events: seq<StreamEvent>)
  {
    forall e <- events :: e.Item?
  }

  /**
   * The items returned by recv, in call order, and those still queued are exactly the items that
   * arrived; an end or an error comes after them, and only to a stream that is no longer pending.
   */
  ghost predicate Fifo(st: Stream, pending: bool)
  {
    InOrder(st) && Items(Told(st)) == st.arrived && ItemsFirst(Told(st)) && (pending ==> AllItems(Told(st)))
  }

  /** A unary call is pending until something settles it. */
  ghost predicate CallOk(c: Client, id: nat)
    requires id in c.calls
  {
    match c.calls[id]
    case UnaryCall(_, phase, promise) => id in c.pending <==> promise.None? && !phase.SendFailed?
    case StreamCall(_, phase, st, _) => Fifo(st, id in c.pending) && (id in c.pending ==> !phase.SendFailed?)
  }

  ghost predicate SentOk(c: Client, o: Outgoing)
  {
    o.id in c.calls && (o.AsRequest? ==> o.ask == c.calls[o.id].ask)
  }

  /** The ids on the wire are distinct past values of the counter. */
  ghost predicate IdsDistinct(sent: seq<Outgoing>)
  {
    forall i, j :: 0 <= i < j < |sent| && sent[i].AsRequest? && sent[j].AsRequest? ==> sent[i].id != sent[j].id
  }

  ghost predicate Inv(c: Client)
  {
    c.nextId >= 1 && (forall id: nat :: id in c.calls <==> 1 <= id < c.nextId) &&
    c.pending <= c.calls.Keys && (c.recvError.Some? ==> c.pending == {}) &&
    (forall id <- c.calls :: CallOk(c, id)) &&
    (forall o <- c.sent :: SentOk(c, o)) && IdsDistinct(c.sent)
  }

  // ---------------------------------------------------------------- streams keep their order

  lemma DeliverTold(st: Stream, e: StreamEvent)
    requires InOrder(st)
    ensures InOrder(Deliver(st, e)) && Told(Deliver(st, e)) == Told(st) + [e] && Deliver(st, e).arrived == st.arrived
  {
    var next := Deliver(st, e);
    assert InOrder(next);
    if st.waiters != [] {
      assert GivenInOrder(next) == GivenInOrder(st) + [e];
    } else {
      assert GivenInOrder(next) == GivenInOrder(st);
    }
  }

  /** `count` times the same event. */
  function Times(e: StreamEvent, count: nat): seq<StreamEvent> { seq(count, _ => e) }

  lemma BroadcastTold(st: Stream, e: StreamEvent)
    requires InOrder(st)
    ensures InOrder(Broadcast(st, e)) && Told(Broadcast(st, e)) == Told(st) + Times(e, |st.waiters| + 1)
    ensures Broadcast(st, e).arrived == st.arrived
  {
    var next := Broadcast(st, e);
    BroadcastInOrder(st, e);
    assert GivenInOrder(next) == GivenInOrder(st) + Times(e, |st.waiters|);
    assert Times(e, |st.waiters|) + [e] == Times(e, |st.waiters| + 1);
  }

  lemma BroadcastInOrder(st: Stream, e: StreamEvent)
    requires InOrder(st)
    ensures InOrder(Broadcast(st, e))
  {
    var next := Broadcast(st, e);
    forall k: nat ensures k in next.given <==> k < st.recvs {
      if st.recvs - |st.waiters| <= k < st.recvs {
        assert st.waiters[k - (st.recvs - |st.waiters|)] == k;
      }
    }
  }

  lemma ReceiveTold(st: Stream)
    requires InOrder(st)
    ensures InOrder(Receive(st)) && Told(Receive(st)) == Told(st) && Receive(st).arrived == st.arrived
  {
    var next := Receive(st);
    assert InOrder(next);
    if st.queue != [] {
      assert GivenInOrder(next) == GivenInOrder(st) + [st.queue[0]];
    } else {
      assert GivenInOrder(next) == GivenInOrder(st);
    }
  }

  lemma OneItem(e: StreamEvent)
    ensures Items([e]) == if e.Item? then [e.data] else []
  {
    assert [e][1..] == [];
  }

  lemma {:induction false} NotAnItem(e: StreamEvent, count: nat)
    requires !e.Item?
    ensures Items(Times(e, count)) == []
  {
    if count > 0 {
      assert Times(e, count)[1..] == Times(e, count - 1);
      NotAnItem(e, count - 1);
    }
  }

  /** A packet's event goes behind what a pending stream has been told. */
  lemma ArriveKeeps(st: Stream, e: StreamEvent)
    requires Fifo(st, true)
    ensures Fifo(Deliver(Recorded(st, e), e), e.Item?)
  {
    hide Items, Deliver, InOrder, GivenInOrder;
    assert InOrder(Recorded(st, e)) && Told(Recorded(st, e)) == Told(st) by { SameTold(st, Recorded(st, e)); }
    DeliverTold(Recorded(st, e), e);
    ItemsAppend(Told(st), [e]);
    OneItem(e);
  }

  lemma SameTold(a: Stream, b: Stream)
    requires InOrder(a) && b.(arrived := a.arrived) == a
    ensures InOrder(b) && Told(b) == Told(a)
  {
    assert GivenInOrder(b) == GivenInOrder(a);
  }

  /** What the client makes up itself ends the stream. */
  lemma BroadcastKeeps(st: Stream, e: StreamEvent, pending: bool)
    requires Fifo(st, pending) && !e.Item?
    ensures Fifo(Broadcast(st, e), false)
  {
    hide Items, Broadcast, InOrder, GivenInOrder;
    var more := Times(e, |st.waiters| + 1);
    BroadcastTold(st, e);
    ItemsAppend(Told(st), more);
    NotAnItem(e, |st.waiters| + 1);
  }

  lemma ReceiveKeeps(st: Stream, pending: bool)
    requires Fifo(st, pending)
    ensures Fifo(Receive(st), pending)
  {
    hide Items, Receive, InOrder, GivenInOrder;
    ReceiveTold(st);
  }

  // ---------------------------------------------------------------- every step keeps the invariant

  /** A step that rewrites one call and takes at most that call out of the pending set. */
  lemma OneCall(c: Client, next: Client, id: nat)
    requires Inv(c) && id in c.calls && id in next.calls
    requires next.calls == c.calls[id := next.calls[id]] && next.calls[id].ask == c.calls[id].ask
    requires next.nextId == c.nextId && next.recvError == c.recvError
    requires next.pending == c.pending || next.pending == c.pending - {id}
    requires next.sent == c.sent || next.sent == c.sent + [AsCancel(id)]
    requires CallOk(next, id)
    ensures Inv(next)
  {
    hide Fifo;
    forall k <- next.calls ensures CallOk(next, k) {
      assert CallOk(c, k);
    }
    forall o <- next.sent ensures SentOk(next, o) {
      if o != AsCancel(id) {
        assert SentOk(c, o);
      }
    }
  }

  lemma HandleKeeps(c: Client, data: bytes)
    requires Inv(c)
    ensures Inv(Handle(c, data))
  {
    hide Inv, ReplyId, ReplyBody, Fifo, Deliver, Recorded;
    var next := Handle(c, data);
    if data != [] && Addresses(c, data) && next != c {
      var id := ReplyId(data).number.n;
      assert CallOk(c, id) by { CallsOk(c, id); }
      match c.calls[id]
      case UnaryCall(_, _, _) => OneCall(c, next, id);
      case StreamCall(_, _, st, _) =>
        match ReplyBody(data)
        case ItemReply(item) =>
          ArriveKeeps(st, Item(item));
          OneCall(c, next, id);
        case EndReply =>
          ArriveKeeps(st, End);
          OneCall(c, next, id);
        case ErrorReply(error) =>
          ArriveKeeps(st, Error(error));
          OneCall(c, next, id);
        case _ =>
    }
  }

  lemma CallsOk(c: Client, id: nat)
    requires Inv(c) && id in c.calls
    ensures CallOk(c, id)
  {
  }

  lemma FailKeeps(c: Client, message: string)
    requires Inv(c) && Listening(c)
    ensures Inv(Step(c, RecvFails(message)))
  {
    hide Fifo, Broadcast;
    var next := Step(c, RecvFails(message));
    forall id <- next.calls ensures CallOk(next, id) {
      assert CallOk(c, id);
      if c.calls[id].StreamCall? {
        BroadcastKeeps(c.calls[id].stream, Error(Local(message)), id in c.pending);
      }
    }
    forall o <- next.sent ensures SentOk(next, o) {
      assert SentOk(c, o);
    }
  }

  lemma OpenKeeps(c: Client, call: Call)
    requires Inv(c) && c.recvError.None? && call.phase.Sending?
    requires call.UnaryCall? ==> call.promise.None?
    requires call.StreamCall? ==> call.stream == NEW_STREAM
    ensures Inv(Open(c, call))
  {
    hide Fifo;
    var next := Open(c, call);
    if call.StreamCall? {
      NewStreamFifo();
    }
    forall id <- next.calls ensures CallOk(next, id) {
      if id != c.nextId {
        assert CallOk(c, id);
      }
    }
    forall o <- next.sent ensures SentOk(next, o) {
      if o != AsRequest(c.nextId, call.ask) {
        assert SentOk(c, o);
      }
    }
    forall o <- c.sent ensures o.id != c.nextId {
      assert SentOk(c, o);
    }
  }

  lemma NewStreamFifo()
    ensures Fifo(NEW_STREAM, true)
  {
    assert GivenInOrder(NEW_STREAM) == [];
  }

  lemma AbortKeeps(c: Client, id: nat)
    requires Inv(c) && id in c.calls && c.calls[id].phase.Sent?
    ensures Inv(Abort(c, id))
  {
    hide Inv, Fifo, Broadcast;
    CallsOk(c, id);
    if Abort(c, id) != c {
      if c.calls[id].StreamCall? {
        BroadcastKeeps(c.calls[id].stream, Error(ABORTED), id in c.pending);
      }
      OneCall(c, Abort(c, id), id);
    }
  }

  lemma StepKeeps(c: Client, e: Event)
    requires Inv(c)
    ensures Inv(Step(c, e))
  {
    match e
    case RunStarts =>
      hide Fifo;
      assert forall id <- c.calls :: CallOk(c, id) ==> CallOk(Step(c, e), id);
    case Arrives(data) =>
      hide Inv;
      HandleKeeps(c, data);
    case RecvFails(message) =>
      if Listening(c) {
        FailKeeps(c, message);
      }
    case CallUnary(ask, _) =>
      if c.recvError.None? {
        OpenKeeps(c, UnaryCall(ask, Sending, None));
      }
    case CallStream(ask, _) =>
      if c.recvError.None? {
        OpenKeeps(c, StreamCall(ask, Sending, NEW_STREAM, false));
      }
    case SendDone(id) =>
      hide Inv, Fifo;
      if Step(c, e) != c {
        CallsOk(c, id);
        OneCall(c, Step(c, e), id);
      }
    case SendFails(id, _) =>
      hide Inv, Fifo;
      if Step(c, e) != c {
        CallsOk(c, id);
        OneCall(c, Step(c, e), id);
      }
    case Aborts(id) =>
      hide Inv;
      if id in c.calls && c.calls[id].phase.Sent? {
        AbortKeeps(c, id);
      }
    case Recv(id) =>
      hide Inv, Fifo, Receive;
      if id in c.calls && c.calls[id].phase.Sent? && c.calls[id].StreamCall? {
        CallsOk(c, id);
        ReceiveKeeps(c.calls[id].stream, id in c.pending);
        OneCall(c, Step(c, e), id);
      }
  }

  lemma {:induction false} RunKeeps(c: Client, events: seq<Event>)
    requires Inv(c)
    ensures Inv(Run(c, events))
    decreases |events|
  {
    hide Inv, Step;
    if events != [] {
      StepKeeps(c, events[0]);
      RunKeeps(Step(c, events[0]), events[1..]);
    }
  }

  lemma InitInv()
    ensures Inv(INIT)
  {
  }

  // ---------------------------------------------------------------- what runs promise

  /**
   * Per-stream FIFO, over every run: what recv returned, in call order, is a prefix of the items
   * that arrived for that stream while it was pending; after an end or an error no recv gets an
   * item; nobody waits while events are queued.
   */
  lemma StreamsInOrder(events: seq<Event>, id: nat)
    requires var c := Run(INIT, events); id in c.calls && c.calls[id].StreamCall?
    ensures var st := Run(INIT, events).calls[id].stream;
      InOrder(st) && Items(GivenInOrder(st)) <= st.arrived && (st.queue == [] || st.waiters == []) &&
      ItemsFirst(GivenInOrder(st))
  {
    hide Inv, Run;
    RunKeeps(INIT, events) by { InitInv(); }
    CallsOk(Run(INIT, events), id);
    GivenIsTold(Run(INIT, events).calls[id].stream);
  }

  lemma GivenIsTold(st: Stream)
    requires InOrder(st)
    ensures Items(GivenInOrder(st)) <= Items(Told(st)) && GivenInOrder(st) <= Told(st)
    ensures forall k <- st.given :: st.given[k] in GivenInOrder(st) && st.given[k] in Told(st)
    ensures forall e <- st.queue :: e in Told(st)
  {
    ItemsAppend(GivenInOrder(st), st.queue);
    forall k <- st.given ensures st.given[k] in GivenInOrder(st) && st.given[k] in Told(st) {
      assert GivenInOrder(st)[k] == st.given[k] && Told(st)[k] == st.given[k];
    }
  }

  /** The item a packet brings to call `id`, if it brings one. */
  function ItemFor(data: bytes, id: nat): seq<bytes>
  {
    if data != [] && ReplyId(data).number == Exact(id) && ReplyBody(data).ItemReply? then [ReplyBody(data).data] else []
  }

  /** The items in the packets of a run that carry the id of a call, in order. */
  function ItemsFor(events: seq<Event>, id: nat): seq<bytes>
  {
    if events == [] then []
    else (if events[0].Arrives? then ItemFor(events[0].data, id) else []) + ItemsFor(events[1..], id)
  }

  ghost predicate SameArrived(c: Client, next: Client, id: nat, more: seq<bytes>)
  {
    id in c.calls && id in next.calls && c.calls[id].StreamCall? && next.calls[id].StreamCall? &&
    next.calls[id].stream.arrived == c.calls[id].stream.arrived + more
  }

  lemma DeliverArrived(st: Stream, e: StreamEvent)
    ensures Deliver(st, e).arrived == st.arrived
  {
  }

  lemma HandleRecords(c: Client, data: bytes, id: nat)
    requires id in c.calls && c.calls[id].StreamCall?
    ensures SameArrived(c, Handle(c, data), id, if id in c.pending then ItemFor(data, id) else [])
    ensures Handle(c, data).running == c.running && (id in Handle(c, data).pending ==> id in c.pending)
  {
    hide ReplyId, ReplyBody, Deliver;
    var st := c.calls[id].stream;
    if data != [] {
      match ReplyBody(data)
      case ItemReply(item) => DeliverArrived(Recorded(st, Item(item)), Item(item));
      case EndReply => DeliverArrived(st, End);
      case ErrorReply(error) => DeliverArrived(st, Error(error));
      case _ =>
    }
  }

  /** Only packets add to the record. */
  lemma LocalRecords(c: Client, e: Event, id: nat)
    requires !e.Arrives? && id in c.calls && id < c.nextId && c.calls[id].StreamCall?
    ensures SameArrived(c, Step(c, e), id, [])
    ensures id in Step(c, e).pending ==> id in c.pending
    ensures c.running ==> Step(c, e).running
  {
    hide Abort, FailCalls, Receive;
    match e
    case RecvFails(message) => FailRecords(c, Local(message), id);
    case Aborts(other) =>
      if other in c.calls {
        AbortRecords(c, other, id);
      }
    case Recv(other) => ReceiveRecords(c.calls[id].stream);
    case _ =>
  }

  /** While a stream is pending its record grows by the items of its packets, and afterwards not at all. */
  lemma StepRecords(c: Client, e: Event, id: nat)
    requires Inv(c) && c.running && id in c.calls && c.calls[id].StreamCall?
    ensures SameArrived(c, Step(c, e), id, if e.Arrives? && id in c.pending then ItemFor(e.data, id) else [])
    ensures Step(c, e).running && (id in Step(c, e).pending ==> id in c.pending)
  {
    Counted(c, id);
    if e.Arrives? {
      hide Handle, ItemFor, CallOk, SentOk, IdsDistinct;
      HandleRecords(c, e.data, id);
    } else {
      hide Step, Inv, ItemFor;
      LocalRecords(c, e, id);
    }
  }

  lemma FailRecords(c: Client, error: RpcError, id: nat)
    requires id in c.calls && c.calls[id].StreamCall?
    ensures SameArrived(c, c.(calls := FailCalls(c.calls, c.pending, error)), id, [])
  {
  }

  lemma AbortRecords(c: Client, other: nat, id: nat)
    requires other in c.calls && id in c.calls && c.calls[id].StreamCall?
    ensures SameArrived(c, Abort(c, other), id, []) && Abort(c, other).pending <= c.pending &&
      Abort(c, other).running == c.running
  {
    hide ToAll;
  }

  lemma ReceiveRecords(st: Stream)
    ensures Receive(st).arrived == st.arrived
  {
  }

  /** Of the items of a stream's packets the first `n` were recorded: all of them, while it is pending. */
  ghost predicate RecordedFirst(c: Client, t: Client, id: nat, items: seq<bytes>, n: nat)
  {
    n <= |items| && SameArrived(c, t, id, items[..n]) && (id in t.pending ==> n == |items|) &&
    (id !in c.pending ==> id !in t.pending && n == 0)
  }

  /** What arrives for a stream is a prefix of the items of its packets, and all of them while it is pending. */
  lemma {:induction false} PacketsArrive(c: Client, events: seq<Event>, id: nat) returns (n: nat)
    requires Inv(c) && c.running && id in c.calls && c.calls[id].StreamCall?
    ensures RecordedFirst(c, Run(c, events), id, ItemsFor(events, id), n)
    decreases |events|
  {
    hide Inv, Step, ItemFor;
    if events == [] {
      n := 0;
      assert c.calls[id].stream.arrived + [] == c.calls[id].stream.arrived;
    } else {
      var e, next := events[0], Step(c, events[0]);
      StepKeeps(c, e);
      StepRecords(c, e, id);
      var later := PacketsArrive(next, events[1..], id);
      var first, rest := if e.Arrives? then ItemFor(e.data, id) else [], ItemsFor(events[1..], id);
      n := if id in c.pending then |first| + later else 0;
      if id in c.pending {
        assert (first + rest)[..n] == first + rest[..later];
      }
    }
  }

  /**
   * From call to caller: while the client receives, what recv has returned for a stream, in call
   * order, is a prefix of the items of the packets that came in for its id since it was begun.
   */
  lemma PacketsInOrder(before: seq<Event>, ask: Ask, after: seq<Event>)
    requires var c := Run(INIT, before); c.running && c.recvError.None?
    ensures var c := Run(INIT, before);
      var t := Run(Step(c, CallStream(ask, false)), after);
      c.nextId in t.calls && t.calls[c.nextId].StreamCall? &&
      var st := t.calls[c.nextId].stream;
      InOrder(st) && Items(GivenInOrder(st)) <= ItemsFor(after, c.nextId) &&
      (c.nextId in t.pending ==> Items(Told(st)) == ItemsFor(after, c.nextId))
  {
    var c := Run(INIT, before);
    var begun := Step(c, CallStream(ask, false));
    hide Run, Inv;
    RunKeeps(INIT, before) by { InitInv(); }
    StepKeeps(c, CallStream(ask, false));
    var n := PacketsArrive(begun, after, c.nextId);
    var t := Run(begun, after);
    RunKeeps(begun, after);
    CallsOk(t, c.nextId);
    GivenIsTold(t.calls[c.nextId].stream);
  }

  /** The outcome of the call as its caller sees it: a failed send, or else what the response promise says. */
  function Result(call: Call): Option<Outcome>
    requires call.UnaryCall?
  {
    match call.phase
    case Sending => None
    case Sent => call.promise
    case SendFailed(error) => Some(Rejected(error))
  }

  ghost predicate SameSettled(c: Client, next: Client, id: nat)
    requires id in c.calls && id in next.calls
  {
    next.calls[id].ask == c.calls[id].ask && next.calls[id].UnaryCall? == c.calls[id].UnaryCall? &&
    (c.calls[id].UnaryCall? ==>
      (c.calls[id].promise.Some? ==> next.calls[id].promise == c.calls[id].promise) &&
      (Result(c.calls[id]).Some? ==> Result(next.calls[id]) == Result(c.calls[id])))
  }

  /** A unary promise settles at most once: a step only ever settles one that is pending, and so unsettled. */
  lemma SettlesOnce(c: Client, e: Event, id: nat)
    requires Inv(c) && id in c.calls
    ensures id in Step(c, e).calls && SameSettled(c, Step(c, e), id)
  {
    CallsOk(c, id);
    Counted(c, id);
    hide Inv, Fifo, Deliver, Broadcast, Receive, Handle, Abort, FailCalls, CallOk;
    if e.Arrives? {
      HandleSettles(c, e.data, id);
    } else {
      hide Step;
      LocalSettles(c, e, id);
    }
  }

  lemma LocalSettles(c: Client, e: Event, id: nat)
    requires !e.Arrives? && id in c.calls && id < c.nextId && CallOk(c, id)
    ensures id in Step(c, e).calls && SameSettled(c, Step(c, e), id)
  {
    hide Fifo, Receive, Abort, FailCalls;
    match e
    case RecvFails(message) => FailSettles(c, Local(message), id);
    case Aborts(other) =>
      if other in c.calls {
        AbortSettles(c, other, id);
      }
    case _ =>
  }

  lemma HandleSettles(c: Client, data: bytes, id: nat)
    requires id in c.calls && CallOk(c, id)
    ensures id in Handle(c, data).calls && SameSettled(c, Handle(c, data), id)
  {
    hide Fifo, Deliver, ReplyId, ReplyBody;
  }

  lemma FailSettles(c: Client, error: RpcError, id: nat)
    requires id in c.calls && CallOk(c, id)
    ensures id in FailCalls(c.calls, c.pending, error)
    ensures SameSettled(c, c.(calls := FailCalls(c.calls, c.pending, error)), id)
  {
    hide Fifo, Broadcast;
  }

  lemma AbortSettles(c: Client, other: nat, id: nat)
    requires other in c.calls && id in c.calls && CallOk(c, id)
    ensures id in Abort(c, other).calls && SameSettled(c, Abort(c, other), id)
  {
    hide Fifo, Broadcast;
  }

  lemma Counted(c: Client, id: nat)
    requires Inv(c) && id in c.calls
    ensures 1 <= id < c.nextId
  {
  }

  lemma {:induction false} SettledForGood(c: Client, events: seq<Event>, id: nat)
    requires Inv(c) && id in c.calls
    ensures id in Run(c, events).calls && SameSettled(c, Run(c, events), id)
    decreases |events|
  {
    hide Inv, Step;
    if events != [] {
      StepKeeps(c, events[0]);
      SettlesOnce(c, events[0], id);
      SettledForGood(Step(c, events[0]), events[1..], id);
    }
  }

  /** In every run a pending unary call is unsettled, and once receiving has failed nothing is pending again. */
  lemma PendingUnsettled(events: seq<Event>, later: seq<Event>)
    ensures var c := Run(INIT, events);
      forall id <- c.pending ::
        id in c.calls && (c.calls[id].UnaryCall? ==> c.calls[id].promise.None? && Result(c.calls[id]).None?)
    ensures var c := Run(INIT, events);
      c.recvError.Some? ==> Run(c, later).recvError == c.recvError && Run(c, later).pending == {}
  {
    hide Run;
    var c := Run(INIT, events);
    RunKeeps(INIT, events) by { InitInv(); }
    forall id <- c.pending ensures id in c.calls && CallOk(c, id) {
      CallsOk(c, id);
    }
    RunKeeps(c, later);
    if c.recvError.Some? {
      ErrorStays(c, later);
    }
  }

  lemma {:induction false} ErrorStays(c: Client, events: seq<Event>)
    requires c.recvError.Some?
    ensures Run(c, events).recvError == c.recvError
    decreases |events|
  {
    hide Deliver, Broadcast, Receive, Handle;
    if events != [] {
      ErrorStays(Step(c, events[0]), events[1..]);
    }
  }

  /** A CANCEL for a unary call goes out only in the step that removes and rejects it. */
  lemma CancelRemoves(c: Client, e: Event, id: nat)
    requires Inv(c) && id in c.calls && c.calls[id].UnaryCall?
    requires |Step(c, e).sent| > |c.sent| && Step(c, e).sent[|c.sent|] == AsCancel(id)
    ensures id in c.pending && c.calls[id].promise.None?
    ensures id !in Step(c, e).pending && Step(c, e).calls[id].promise == Some(Rejected(ABORTED))
  {
    CallsOk(c, id);
    hide Inv, Fifo, Deliver, Broadcast, Receive, ReplyId, ReplyBody;
  }

  /** Every CANCEL sent for a unary call stands for one abort, which is how that call was settled. */
  ghost predicate CancelsOk(c: Client)
  {
    forall i ::
      0 <= i < |c.sent| && c.sent[i].AsCancel? && c.sent[i].id in c.calls && c.calls[c.sent[i].id].UnaryCall? ==>
      c.calls[c.sent[i].id].promise == Some(Rejected(ABORTED)) && c.sent[i] !in c.sent[..i]
  }

  lemma SentGrows(c: Client, e: Event)
    ensures c.sent <= Step(c, e).sent && |Step(c, e).sent| <= |c.sent| + 1
  {
    hide Deliver, Broadcast, Receive, ReplyId, ReplyBody, FailCalls;
  }

  lemma CancelsKeep(c: Client, e: Event)
    requires Inv(c) && CancelsOk(c)
    ensures CancelsOk(Step(c, e))
  {
    hide Inv, Step;
    var next := Step(c, e);
    SentGrows(c, e);
    forall i | 0 <= i < |next.sent| && next.sent[i].AsCancel? && next.sent[i].id in next.calls &&
      next.calls[next.sent[i].id].UnaryCall?
      ensures next.calls[next.sent[i].id].promise == Some(Rejected(ABORTED)) && next.sent[i] !in next.sent[..i]
    {
      var o := next.sent[i];
      assert next.sent[..i] == c.sent[..i];
      CancelKnown(c, e, i);
      SettlesOnce(c, e, o.id);
      if i < |c.sent| {
        assert c.sent[i] == o;
      } else {
        CancelRemoves(c, e, o.id);
        if o in c.sent {
          CancelledSettled(c, o);
        }
      }
    }
  }

  lemma CancelledSettled(c: Client, o: Outgoing)
    requires CancelsOk(c) && o.AsCancel? && o in c.sent && o.id in c.calls && c.calls[o.id].UnaryCall?
    ensures c.calls[o.id].promise.Some?
  {
    var i :| 0 <= i < |c.sent| && c.sent[i] == o;
  }

  lemma CancelKnown(c: Client, e: Event, i: nat)
    requires Inv(c) && i < |Step(c, e).sent| && Step(c, e).sent[i].AsCancel?
    ensures Step(c, e).sent[i].id in c.calls
  {
    SentGrows(c, e);
    if i < |c.sent| {
      assert c.sent[i] in c.sent && SentOk(c, c.sent[i]);
    } else {
      hide Inv, Fifo, Deliver, Broadcast, Receive, ReplyId, ReplyBody, FailCalls;
    }
  }

  lemma {:induction false} RunCancels(c: Client, events: seq<Event>)
    requires Inv(c) && CancelsOk(c)
    ensures CancelsOk(Run(c, events))
    decreases |events|
  {
    hide Inv, Step, CancelsOk;
    if events != [] {
      StepKeeps(c, events[0]);
      CancelsKeep(c, events[0]);
      RunCancels(Step(c, events[0]), events[1..]);
    }
  }

  /** In every run: at most one CANCEL for a unary call, and only for one that its abort settled. */
  lemma CancelMeansAborted(events: seq<Event>)
    ensures CancelsOk(Run(INIT, events))
  {
    InitInv();
    RunCancels(INIT, events);
  }

  // ---------------------------------------------------------------- the class

  /**
   * How a call begins: with a request to send, the error of a client that no longer receives, or the
   * caller's own abort.
   */
  datatype Beginning = Begun(packet: bytes) | Refused(error: RpcError) | AbortedBefore

  function BeginningOf(c: Client, ask: Ask, aborted: bool): Beginning
  {
    if c.recvError.Some? then Refused(RpcError(Exact(0), Fixed(c.recvError.value)))
    else if aborted then AbortedBefore
    else Begun(Packet(AsRequest(c.nextId, ask)))
  }

  class PacketClient {
    var nextId: nat
    var pending: set<nat>
    var running: bool
    var recvError: Option<string>
    var calls: map<nat, Call>
    ghost var sent: seq<Outgoing>

    ghost function State(): Client
      reads this
    {
      Client(nextId, pending, running, recvError, calls, sent)
    }

    constructor ()
      ensures State() == INIT
    {
      nextId, pending, running, recvError, calls := 1, {}, false, None, map[];
      sent := [];
    }

    /** The start of `run`; a second one is an error and changes nothing. */
    method Start() returns (ok: bool)
      modifies this
      ensures ok == !old(running) && State() == Step(old(State()), RunStarts)
    {
      if running {
        return false;
      }
      running := true;
      return true;
    }

    method HandleMessage(data: bytes)
      requires Listening(State())
      modifies this
      ensures State() == Step(old(State()), Arrives(data))
    {
      hide Deliver, ReadNumber, Slice;
      if data == [] {
        return;
      }
      var buf := new Buf(data, 1);
      var number := DecodeVarint(buf);
      if !number.Exact? || number.n !in pending || number.n !in calls {
        return;
      }
      var requestId := number.n;
      var req := calls[requestId];
      if data[0] == RESPONSE {
        if req.UnaryCall? {
          pending := pending - {requestId};
          calls := calls[requestId := req.(promise := Some(Resolved(Slice(data, buf.offset, |data|))))];
        }
      } else if data[0] == STREAM_ITEM {
        if req.StreamCall? {
          HandEvent(requestId, Item(Slice(data, buf.offset, |data|)));
        }
      } else if data[0] == STREAM_END {
        if req.StreamCall? {
          HandEvent(requestId, End);
        }
      } else if data[0] == ERROR {
        var code := DecodeVarint(buf);
        var len := DecodeVarint(buf);
        var error := RpcError(code, FromWire(SliceFor(data, buf.offset, len)));
        if req.UnaryCall? {
          pending := pending - {requestId};
          calls := calls[requestId := req.(promise := Some(Rejected(error)))];
        } else {
          HandEvent(requestId, Error(error));
        }
      }
    }

    /** An event for a pending stream: to its first waiter, or to its queue. An end takes it out of `pending`. */
    method HandEvent(id: nat, event: StreamEvent)
      requires id in calls && calls[id].StreamCall?
      modifies this
      ensures State() == Feed(old(State()), id, event)
    {
      var st := calls[id].stream;
      if event.Item? {
        st := st.(arrived := st.arrived + [event.data]);
      } else {
        pending := pending - {id};
      }
      if |st.waiters| > 0 {
        var waiter := st.waiters[0];
        st := st.(waiters := st.waiters[1..], given := st.given[waiter := event]);
      } else {
        st := st.(queue := st.queue + [event]);
      }
      calls := calls[id := calls[id].(stream := st)];
    }

    /** Wakes every waiter of a stream with the same event and queues it for a later recv. */
    method WakeAll(id: nat, event: StreamEvent)
      requires id in calls && calls[id].StreamCall?
      modifies this`calls
      ensures calls == old(calls)[id := old(calls)[id].(stream := Broadcast(old(calls)[id].stream, event))]
    {
      hide ToAll;
      var st := calls[id].stream;
      var given := st.given;
      NoneWoken(given, event);
      for i := 0 to |st.waiters|
        invariant calls == old(calls) && given == ToAll(st.given, st.waiters[..i], event)
      {
        NextWoken(st.given, st.waiters[..i], st.waiters[i], event);
        given := given[st.waiters[i] := event];
        assert st.waiters[..i + 1] == st.waiters[..i] + [st.waiters[i]];
      }
      assert st.waiters[..|st.waiters|] == st.waiters;
      calls := calls[id := calls[id].(stream := st.(given := given, waiters := [], queue := st.queue + [event]))];
    }

    /** The `catch` of `run`: every pending request fails with the transport's error. */
    method OnRecvError(message: string)
      requires Listening(State()) && pending <= calls.Keys
      modifies this
      ensures State() == Step(old(State()), RecvFails(message))
    {
      hide Broadcast;
      recvError := Some(message);
      var error := Local(message);
      var left := pending;
      while left != {}
        invariant left <= pending
        invariant pending == old(pending) && recvError == Some(message) && nextId == old(nextId)
        invariant running == old(running) && sent == old(sent)
        invariant calls == FailCalls(old(calls), pending - left, error)
      {
        var id :| id in left;
        ghost var before := calls;
        match calls[id] {
          case UnaryCall(_, _, _) => calls := calls[id := calls[id].(promise := Some(Rejected(error)))];
          case StreamCall(_, _, _, _) => WakeAll(id, Error(error));
        }
        left := left - {id};
        FailNext(old(calls), pending - left - {id}, id, error);
        assert pending - left == pending - left - {id} + {id};
      }
      pending := {};
    }

    /** The request to send, or why there is none. */
    method BeginCall(call: Call, aborted: bool) returns (r: Beginning)
      requires nextId < TWO_53
      modifies this
      ensures State() == if old(recvError).Some? || aborted then old(State()) else Open(old(State()), call)
      ensures r == BeginningOf(old(State()), call.ask, aborted)
    {
      if recvError.Some? {
        return Refused(Local(recvError.value));
      }
      if aborted {
        return AbortedBefore;
      }
      var requestId := nextId;
      nextId := nextId + 1;
      var data := BuildRequest(requestId, call.ask.methodIndex, call.ask.payload);
      pending := pending + {requestId};
      calls := calls[requestId := call];
      sent := sent + [AsRequest(requestId, call.ask)];
      return Begun(data);
    }

    method BeginUnary(ask: Ask, aborted: bool) returns (r: Beginning)
      requires nextId < TWO_53
      modifies this
      ensures State() == Step(old(State()), CallUnary(ask, aborted)) && r == BeginningOf(old(State()), ask, aborted)
    {
      r := BeginCall(UnaryCall(ask, Sending, None), aborted);
    }

    method BeginStream(ask: Ask, aborted: bool) returns (r: Beginning)
      requires nextId < TWO_53
      modifies this
      ensures State() == Step(old(State()), CallStream(ask, aborted)) && r == BeginningOf(old(State()), ask, aborted)
    {
      r := BeginCall(StreamCall(ask, Sending, NEW_STREAM, false), aborted);
    }

    method OnSent(id: nat)
      requires id in calls && calls[id].phase.Sending?
      modifies this
      ensures State() == Step(old(State()), SendDone(id))
    {
      calls := calls[id := calls[id].(phase := Sent)];
    }

    method OnSendError(id: nat, message: string)
      requires id in calls && calls[id].phase.Sending?
      modifies this
      ensures State() == Step(old(State()), SendFails(id, message))
    {
      pending := pending - {id};
      calls := calls[id := calls[id].(phase := SendFailed(Local(message)))];
    }

    /** The abort listener of either kind of call; a CANCEL to send, if any. */
    method OnAbort(id: nat) returns (packet: Option<bytes>)
      requires id in calls && calls[id].phase.Sent?
      modifies this
      ensures State() == Step(old(State()), Aborts(id))
      ensures packet == if sent == old(sent) then None else Some(Packet(AsCancel(id)))
    {
      match calls[id] {
        case UnaryCall(_, _, _) =>
          if id !in pending {
            return None;
          }
          pending := pending - {id};
          calls := calls[id := calls[id].(promise := Some(Rejected(ABORTED)))];
        case StreamCall(_, _, _, aborted) =>
          if aborted {
            return None;
          }
          pending := pending - {id};
          WakeAll(id, Error(ABORTED));
          calls := calls[id := calls[id].(aborted := true)];
      }
      var data := BuildCancel(id);
      sent := sent + [AsCancel(id)];
      return Some(data);
    }

    /** `recv` of the stream's receiver: its number, and its event if one was queued. */
    method ReceiveNext(id: nat) returns (call: nat, event: Option<StreamEvent>)
      requires id in calls && calls[id].phase.Sent? && calls[id].StreamCall?
      modifies this
      ensures State() == Step(old(State()), Recv(id))
      ensures call == old(calls)[id].stream.recvs
      ensures event.Some? ==> call in calls[id].stream.given && calls[id].stream.given[call] == event.value
    {
      var st := calls[id].stream;
      call := st.recvs;
      if |st.queue| > 0 {
        event := Some(st.queue[0]);
        st := st.(queue := st.queue[1..], given := st.given[call := event.value], recvs := call + 1);
      } else {
        event := None;
        st := st.(waiters := st.waiters + [call], recvs := call + 1);
      }
      calls := calls[id := calls[id].(stream := st)];
    }
  }

  lemma NoneWoken(given: map<nat, StreamEvent>, e: StreamEvent)
    ensures ToAll(given, [], e) == given
  {
  }

  lemma NextWoken(given: map<nat, StreamEvent>, waiters: seq<nat>, w: nat, e: StreamEvent)
    ensures ToAll(given, waiters + [w], e) == ToAll(given, waiters, e)[w := e]
  {
  }

  lemma FailNext(calls: map<nat, Call>, done: set<nat>, id: nat, error: RpcError)
    requires id in calls && id !in done
    ensures FailCalls(calls, done + {id}, error) == FailCalls(calls, done, error)[id := FailCall(calls[id], error)]
    ensures FailCalls(calls, done, error)[id] == calls[id]
  {
    hide FailCall;
  }
}
