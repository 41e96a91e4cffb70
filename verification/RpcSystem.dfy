/**
 * Client, server and the two links between them. Whatever the interleaving, cancellations, lost
 * requests and late answers, a call only ever hears from the one handler run that its own request
 * started, and hears it in order.
 */
module RpcSystem {
  import opened Wire
  import opened TsRuntime
  import opened RpcMessages
  import opened RpcClient
  import opened RpcServer

  /** `up` and `down` are the links in order; `handled` records what the client has taken off `down`. */
  datatype System = System(client: Client, server: Server, up: seq<Outgoing>, down: seq<Outbound>,
    handled: seq<Outbound>)

  const START := System(RpcClient.INIT, IDLE, [], [], [])

  /** `lost` drops what the step sends: the transport failed to deliver it. */
  datatype SystemEvent =
    | ClientActs(e: RpcClient.Event, lost: bool)
    | ServerReceives
    | ServerActs(run: nat, h: HandlerEvent)
    | ServerSends
    | ClientReceives

  /** Ids stay exact in JavaScript numbers, and method indices are u32: a client does not leave that range. */
  predicate Possible(c: Client, e: RpcClient.Event)
  {
    !e.Arrives? && ((e.CallUnary? || e.CallStream?) ==> c.nextId < TWO_53 && e.ask.methodIndex < TWO_32)
  }

  function Step(s: System, e: SystemEvent): System
  {
    match e
    case ClientActs(e, lost) =>
      if Possible(s.client, e) then
        var next := RpcClient.Step(s.client, e);
        var packets := if lost || |next.sent| <= |s.client.sent| then [] else next.sent[|s.client.sent|..];
        s.(client := next, up := s.up + packets)
      else s
    case ServerReceives =>
      if s.up != [] && Ready(s.server, Packet(s.up[0])) then
        s.(server := Accept(s.server, Packet(s.up[0])), up := s.up[1..])
      else s
    case ServerActs(r, e) => if r < |s.server.runs| then s.(server := HandlerStep(s.server, r, e)) else s
    case ServerSends =>
      if s.server.out != [] then
        s.(server := s.server.(out := s.server.out[1..]), down := s.down + [s.server.out[0]])
      else s
    case ClientReceives =>
      if s.down != [] && s.down[0].message != [] && Listening(s.client) then
        s.(client := RpcClient.Step(s.client, Arrives(Reply(s.down[0].id, s.down[0].message))),
           down := s.down[1..], handled := s.handled + [s.down[0]])
      else s
  }

  function Run(s: System, events: seq<SystemEvent>): System
    decreases |events|
  {
    if events == [] then s else Run(Step(s, events[0]), events[1..])
  }

  // ---------------------------------------------------------------- bookkeeping

  /** The messages for one call, in order. */
  function Of(packets: seq<Outbound>, id: nat): seq<bytes>
  {
    if packets == [] then [] else (if packets[0].id == id then [packets[0].message] else []) + Of(packets[1..], id)
  }

  lemma {:induction false} OfAppend(a: seq<Outbound>, b: seq<Outbound>, id: nat)
    ensures Of(a + b, id) == Of(a, id) + Of(b, id)
  {
    if a == [] {
      assert a + b == b;
    } else {
      assert (a + b)[1..] == a[1..] + b;
      OfAppend(a[1..], b, id);
    }
  }

  lemma OfOne(o: Outbound, id: nat)
    ensures Of([o], id) == if o.id == id then [o.message] else []
  {
    assert [o][1..] == [];
  }

  lemma {:induction false} OfNone(packets: seq<Outbound>, id: nat)
    requires forall o <- packets :: o.id != id
    ensures Of(packets, id) == []
  {
    if packets != [] {
      OfNone(packets[1..], id);
    }
  }

  /** The items among messages. */
  function ItemsIn(messages: seq<bytes>): seq<bytes>
  {
    if messages == [] then []
    else
      var m := messages[0];
      (if m != [] && m[0] == STREAM_ITEM then [m[1..]] else []) + ItemsIn(messages[1..])
  }

  lemma {:induction false} ItemsInAppend(a: seq<bytes>, b: seq<bytes>)
    ensures ItemsIn(a + b) == ItemsIn(a) + ItemsIn(b)
  {
    if a == [] {
      assert a + b == b;
    } else {
      assert (a + b)[1..] == a[1..] + b;
      ItemsInAppend(a[1..], b);
    }
  }

  lemma ItemsInOne(m: bytes)
    ensures ItemsIn([m]) == if m != [] && m[0] == STREAM_ITEM then [m[1..]] else []
  {
    assert [m][1..] == [];
  }

  // ---------------------------------------------------------------- the invariant

  /** The run that the request of call `id` started. */
  ghost predicate Serves(s: System, r: nat, id: nat)
  {
    r < |s.server.runs| && s.server.runs[r].id == id && id in s.client.calls &&
    s.server.runs[r].methodIndex == s.client.calls[id].ask.methodIndex &&
    s.server.runs[r].payload == s.client.calls[id].ask.payload
  }

  ghost predicate Started(server: Server, id: nat)
  {
    exists run <- server.runs :: run.id == id
  }

  ghost predicate RunsMatch(s: System)
  {
    (forall r: nat :: r < |s.server.runs| ==> Serves(s, r, s.server.runs[r].id)) &&
    (forall i, j :: 0 <= i < j < |s.server.runs| ==> s.server.runs[i].id != s.server.runs[j].id)
  }

  /** Requests under way are for calls that no run serves yet. */
  ghost predicate UpOk(s: System)
  {
    (forall o <- s.up :: o in s.client.sent && SentOk(s.client, o) && (o.AsRequest? ==> !Started(s.server, o.id))) &&
      IdsDistinct(s.up)
  }

  /** Everything a run has said is handled, on the link or in the channel, in that order, and nothing else is. */
  ghost predicate Conserved(s: System, run: RpcServer.Run)
  {
    Of(s.handled, run.id) + Of(s.down, run.id) + Of(s.server.out, run.id) == run.said
  }

  ghost predicate Attributed(s: System, packets: seq<Outbound>)
  {
    forall o <- packets :: Started(s.server, o.id)
  }

  ghost predicate Traffic(s: System)
  {
    (forall run <- s.server.runs :: Conserved(s, run)) &&
    Attributed(s, s.handled) && Attributed(s, s.down) && Attributed(s, s.server.out)
  }

  ghost predicate SaidError(error: RpcError, messages: seq<bytes>)
    requires error.message.FromWire?
  {
    error.code.Exact? && ErrorMessage(error.code.n, error.message.raw) in messages
  }

  /** An outcome the client did not make up itself was said. */
  ghost predicate Backed(outcome: Outcome, heard: seq<bytes>)
  {
    match outcome
    case Resolved(payload) => ResponseMessage(payload) in heard
    case Rejected(error) => error.message.FromWire? ==> SaidError(error, heard)
  }

  /** So was an event, and the server's last word came after all its items had arrived. */
  ghost predicate BackedEvent(e: StreamEvent, arrived: seq<bytes>, heard: seq<bytes>)
  {
    match e
    case Item(data) => ItemMessage(data) in heard
    case End => EndMessage() in heard && arrived == ItemsIn(heard)
    case Error(error) => error.message.FromWire? ==> SaidError(error, heard) && arrived == ItemsIn(heard)
  }

  /** None of the messages begins with one of these bytes. */
  predicate Without(messages: seq<bytes>, kinds: set<byte>)
  {
    forall m <- messages :: m != [] ==> m[0] !in kinds
  }

  ghost predicate EventsBacked(st: Stream, heard: seq<bytes>)
  {
    (forall k <- st.given :: BackedEvent(st.given[k], st.arrived, heard)) &&
    (forall e <- st.queue :: BackedEvent(e, st.arrived, heard))
  }

  /** What a call knows it has heard, and a pending one has heard nothing that would have settled or ended it. */
  ghost predicate CallBacked(call: Call, pending: bool, heard: seq<bytes>)
  {
    match call
    case UnaryCall(_, _, promise) =>
      (promise.Some? ==> Backed(promise.value, heard)) && (pending ==> Without(heard, {RESPONSE, ERROR}))
    case StreamCall(_, _, st, _) =>
      st.arrived <= ItemsIn(heard) &&
      (pending ==> st.arrived == ItemsIn(heard) && Without(heard, {STREAM_END, ERROR})) &&
      EventsBacked(st, heard)
  }

  ghost predicate CallsBacked(s: System)
  {
    forall id <- s.client.calls :: CallBacked(s.client.calls[id], id in s.client.pending, Of(s.handled, id))
  }

  ghost predicate InRange(c: Client)
  {
    c.nextId <= TWO_53 && forall id <- c.calls :: c.calls[id].ask.methodIndex < TWO_32
  }

  /** A run is cancelled at the client's word only. */
  ghost predicate CancelsMeant(s: System)
  {
    forall run <- s.server.runs :: run.cancelled ==> AsCancel(run.id) in s.client.sent
  }

  ghost predicate SystemOk(s: System)
  {
    Inv(s.client) && InRange(s.client) && ServerOk(s.server) && RunsMatch(s) && UpOk(s) && Traffic(s) &&
    CallsBacked(s) && CancelsMeant(s)
  }

  // ---------------------------------------------------------------- steps of the client alone

  /** What a step that handles no packet may do to a call. */
  ghost predicate LocalChange(a: Call, b: Call)
  {
    a.ask == b.ask && a.UnaryCall? == b.UnaryCall? &&
    match a
    case UnaryCall(_, _, promise) =>
      b.promise == promise || (b.promise.Some? && b.promise.value.Rejected? && b.promise.value.error.message.Fixed?)
    case StreamCall(_, _, st, _) =>
      b.stream.arrived == st.arrived &&
      (forall k <- b.stream.given :: FromBefore(st, b.stream.given[k])) &&
      (forall e <- b.stream.queue :: FromBefore(st, e))
  }

  ghost predicate FromBefore(st: Stream, e: StreamEvent)
  {
    (e.Error? && e.error.message.Fixed?) || e in st.queue || exists k <- st.given :: st.given[k] == e
  }

  lemma LocalBacked(a: Call, b: Call, before: bool, after: bool, heard: seq<bytes>)
    requires LocalChange(a, b) && CallBacked(a, before, heard) && (after ==> before)
    ensures CallBacked(b, after, heard)
  {
    hide ItemsIn;
    if a.StreamCall? {
      forall e: StreamEvent | FromBefore(a.stream, e) ensures BackedEvent(e, a.stream.arrived, heard) {
      }
    }
  }

  lemma Unchanged(a: Call)
    ensures LocalChange(a, a)
    ensures forall phase :: LocalChange(a, a.(phase := phase))
  {
  }

  lemma BroadcastLocal(st: Stream, message: string)
    ensures forall k <- Broadcast(st, Error(Local(message))).given ::
      FromBefore(st, Broadcast(st, Error(Local(message))).given[k])
    ensures forall e <- Broadcast(st, Error(Local(message))).queue :: FromBefore(st, e)
  {
  }

  lemma ReceiveLocal(st: Stream)
    ensures forall k <- Receive(st).given :: FromBefore(st, Receive(st).given[k])
    ensures forall e <- Receive(st).queue :: FromBefore(st, e)
  {
  }

  lemma ClientLocal(c: Client, e: RpcClient.Event, id: nat)
    requires Inv(c) && Possible(c, e) && id in c.calls
    ensures var next := RpcClient.Step(c, e);
      id in next.calls && LocalChange(c.calls[id], next.calls[id]) && (id in next.pending ==> id in c.pending)
  {
    Counted(c, id);
    Unchanged(c.calls[id]);
    hide Inv, Broadcast, Receive, Abort, FailCalls, FailCall, LocalChange;
    match e
    case RecvFails(message) =>
      if Listening(c) && id in c.pending {
        FailLocal(c.calls[id], message);
        FailedOne(c.calls, c.pending, id, Local(message));
      } else if Listening(c) {
        FailedOne(c.calls, c.pending, id, Local(message));
      }
    case Aborts(other) =>
      if other in c.calls {
        AbortLocal(c, other, id);
      }
    case Recv(other) =>
      if other == id && c.calls[id].StreamCall? {
        RecvLocal(c.calls[id]);
      }
    case _ =>
  }

  lemma FailedOne(calls: map<nat, Call>, ids: set<nat>, id: nat, error: RpcError)
    requires id in calls
    ensures id in FailCalls(calls, ids, error)
    ensures FailCalls(calls, ids, error)[id] == if id in ids then FailCall(calls[id], error) else calls[id]
  {
  }

  lemma FailLocal(call: Call, message: string)
    ensures LocalChange(call, FailCall(call, Local(message)))
  {
    hide Broadcast;
    if call.StreamCall? {
      BroadcastLocal(call.stream, message);
      BroadcastArrived(call.stream, Error(Local(message)));
    }
  }

  lemma BroadcastArrived(st: Stream, e: StreamEvent)
    ensures Broadcast(st, e).arrived == st.arrived
  {
  }

  lemma AbortLocal(c: Client, other: nat, id: nat)
    requires other in c.calls && id in c.calls
    ensures var next := Abort(c, other);
      id in next.calls && LocalChange(c.calls[id], next.calls[id]) && (id in next.pending ==> id in c.pending)
  {
    hide Broadcast;
    if other == id && c.calls[id].StreamCall? {
      BroadcastLocal(c.calls[id].stream, "aborted");
      BroadcastArrived(c.calls[id].stream, Error(ABORTED));
    } else {
      Unchanged(c.calls[id]);
    }
  }

  lemma RecvLocal(call: Call)
    requires call.StreamCall?
    ensures LocalChange(call, call.(stream := Receive(call.stream)))
  {
    ReceiveLocal(call.stream);
  }

  /** A call that is new has id `nextId`, is empty, and its request is all that was sent. */
  lemma ClientNew(c: Client, e: RpcClient.Event)
    requires Inv(c) && Possible(c, e)
    ensures var next := RpcClient.Step(c, e);
      (next.nextId == c.nextId && next.calls.Keys == c.calls.Keys) ||
      (next.nextId == c.nextId + 1 && next.calls.Keys == c.calls.Keys + {c.nextId} && c.nextId !in c.calls &&
       c.nextId < TWO_53 &&
       CallBacked(next.calls[c.nextId], true, []) && next.calls[c.nextId].ask.methodIndex < TWO_32)
    ensures var next := RpcClient.Step(c, e);
      next.sent == c.sent || exists o ::
        next.sent == c.sent + [o] && (o.AsRequest? ==> o.id == c.nextId && o.id !in c.calls)
  {
    hide Broadcast, Receive, FailCall, CallOk, SentOk, IdsDistinct;
    match e
    case Aborts(id) =>
      if id in c.calls && RpcClient.Step(c, e).sent != c.sent {
        assert RpcClient.Step(c, e).sent == c.sent + [AsCancel(id)];
      }
    case CallUnary(ask, aborted) =>
      if c.recvError.None? && !aborted {
        assert RpcClient.Step(c, e).sent == c.sent + [AsRequest(c.nextId, ask)];
      }
    case CallStream(ask, aborted) =>
      if c.recvError.None? && !aborted {
        assert RpcClient.Step(c, e).sent == c.sent + [AsRequest(c.nextId, ask)];
      }
    case _ =>
  }

  lemma ClientActsKeeps(s: System, e: RpcClient.Event, lost: bool)
    requires SystemOk(s) && Possible(s.client, e)
    ensures SystemOk(Step(s, ClientActs(e, lost)))
  {
    var c, t := s.client, Step(s, ClientActs(e, lost));
    var next := t.client;
    RpcClient.StepKeeps(c, e);
    ClientNew(c, e);
    forall id <- c.calls
      ensures id in next.calls && LocalChange(c.calls[id], next.calls[id]) && (id in next.pending ==> id in c.pending)
    {
      ClientLocal(c, e, id);
    }
    hide Inv, ServerOk, RpcClient.Step, CallBacked, Of;
    AsksStay(s, t);
    UpGrows(s, t, e, lost);
    BackedStay(s, t);
  }

  ghost predicate CallsStay(c: Client, next: Client)
  {
    forall id <- c.calls ::
      id in next.calls && LocalChange(c.calls[id], next.calls[id]) && (id in next.pending ==> id in c.pending)
  }

  lemma AsksStay(s: System, t: System)
    requires t == s.(client := t.client, up := t.up) && CallsStay(s.client, t.client) && InRange(s.client)
    requires RunsMatch(s) && Traffic(s)
    requires (t.client.calls.Keys == s.client.calls.Keys && t.client.nextId == s.client.nextId) ||
      (t.client.nextId == s.client.nextId + 1 && t.client.calls.Keys == s.client.calls.Keys + {s.client.nextId} &&
       s.client.nextId < TWO_53 && t.client.calls[s.client.nextId].ask.methodIndex < TWO_32)
    ensures InRange(t.client) && RunsMatch(t) && Traffic(t)
  {
    hide Of;
    forall id <- t.client.calls ensures t.client.calls[id].ask.methodIndex < TWO_32 {
      if id in s.client.calls {
        assert LocalChange(s.client.calls[id], t.client.calls[id]);
      }
    }
    forall r: nat | r < |t.server.runs| ensures Serves(t, r, t.server.runs[r].id) {
      assert Serves(s, r, s.server.runs[r].id);
      assert LocalChange(s.client.calls[s.server.runs[r].id], t.client.calls[s.server.runs[r].id]);
    }
    forall run <- t.server.runs ensures Conserved(t, run) {
      assert Conserved(s, run);
    }
  }

  lemma UpGrows(s: System, t: System, e: RpcClient.Event, lost: bool)
    requires t == Step(s, ClientActs(e, lost)) && Possible(s.client, e) && CallsStay(s.client, t.client)
    requires UpOk(s) && RunsMatch(s) && Inv(t.client)
    requires t.client.sent == s.client.sent ||
      exists o :: t.client.sent == s.client.sent + [o] &&
        (o.AsRequest? ==> o.id == s.client.nextId && o.id !in s.client.calls)
    ensures UpOk(t)
  {
    hide RpcClient.Step, LocalChange, CallOk, Inv;
    forall o <- s.up ensures SentOk(t.client, o) {
      assert SentOk(s.client, o);
      assert LocalChange(s.client.calls[o.id], t.client.calls[o.id]);
      LocalAsk(s.client.calls[o.id], t.client.calls[o.id]);
    }
    if t.up != s.up {
      var o :| t.client.sent == s.client.sent + [o] &&
        (o.AsRequest? ==> o.id == s.client.nextId && o.id !in s.client.calls);
      assert t.up == s.up + [o];
      SentOks(t.client, o);
      forall run <- s.server.runs ensures run.id in s.client.calls {
        var r :| 0 <= r < |s.server.runs| && s.server.runs[r] == run;
        assert Serves(s, r, run.id);
      }
      forall p <- s.up ensures p.id in s.client.calls {
        assert SentOk(s.client, p);
      }
    }
  }

  lemma SentOks(c: Client, o: Outgoing)
    requires Inv(c) && o in c.sent
    ensures SentOk(c, o)
  {
  }

  lemma LocalAsk(a: Call, b: Call)
    requires LocalChange(a, b)
    ensures a.ask == b.ask
  {
  }

  lemma BackedStay(s: System, t: System)
    requires t == s.(client := t.client, up := t.up) && CallsStay(s.client, t.client) && CallsBacked(s)
    requires RunsMatch(s) && Traffic(s)
    requires t.client.calls.Keys == s.client.calls.Keys ||
      (t.client.calls.Keys == s.client.calls.Keys + {s.client.nextId} && s.client.nextId !in s.client.calls &&
       CallBacked(t.client.calls[s.client.nextId], true, []))
    ensures CallsBacked(t)
  {
    hide LocalChange, CallBacked, Conserved;
    forall id <- t.client.calls ensures CallBacked(t.client.calls[id], id in t.client.pending, Of(t.handled, id)) {
      if id in s.client.calls {
        LocalBacked(s.client.calls[id], t.client.calls[id], id in s.client.pending, id in t.client.pending,
          Of(s.handled, id));
      } else {
        Unheard(s, id);
        WeakerPending(t.client.calls[id], id in t.client.pending);
      }
    }
  }

  lemma WeakerPending(call: Call, pending: bool)
    requires CallBacked(call, true, [])
    ensures CallBacked(call, pending, [])
  {
  }

  /** Nothing is handled, under way or queued for an id that is no call. */
  lemma Unheard(s: System, id: nat)
    requires RunsMatch(s) && Traffic(s) && id !in s.client.calls
    ensures Of(s.handled, id) == [] && Of(s.down, id) == [] && Of(s.server.out, id) == []
  {
    hide Conserved;
    forall run <- s.server.runs ensures run.id != id {
      var r :| 0 <= r < |s.server.runs| && s.server.runs[r] == run;
      assert Serves(s, r, run.id);
    }
    OfNone(s.handled, id);
    OfNone(s.down, id);
    OfNone(s.server.out, id);
  }

  // ---------------------------------------------------------------- steps of the server

  lemma UnstartedSilent(s: System, id: nat)
    requires Traffic(s) && !Started(s.server, id)
    ensures Of(s.handled, id) == [] && Of(s.down, id) == [] && Of(s.server.out, id) == []
  {
    hide Conserved;
    OfNone(s.handled, id);
    OfNone(s.down, id);
    OfNone(s.server.out, id);
  }

  /** The server takes the packet for what was sent. */
  lemma PacketAccepted(s: System)
    requires Inv(s.client) && InRange(s.client) && UpOk(s) && s.up != []
    ensures match s.up[0]
      case AsRequest(id, ask) => ParseRequest(Packet(s.up[0])) == StartCall(id, ask.methodIndex, ask.payload)
      case AsCancel(id) => ParseRequest(Packet(s.up[0])) == CancelCall(id)
  {
    var o := s.up[0];
    assert SentOk(s.client, o);
    Counted(s.client, o.id);
    hide Inv, ParseRequest, Request, Cancel;
    RequestRead(o.id, s.client.calls[o.id].ask.methodIndex, s.client.calls[o.id].ask.payload);
  }

  lemma ServerReceivesKeeps(s: System)
    requires SystemOk(s) && s.up != []
    ensures SystemOk(Step(s, ServerReceives))
  {
    var t := Step(s, ServerReceives);
    hide Inv, ServerOk, CallBacked, Of, ParseRequest, Packet, RunsMatch, Traffic, InRange, UpOk, CancelsMeant;
    AcceptKeeps(s.server, Packet(s.up[0]));
    PacketAccepted(s);
    UpHead(s);
    match s.up[0]
    case AsRequest(id, ask) =>
      NoneToSignal(s.server, id);
      RequestStartsRun(s, t);
    case AsCancel(id) => RunCancelled(s, t);
  }

  lemma UpHead(s: System)
    requires UpOk(s) && s.up != []
    ensures s.up[0] in s.client.sent && SentOk(s.client, s.up[0]) &&
      (s.up[0].AsRequest? ==> !Started(s.server, s.up[0].id))
  {
  }

  /** A request for a call that no run serves finds no cancel channel. */
  lemma NoneToSignal(server: Server, id: nat)
    requires ServerOk(server) && !Started(server, id)
    ensures Signal(server, id) == server
  {
  }

  lemma RequestStartsRun(s: System, t: System)
    requires OneStarted(s, t) && SentOk(s.client, s.up[0]) && RunsMatch(s) && UpOk(s) && Traffic(s) && CancelsMeant(s)
    ensures RunsMatch(t) && UpOk(t) && Traffic(t) && CancelsMeant(t)
  {
    StartedMore(s, t);
    hide Of, Started, Conserved;
    StartMatches(s, t);
    StartUp(s, t);
    StartTraffic(s, t);
  }

  /** The request at the head of the link has become a run; nothing else has changed. */
  ghost predicate OneStarted(s: System, t: System)
  {
    s.up != [] && s.up[0].AsRequest? && var o := s.up[0];
    t == s.(up := s.up[1..], server := s.server.(
      runs := s.server.runs + [RpcServer.Run.Run(o.id, o.ask.methodIndex, o.ask.payload, Fresh, false, [])],
      cancels := s.server.cancels[o.id := |s.server.runs|]))
  }

  lemma StartedMore(s: System, t: System)
    requires OneStarted(s, t)
    ensures forall id :: Started(t.server, id) <==> Started(s.server, id) || id == s.up[0].id
  {
    forall id ensures Started(t.server, id) <==> Started(s.server, id) || id == s.up[0].id {
      if Started(s.server, id) {
        var run :| run in s.server.runs && run.id == id;
        assert run in t.server.runs;
      } else if id == s.up[0].id {
        assert t.server.runs[|s.server.runs|] in t.server.runs;
      }
    }
  }

  lemma StartMatches(s: System, t: System)
    requires OneStarted(s, t) && RunsMatch(s) && SentOk(s.client, s.up[0]) && !Started(s.server, s.up[0].id)
    ensures RunsMatch(t)
  {
    forall r: nat | r < |t.server.runs| ensures Serves(t, r, t.server.runs[r].id) {
      if r < |s.server.runs| {
        assert Serves(s, r, s.server.runs[r].id);
      }
    }
    forall r: nat | r < |s.server.runs| ensures s.server.runs[r].id != s.up[0].id {
      assert s.server.runs[r] in s.server.runs;
    }
  }

  lemma StartUp(s: System, t: System)
    requires OneStarted(s, t) && UpOk(s)
    requires forall id :: Started(t.server, id) <==> Started(s.server, id) || id == s.up[0].id
    ensures UpOk(t)
  {
    hide Started;
    forall p <- t.up ensures SentOk(t.client, p) && (p.AsRequest? ==> !Started(t.server, p.id)) {
      assert p in s.up;
      if p.AsRequest? {
        var i :| 0 <= i < |t.up| && t.up[i] == p;
        assert s.up[i + 1] == p && s.up[0].id != s.up[i + 1].id;
      }
    }
  }

  lemma StartTraffic(s: System, t: System)
    requires OneStarted(s, t) && Traffic(s) && !Started(s.server, s.up[0].id)
    requires forall id :: Started(t.server, id) <==> Started(s.server, id) || id == s.up[0].id
    ensures Traffic(t)
  {
    hide Of, Started;
    UnstartedSilent(s, s.up[0].id);
    forall run <- t.server.runs ensures Conserved(t, run) {
      if run in s.server.runs {
        assert Conserved(s, run);
      }
    }
  }

  /** The cancel at the head of the link has reached its run, if it still has one. */
  lemma RunCancelled(s: System, t: System)
    requires s.up != [] && s.up[0].AsCancel? && s.up[0] in s.client.sent
    requires RunsMatch(s) && UpOk(s) && Traffic(s) && CancelsMeant(s) && ServerOk(s.server)
    requires t == s.(up := s.up[1..], server := Signal(s.server, s.up[0].id))
    ensures RunsMatch(t) && UpOk(t) && Traffic(t) && CancelsMeant(t)
  {
    SignalFlags(s.server, s.up[0].id);
    hide Of, Signal, ServerOk, Started, RunsMatch, UpOk, SentOk;
    RunsKept(s, t);
    UpTail(s, t);
    forall run <- t.server.runs ensures Conserved(t, run) && (run.cancelled ==> AsCancel(run.id) in t.client.sent) {
      var r :| 0 <= r < |t.server.runs| && t.server.runs[r] == run;
      assert s.server.runs[r] in s.server.runs && Conserved(s, s.server.runs[r]);
    }
  }

  lemma UpTail(s: System, t: System)
    requires UpOk(s) && s.up != [] && t.up == s.up[1..] && t.client == s.client
    requires forall id :: Started(s.server, id) <==> Started(t.server, id)
    ensures UpOk(t)
  {
    hide Started, SentOk;
    forall p <- t.up ensures p in s.up {
    }
  }

  /** Nothing but the flag of a run of that id changes. */
  lemma SignalFlags(server: Server, id: nat)
    requires ServerOk(server)
    ensures var t := Signal(server, id);
      t.out == server.out && |t.runs| == |server.runs| &&
      forall r :: 0 <= r < |server.runs| ==>
        t.runs[r] == server.runs[r] || (t.runs[r] == server.runs[r].(cancelled := true) && server.runs[r].id == id)
  {
    hide RunOk;
  }

  /** Runs keep their identity. */
  lemma RunsKept(s: System, t: System)
    requires RunsMatch(s) && t.client == s.client && |t.server.runs| == |s.server.runs|
    requires forall r :: 0 <= r < |s.server.runs| ==>
      t.server.runs[r].id == s.server.runs[r].id && t.server.runs[r].methodIndex == s.server.runs[r].methodIndex &&
      t.server.runs[r].payload == s.server.runs[r].payload
    ensures RunsMatch(t) && forall id :: Started(s.server, id) <==> Started(t.server, id)
  {
    forall r: nat | r < |t.server.runs| ensures Serves(t, r, t.server.runs[r].id) {
      assert Serves(s, r, s.server.runs[r].id);
    }
    forall id ensures Started(s.server, id) <==> Started(t.server, id) {
      if Started(s.server, id) {
        var run :| run in s.server.runs && run.id == id;
        var r :| 0 <= r < |s.server.runs| && s.server.runs[r] == run;
        assert t.server.runs[r] in t.server.runs;
      }
      if Started(t.server, id) {
        var run :| run in t.server.runs && run.id == id;
        var r :| 0 <= r < |t.server.runs| && t.server.runs[r] == run;
        assert s.server.runs[r] in s.server.runs;
      }
    }
  }

  /** A handler step changes one run, and what it says goes to the end of the out channel. */
  lemma HandlerSays(s: Server, r: nat, e: HandlerEvent)
    requires r < |s.runs|
    ensures var t := HandlerStep(s, r, e);
      |t.runs| == |s.runs| && (forall i :: 0 <= i < |s.runs| && i != r ==> t.runs[i] == s.runs[i]) &&
      t.runs[r].id == s.runs[r].id && t.runs[r].methodIndex == s.runs[r].methodIndex &&
      t.runs[r].payload == s.runs[r].payload &&
      t.runs[r].cancelled == s.runs[r].cancelled &&
      ((t.out == s.out && t.runs[r].said == s.runs[r].said) ||
       exists m :: t.out == s.out + [Outbound(Some(r), s.runs[r].id, m)] && t.runs[r].said == s.runs[r].said + [m])
  {
    hide SenderStep;
    var t := HandlerStep(s, r, e);
    if t.out != s.out {
      var m := t.out[|s.out|].message;
      assert t.out == s.out + [Outbound(Some(r), s.runs[r].id, m)] && t.runs[r].said == s.runs[r].said + [m];
    }
  }

  lemma ServerActsKeeps(s: System, r: nat, e: HandlerEvent)
    requires SystemOk(s) && r < |s.server.runs|
    ensures SystemOk(Step(s, ServerActs(r, e)))
  {
    hide Inv, ServerOk, HandlerStep, CallBacked, Of, RunsMatch, Traffic, UpOk, CancelsMeant, InRange, Started;
    var t := Step(s, ServerActs(r, e));
    HandlerKeeps(s.server, r, e);
    HandlerSays(s.server, r, e);
    RunsKept(s, t);
    SaidTraffic(s, t, r);
    UpStays(s, t);
    CancelsStay(s, t);
  }

  lemma UpStays(s: System, t: System)
    requires UpOk(s) && t.up == s.up && t.client == s.client
    requires forall id :: Started(s.server, id) <==> Started(t.server, id)
    ensures UpOk(t)
  {
    hide Started;
  }

  lemma CancelsStay(s: System, t: System)
    requires CancelsMeant(s) && t.client == s.client && |t.server.runs| == |s.server.runs|
    requires forall r :: 0 <= r < |s.server.runs| ==>
      t.server.runs[r].id == s.server.runs[r].id && t.server.runs[r].cancelled == s.server.runs[r].cancelled
    ensures CancelsMeant(t)
  {
    forall run <- t.server.runs | run.cancelled ensures AsCancel(run.id) in t.client.sent {
      var r :| 0 <= r < |t.server.runs| && t.server.runs[r] == run;
      assert s.server.runs[r] in s.server.runs;
    }
  }

  lemma SaidTraffic(s: System, t: System, r: nat)
    requires RunsMatch(s) && Traffic(s) && r < |s.server.runs| && t == s.(server := t.server)
    requires |t.server.runs| == |s.server.runs|
    requires forall i :: 0 <= i < |s.server.runs| && i != r ==> t.server.runs[i] == s.server.runs[i]
    requires t.server.runs[r].id == s.server.runs[r].id
    requires forall id :: Started(s.server, id) <==> Started(t.server, id)
    requires (t.server.out == s.server.out && t.server.runs[r].said == s.server.runs[r].said) ||
      exists m :: t.server.out == s.server.out + [Outbound(Some(r), s.server.runs[r].id, m)] &&
        t.server.runs[r].said == s.server.runs[r].said + [m]
    ensures Traffic(t)
  {
    hide Of, Started;
    var added := t.server.out[|s.server.out|..];
    assert t.server.out == s.server.out + added;
    assert s.server.runs[r] in s.server.runs && Started(s.server, s.server.runs[r].id) by { Identified(s.server, r); }
    forall run <- t.server.runs ensures Conserved(t, run) {
      var i :| 0 <= i < |t.server.runs| && t.server.runs[i] == run;
      assert Conserved(s, s.server.runs[i]);
      OfAppend(s.server.out, added, run.id);
      if added == [] {
        OfNone([], run.id);
      } else {
        OfOne(added[0], run.id);
        assert added == [added[0]];
      }
    }
  }

  lemma Identified(server: Server, r: nat)
    requires r < |server.runs|
    ensures server.runs[r] in server.runs && Started(server, server.runs[r].id)
  {
  }

  lemma ServerSendsKeeps(s: System)
    requires SystemOk(s) && s.server.out != []
    ensures SystemOk(Step(s, ServerSends))
  {
    var t := Step(s, ServerSends);
    OutIrrelevant(s.server, t.server);
    hide Inv, ServerOk, CallBacked, Of;
    RunsKept(s, t);
    SentTraffic(s, t);
  }

  lemma SentTraffic(s: System, t: System)
    requires Traffic(s) && s.server.out != []
    requires t == s.(server := s.server.(out := s.server.out[1..]), down := s.down + [s.server.out[0]])
    ensures Traffic(t)
  {
    hide Of;
    var o := s.server.out[0];
    assert s.server.out == [o] + t.server.out;
    forall run <- t.server.runs ensures Conserved(t, run) {
      assert Conserved(s, run);
      OfAppend(s.down, [o], run.id);
      OfAppend([o], t.server.out, run.id);
    }
  }

  // ---------------------------------------------------------------- a packet reaches the client

  /** The body of the packet is what the message says. */
  ghost predicate Means(m: bytes, body: FromServer)
  {
    match body
    case Response(payload) => m == ResponseMessage(payload)
    case ItemReply(data) => m == ItemMessage(data)
    case EndReply => m == EndMessage()
    case ErrorReply(error) =>
      error.message.FromWire? && error.code.Exact? && m == ErrorMessage(error.code.n, error.message.raw)
    case UnknownReply => false
  }

  lemma MessageMeans(id: nat, m: bytes)
    requires Spoken(m) && id < TWO_53
    ensures m != [] && Reply(id, m) != [] && ReplyId(Reply(id, m)).number == Exact(id) &&
      Means(m, ReplyBody(Reply(id, m)))
  {
    assert m != [] && Reply(id, m) != [];
    hide Reply, ReplyId, ReplyBody;
    ReplyIdRead(id, m);
    if m[0] == RESPONSE {
      ReplyRead(id, m[1..], 0, []);
      assert m == ResponseMessage(m[1..]);
    } else if m[0] == STREAM_ITEM {
      ReplyRead(id, m[1..], 0, []);
      assert m == ItemMessage(m[1..]);
    } else if m == EndMessage() {
      ReplyRead(id, [], 0, []);
    } else {
      var code: u32, text: Text :| m == ErrorMessage(code, text);
      ReplyRead(id, [], code, text);
    }
  }

  /** What a packet does to the pending call it names, in terms of the message. */
  lemma MessageHeard(c: Client, id: nat, m: bytes, heard: seq<bytes>)
    requires Spoken(m) && id < TWO_53 && id in c.pending && id in c.calls && CallOk(c, id)
    requires CallBacked(c.calls[id], true, heard)
    ensures var next := Handle(c, Reply(id, m));
      id in next.calls && CallBacked(next.calls[id], id in next.pending, heard + [m])
  {
    hide CallBacked, Handle, Reply, ReplyId, ReplyBody, Spoken, Means, CallOk;
    MessageMeans(id, m);
    if c.calls[id].UnaryCall? {
      UnaryHears(c, id, m, heard);
    } else {
      StreamHears(c, id, m, heard);
    }
  }

  lemma UnaryHears(c: Client, id: nat, m: bytes, heard: seq<bytes>)
    requires m != [] && id in c.pending && id in c.calls && c.calls[id].UnaryCall? && CallOk(c, id)
    requires CallBacked(c.calls[id], true, heard)
    requires ReplyId(Reply(id, m)).number == Exact(id) && Means(m, ReplyBody(Reply(id, m)))
    ensures var next := Handle(c, Reply(id, m));
      id in next.calls && CallBacked(next.calls[id], id in next.pending, heard + [m])
  {
    assert Reply(id, m) != [];
    hide Reply, ReplyId, ReplyBody;
    assert m in heard + [m];
  }

  /** The event that a message is for a stream. */
  ghost predicate IsEvent(e: StreamEvent, m: bytes)
  {
    match e
    case Item(data) => m == ItemMessage(data)
    case End => m == EndMessage()
    case Error(error) =>
      error.message.FromWire? && error.code.Exact? && m == ErrorMessage(error.code.n, error.message.raw)
  }

  lemma StreamHears(c: Client, id: nat, m: bytes, heard: seq<bytes>)
    requires m != [] && id in c.pending && id in c.calls && c.calls[id].StreamCall? && CallOk(c, id)
    requires CallBacked(c.calls[id], true, heard)
    requires ReplyId(Reply(id, m)).number == Exact(id) && Means(m, ReplyBody(Reply(id, m)))
    ensures var next := Handle(c, Reply(id, m));
      id in next.calls && CallBacked(next.calls[id], id in next.pending, heard + [m])
  {
    assert Reply(id, m) != [];
    hide Reply, ReplyId, ReplyBody, Feed, CallOk, CallBacked;
    match ReplyBody(Reply(id, m))
    case ItemReply(data) => FeedHeard(c, id, Item(data), m, heard);
    case EndReply => FeedHeard(c, id, End, m, heard);
    case ErrorReply(error) => FeedHeard(c, id, Error(error), m, heard);
    case Response(_) => NotForStreams(c, id, m, heard);
    case UnknownReply =>
  }

  /** A response to a stream call is passed over. */
  lemma NotForStreams(c: Client, id: nat, m: bytes, heard: seq<bytes>)
    requires m != [] && m[0] == RESPONSE && id in c.pending && id in c.calls && c.calls[id].StreamCall? && CallOk(c, id)
    requires CallBacked(c.calls[id], true, heard)
    ensures CallBacked(c.calls[id], true, heard + [m])
  {
    hide EventsBacked, Fifo;
    var st := c.calls[id].stream;
    OnlyItemsTold(st);
    ItemsBackedStill(st, st.arrived, heard, m);
    ItemsInAppend(heard, [m]);
    ItemsInOne(m);
  }

  lemma FeedHeard(c: Client, id: nat, e: StreamEvent, m: bytes, heard: seq<bytes>)
    requires id in c.pending && id in c.calls && c.calls[id].StreamCall? && CallOk(c, id)
    requires CallBacked(c.calls[id], true, heard) && IsEvent(e, m)
    ensures var next := Feed(c, id, e); CallBacked(next.calls[id], id in next.pending, heard + [m])
  {
    hide EventsBacked, Fifo, Deliver, Recorded, ItemsIn;
    OnlyItemsTold(c.calls[id].stream);
    EventHeard(c.calls[id].stream, e, heard, m);
  }

  /** A pending stream has been told nothing but items. */
  ghost predicate ToldItems(st: Stream)
  {
    (forall k <- st.given :: st.given[k].Item?) && (forall e <- st.queue :: e.Item?)
  }

  lemma OnlyItemsTold(st: Stream)
    requires Fifo(st, true)
    ensures ToldItems(st)
  {
    hide Items;
    GivenIsTold(st);
  }

  lemma ItemsBackedStill(st: Stream, arrived: seq<bytes>, heard: seq<bytes>, m: bytes)
    requires ToldItems(st) && EventsBacked(st, heard)
    ensures EventsBacked(st.(arrived := arrived), heard + [m])
  {
    hide ItemsIn;
  }

  /** A pending stream takes the event of a message. */
  lemma EventHeard(st: Stream, e: StreamEvent, heard: seq<bytes>, m: bytes)
    requires ToldItems(st) && EventsBacked(st, heard) && st.arrived == ItemsIn(heard) && IsEvent(e, m)
    ensures var next := Deliver(Recorded(st, e), e);
      next.arrived == ItemsIn(heard + [m]) && EventsBacked(next, heard + [m])
  {
    assert Recorded(st, e) == st.(arrived := ItemsIn(heard + [m])) by {
      ItemsInAppend(heard, [m]);
      ItemsInOne(m);
      assert e.Item? ==> m[1..] == e.data;
    }
    hide ItemsIn, EventsBacked, Recorded;
    assert m in heard + [m];
    ItemsBackedStill(st, ItemsIn(heard + [m]), heard, m);
    assert BackedEvent(e, ItemsIn(heard + [m]), heard + [m]);
    DeliverBacked(Recorded(st, e), e, heard + [m]);
  }

  lemma DeliverBacked(st: Stream, e: StreamEvent, heard: seq<bytes>)
    requires EventsBacked(st, heard) && BackedEvent(e, st.arrived, heard)
    ensures Deliver(st, e).arrived == st.arrived && EventsBacked(Deliver(st, e), heard)
  {
    hide BackedEvent;
  }

  /** A packet changes no call but the one whose id it carries, and that one only while it is pending. */
  lemma OthersUntouched(c: Client, data: bytes, other: nat)
    requires data != [] && other in c.calls
    requires ReplyId(data).number != Exact(other) || other !in c.pending
    ensures var next := Handle(c, data);
      next.calls.Keys == c.calls.Keys && next.calls[other] == c.calls[other] &&
      (other in next.pending <==> other in c.pending)
  {
    hide ReplyId, ReplyBody, Deliver;
  }

  lemma ClientReceivesKeeps(s: System)
    requires SystemOk(s) && s.down != [] && s.down[0].message != [] && Listening(s.client)
    ensures SystemOk(Step(s, ClientReceives))
  {
    hide Inv, ServerOk, RunsMatch, UpOk, Traffic, CallsBacked, InRange, Handle, Reply, Spoken, Legal, Started;
    var o, c, t := s.down[0], s.client, Step(s, ClientReceives);
    RpcClient.StepKeeps(c, Arrives(Reply(o.id, o.message)));
    SaidOnTheWay(s, o.id);
    StartedInRange(s, o.id);
    HandleAsks(c, Reply(o.id, o.message));
    ReceivedTraffic(s, t);
    AllBacked(s, t);
  }

  lemma AllBacked(s: System, t: System)
    requires s.down != [] && s.down[0].message != [] && Spoken(s.down[0].message) && Listening(s.client)
    requires s.down[0].id < TWO_53 && Legal(Of(s.handled, s.down[0].id) + [s.down[0].message])
    requires Inv(s.client) && CallsBacked(s) && t == Step(s, ClientReceives) &&
      t.client.calls.Keys == s.client.calls.Keys
    ensures CallsBacked(t)
  {
    hide Step, CallBacked, CallOk, Of, Spoken, Legal;
    forall id <- t.client.calls ensures CallBacked(t.client.calls[id], id in t.client.pending, Of(t.handled, id)) {
      HeardBacked(s, t, id);
    }
  }

  lemma OfHead(packets: seq<Outbound>)
    requires packets != []
    ensures Of(packets, packets[0].id) == [packets[0].message] + Of(packets[1..], packets[0].id)
  {
  }

  /** No packet makes or changes a request. */
  lemma HandleAsks(c: Client, data: bytes)
    ensures var next := Handle(c, data);
      next.calls.Keys == c.calls.Keys && next.nextId == c.nextId && next.sent == c.sent &&
      forall id <- c.calls :: next.calls[id].ask == c.calls[id].ask
  {
    hide ReplyId, ReplyBody, Deliver;
  }

  /** A message on the link was said by a run, in one of the forms the client knows. */
  lemma SaidOnTheWay(s: System, id: nat)
    requires ServerOk(s.server) && Traffic(s) && s.down != [] && s.down[0].id == id
    ensures Spoken(s.down[0].message) && Started(s.server, id) && Legal(Of(s.handled, id) + [s.down[0].message])
  {
    hide Spoken, Legal;
    var o, heard := s.down[0], Of(s.handled, id);
    var run :| run in s.server.runs && run.id == id;
    assert Conserved(s, run) && RunOk(run);
    OfHead(s.down);
    assert heard + [o.message] == run.said[..|heard| + 1];
    assert run.said[|heard|] == o.message;
    LegalRun(run);
    LegalPrefix(run.said, |heard| + 1);
  }

  lemma LegalPrefix(said: seq<bytes>, n: nat)
    requires Legal(said) && 0 < n <= |said|
    ensures Legal(said[..n])
  {
    if !Grammar(said) {
      assert said[..n] == said;
    }
  }

  /** A call with a run has an id that JavaScript holds exactly. */
  lemma StartedInRange(s: System, id: nat)
    requires Inv(s.client) && InRange(s.client) && RunsMatch(s) && Started(s.server, id)
    ensures id < TWO_53 && id in s.client.calls
  {
    var run :| run in s.server.runs && run.id == id;
    var r :| 0 <= r < |s.server.runs| && s.server.runs[r] == run;
    assert Serves(s, r, id);
  }

  lemma ReceivedTraffic(s: System, t: System)
    requires s.down != [] && t.down == s.down[1..] && t.handled == s.handled + [s.down[0]] && t.server == s.server
    requires t.up == s.up
    requires t.client.calls.Keys == s.client.calls.Keys && t.client.nextId == s.client.nextId &&
      t.client.sent == s.client.sent
    requires forall id <- s.client.calls :: t.client.calls[id].ask == s.client.calls[id].ask
    requires RunsMatch(s) && UpOk(s) && Traffic(s) && InRange(s.client)
    ensures RunsMatch(t) && UpOk(t) && Traffic(t) && InRange(t.client)
  {
    hide Of;
    forall r: nat | r < |t.server.runs| ensures Serves(t, r, t.server.runs[r].id) {
      assert Serves(s, r, s.server.runs[r].id);
    }
    forall p <- t.up ensures p in t.client.sent && SentOk(t.client, p) {
      assert SentOk(s.client, p);
    }
    var o := s.down[0];
    assert s.down == [o] + t.down;
    forall run <- t.server.runs ensures Conserved(t, run) {
      assert Conserved(s, run);
      OfAppend(s.handled, [o], run.id);
      OfAppend([o], t.down, run.id);
    }
  }

  lemma HeardBacked(s: System, t: System, id: nat)
    requires s.down != [] && s.down[0].message != [] && Spoken(s.down[0].message) && Listening(s.client)
    requires s.down[0].id < TWO_53 && Legal(Of(s.handled, s.down[0].id) + [s.down[0].message])
    requires t == Step(s, ClientReceives) && id in s.client.calls && CallOk(s.client, id) && CallsBacked(s)
    ensures id in t.client.calls && CallBacked(t.client.calls[id], id in t.client.pending, Of(t.handled, id))
  {
    var o, c := s.down[0], s.client;
    hide Handle, CallBacked, CallOk, Reply, ReplyId, Of, Spoken, Legal;
    MessageMeans(o.id, o.message);
    OfAppend(s.handled, [o], id);
    OfOne(o, id);
    assert CallBacked(c.calls[id], id in c.pending, Of(s.handled, id));
    if o.id != id {
      OthersUntouched(c, Reply(o.id, o.message), id);
      assert Of(t.handled, id) == Of(s.handled, id);
    } else if id in c.pending {
      MessageHeard(c, id, o.message, Of(s.handled, id));
    } else {
      OthersUntouched(c, Reply(o.id, o.message), id);
      LateMessage(c.calls[id], Of(s.handled, id), o.message);
    }
  }

  /** For a call that is no longer pending, a late message backs what was backed before. */
  lemma LateMessage(call: Call, heard: seq<bytes>, m: bytes)
    requires CallBacked(call, false, heard) && Legal(heard + [m])
    ensures CallBacked(call, false, heard + [m])
  {
    ItemsInAppend(heard, [m]);
    hide ItemsIn, Legal;
    if call.StreamCall? {
      var arrived := call.stream.arrived;
      forall e | BackedEvent(e, arrived, heard) ensures BackedEvent(e, arrived, heard + [m]) {
        if e.End? {
          NothingAfter(heard, m, EndMessage());
        } else if e.Error? && e.error.message.FromWire? {
          NothingAfter(heard, m, ErrorMessage(e.error.code.n, e.error.message.raw));
        }
      }
    } else if call.promise.Some? {
      assert Backed(call.promise.value, heard + [m]);
    }
  }

  /** After an END or an ERROR nothing more is said. */
  lemma NothingAfter(heard: seq<bytes>, m: bytes, last: bytes)
    requires Legal(heard + [m])
    ensures last == [] || last[0] !in {STREAM_END, ERROR} || last !in heard
  {
    if last in heard {
      var i :| 0 <= i < |heard| && heard[i] == last;
      assert (heard + [m])[i] == last;
    }
  }

  // ---------------------------------------------------------------- every run

  lemma StepKeeps(s: System, e: SystemEvent)
    requires SystemOk(s)
    ensures SystemOk(Step(s, e))
  {
    hide SystemOk;
    match e
    case ClientActs(ce, lost) => if Possible(s.client, ce) { ClientActsKeeps(s, ce, lost); }
    case ServerReceives => if s.up != [] { ServerReceivesKeeps(s); }
    case ServerActs(r, he) => if r < |s.server.runs| { ServerActsKeeps(s, r, he); }
    case ServerSends => if s.server.out != [] { ServerSendsKeeps(s); }
    case ClientReceives =>
      if s.down != [] && s.down[0].message != [] && Listening(s.client) { ClientReceivesKeeps(s); }
  }

  lemma {:induction false} RunKeeps(s: System, events: seq<SystemEvent>)
    requires SystemOk(s)
    ensures SystemOk(Run(s, events))
    decreases |events|
  {
    hide SystemOk, Step;
    if events != [] {
      StepKeeps(s, events[0]);
      RunKeeps(Step(s, events[0]), events[1..]);
    }
  }

  lemma StartOk()
    ensures SystemOk(START)
  {
  }

  // ---------------------------------------------------------------- what it means for a caller

  /** All a call has heard is the beginning of what its run has said. */
  lemma HeardIsSaid(s: System, r: nat, id: nat)
    requires SystemOk(s) && Serves(s, r, id)
    ensures Of(s.handled, id) <= s.server.runs[r].said
  {
    hide Inv, ServerOk, Of, CallBacked;
    assert Conserved(s, s.server.runs[r]);
  }

  lemma OneRun(s: System, id: nat)
    requires SystemOk(s) && id in s.client.calls && Of(s.handled, id) != []
    ensures exists r: nat :: Serves(s, r, id)
  {
    hide Inv, ServerOk, CallBacked, Conserved;
    if !Started(s.server, id) {
      UnstartedSilent(s, id);
    } else {
      var run :| run in s.server.runs && run.id == id;
      var r :| 0 <= r < |s.server.runs| && s.server.runs[r] == run;
      assert Serves(s, r, id);
    }
  }

  /**
   * Correlation of unary calls: in every reachable state, a response or a server's error that call
   * `id` was settled with was said by the run started with exactly its method and payload.
   */
  lemma UnaryCorrelated(events: seq<SystemEvent>, id: nat)
    requires var s := Run(START, events);
      id in s.client.calls && s.client.calls[id].UnaryCall? && s.client.calls[id].promise.Some?
    ensures var s := Run(START, events);
      match s.client.calls[id].promise.value
      case Resolved(payload) => exists r: nat :: Serves(s, r, id) && ResponseMessage(payload) in s.server.runs[r].said
      case Rejected(error) => error.message.FromWire? ==>
        exists r: nat :: Serves(s, r, id) && SaidError(error, s.server.runs[r].said)
  {
    hide Run;
    var s := Run(START, events);
    RunKeeps(START, events) by { StartOk(); }
    assert CallBacked(s.client.calls[id], id in s.client.pending, Of(s.handled, id));
    hide Inv, ServerOk, RunsMatch, UpOk, Traffic, CallsBacked, InRange, Of;
    if Of(s.handled, id) != [] {
      hide SystemOk;
      OneRun(s, id);
      var r: nat :| Serves(s, r, id);
      HeardIsSaid(s, r, id);
    }
  }

  /** What recv number `k` was told was said, and in its place: before the last word came all the items. */
  ghost predicate SaidBy(st: Stream, k: nat, said: seq<bytes>)
    requires InOrder(st) && k in st.given
  {
    Items(GivenInOrder(st)) <= ItemsIn(said) &&
    match st.given[k]
    case Item(data) => ItemMessage(data) in said
    case End => EndMessage() in said && Items(GivenInOrder(st)[..k]) == ItemsIn(said)
    case Error(error) =>
      error.message.FromWire? && SaidError(error, said) && Items(GivenInOrder(st)[..k]) == ItemsIn(said)
  }

  /** An error of the client's own making: the transport failed or the caller gave up. */
  predicate OwnError(e: StreamEvent) { e.Error? && e.error.message.Fixed? }

  /**
   * Correlation and order of streams: every item, end or server's error that a recv was given was
   * said by the one run started with exactly this call's method and payload. The items given, in
   * call order, are a prefix of those it said, and all of them if it was an end or its error.
   */
  lemma StreamCorrelated(events: seq<SystemEvent>, id: nat, k: nat)
    requires var s := Run(START, events);
      id in s.client.calls && s.client.calls[id].StreamCall? && k in s.client.calls[id].stream.given
    ensures var s := Run(START, events); var st := s.client.calls[id].stream;
      InOrder(st) && (OwnError(st.given[k]) ||
        exists r: nat :: Serves(s, r, id) && SaidBy(st, k, s.server.runs[r].said))
  {
    hide Run, Of, SystemOk, SaidBy, OwnError;
    var s := Run(START, events);
    RunKeeps(START, events) by { StartOk(); }
    var st, heard := s.client.calls[id].stream, Of(s.handled, id);
    StreamHeard(s, id, k);
    if !OwnError(st.given[k]) {
      OneRun(s, id);
      var r: nat :| Serves(s, r, id);
      HeardIsSaid(s, r, id);
      SaysLegally(s, r);
      HeardInPlace(st, k, heard, s.server.runs[r].said);
    }
  }

  lemma SaysLegally(s: System, r: nat)
    requires SystemOk(s) && r < |s.server.runs|
    ensures Legal(s.server.runs[r].said)
  {
    hide Legal, Inv, RunOk;
    LegalRun(s.server.runs[r]);
  }

  lemma StreamHeard(s: System, id: nat, k: nat)
    requires SystemOk(s) && id in s.client.calls && s.client.calls[id].StreamCall? &&
      k in s.client.calls[id].stream.given
    ensures var st, heard := s.client.calls[id].stream, Of(s.handled, id);
      Fifo(st, false) && st.arrived <= ItemsIn(heard) && BackedEvent(st.given[k], st.arrived, heard) &&
      (OwnError(st.given[k]) || heard != [])
  {
    hide Fifo, ItemsIn, Of, Inv, ServerOk, RunsMatch, UpOk, Traffic, InRange, CancelsMeant;
    CallsOk(s.client, id);
    assert CallBacked(s.client.calls[id], id in s.client.pending, Of(s.handled, id));
    assert Fifo(s.client.calls[id].stream, false) by {
      NotPendingFifo(s.client.calls[id].stream, id in s.client.pending);
    }
  }

  lemma NotPendingFifo(st: Stream, pending: bool)
    requires Fifo(st, pending)
    ensures Fifo(st, false)
  {
  }

  /** The last word of a run is the last thing heard, and the items came before it. */
  lemma HeardInPlace(st: Stream, k: nat, heard: seq<bytes>, said: seq<bytes>)
    requires Fifo(st, false) && k in st.given && st.arrived <= ItemsIn(heard) &&
      BackedEvent(st.given[k], st.arrived, heard)
    requires heard <= said && Legal(said) && !OwnError(st.given[k])
    ensures SaidBy(st, k, said)
  {
    GivenIsTold(st);
    assert said == heard + said[|heard|..];
    ItemsInAppend(heard, said[|heard|..]);
    hide Items, ItemsIn, Legal;
    if !st.given[k].Item? {
      ItemsBefore(st, k);
      LastHeard(heard, said, if st.given[k].End? then EndMessage() else
        ErrorMessage(st.given[k].error.code.n, st.given[k].error.message.raw));
    }
  }

  lemma LastHeard(heard: seq<bytes>, said: seq<bytes>, last: bytes)
    requires heard <= said && Legal(said) && last in heard && last != [] && last[0] in {STREAM_END, ERROR}
    ensures heard == said
  {
    var i :| 0 <= i < |heard| && heard[i] == last;
    assert said[i] == last;
  }

  lemma ItemsBefore(st: Stream, k: nat)
    requires Fifo(st, false) && k in st.given && !st.given[k].Item?
    ensures Items(GivenInOrder(st)[..k]) == st.arrived
  {
    var told := Told(st);
    assert told[k] == st.given[k] && told[..k] == GivenInOrder(st)[..k];
    ItemsAppend(told[..k], told[k..]);
    assert told == told[..k] + told[k..];
    NoneAre(told[k..]);
  }

  lemma {:induction false} NoneAre(events: seq<StreamEvent>)
    requires forall e <- events :: !e.Item?
    ensures Items(events) == []
  {
    if events != [] {
      NoneAre(events[1..]);
    }
  }

  /** A handler run is cancelled only if the client has cancelled its call. */
  lemma CancelledByClient(events: seq<SystemEvent>, r: nat)
    requires var s := Run(START, events); r < |s.server.runs| && s.server.runs[r].cancelled
    ensures var s := Run(START, events); AsCancel(s.server.runs[r].id) in s.client.sent
  {
    hide Run;
    RunKeeps(START, events) by { StartOk(); }
  }

  /** No call is served twice, and no run serves two calls. */
  lemma ServedOnce(events: seq<SystemEvent>, r: nat, q: nat, id: nat)
    requires Serves(Run(START, events), r, id) && Serves(Run(START, events), q, id)
    ensures r == q
  {
    hide Run;
    RunKeeps(START, events) by { StartOk(); }
    hide Inv, ServerOk, UpOk, Traffic, CallsBacked, InRange;
  }

  /** The requests on the wire carry distinct ids, all of them past values of the counter. */
  lemma IdsOnTheWire(events: seq<SystemEvent>)
    ensures var s := Run(START, events);
      IdsDistinct(s.client.sent) && IdsDistinct(s.up) &&
      forall o <- s.client.sent :: 1 <= o.id < s.client.nextId && o.id in s.client.calls
  {
    hide Run;
    var s := Run(START, events);
    RunKeeps(START, events) by { StartOk(); }
    forall o <- s.client.sent ensures 1 <= o.id < s.client.nextId && o.id in s.client.calls {
      assert SentOk(s.client, o);
    }
  }
}
