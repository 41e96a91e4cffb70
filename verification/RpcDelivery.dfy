/**
 * Nothing above holds for want of answers: whatever a run has said reaches its call once the links
 * are empty, the links can always be emptied while the client listens, and a pending unary call
 * gets just the response its run sends.
 */
module RpcDelivery {
  import opened Wire
  import opened Leb128
  import opened TsRuntime
  import opened RpcMessages
  import opened RpcClient
  import opened RpcServer
  import opened RpcSystem

  // ---------------------------------------------------------------- what has been said has arrived

  /** No packet for the call is under way. */
  predicate Quiet(s: System, id: nat)
  {
    Of(s.down, id) == [] && Of(s.server.out, id) == []
  }

  lemma AllHeard(s: System, r: nat, id: nat)
    requires SystemOk(s) && Serves(s, r, id) && Quiet(s, id)
    ensures Of(s.handled, id) == s.server.runs[r].said && CallOk(s.client, id)
    ensures CallBacked(s.client.calls[id], id in s.client.pending, s.server.runs[r].said)
  {
    hide Inv, ServerOk, Of, CallBacked, CallOk;
    CallsOk(s.client, id);
    assert Conserved(s, s.server.runs[r]);
    assert Of(s.handled, id) + [] + [] == Of(s.handled, id);
  }

  /** A unary call whose run has answered and whose packets are through is settled. */
  lemma UnaryDelivered(events: seq<SystemEvent>, r: nat, id: nat)
    requires var s := RpcSystem.Run(START, events); Serves(s, r, id) && Quiet(s, id) && s.client.calls[id].UnaryCall?
    requires !Without(RpcSystem.Run(START, events).server.runs[r].said, {RESPONSE, ERROR})
    ensures var s := RpcSystem.Run(START, events);
      id !in s.client.pending && (Result(s.client.calls[id]).Some? || s.client.calls[id].phase.Sending?)
  {
    hide RpcSystem.Run, SystemOk;
    RpcSystem.RunKeeps(START, events) by { StartOk(); }
    AllHeard(RpcSystem.Run(START, events), r, id);
  }

  /** A stream still pending once its packets are through has all its run's items, and its run has not ended it. */
  lemma StreamDelivered(events: seq<SystemEvent>, r: nat, id: nat)
    requires var s := RpcSystem.Run(START, events); Serves(s, r, id) && Quiet(s, id) && id in s.client.pending
    requires RpcSystem.Run(START, events).client.calls[id].StreamCall?
    ensures var s := RpcSystem.Run(START, events);
      var st, said := s.client.calls[id].stream, s.server.runs[r].said;
      st.arrived == ItemsIn(said) && Without(said, {STREAM_END, ERROR}) && InOrder(st) &&
      Items(Told(st)) == ItemsIn(said)
  {
    hide RpcSystem.Run, SystemOk;
    RpcSystem.RunKeeps(START, events) by { StartOk(); }
    AllHeard(RpcSystem.Run(START, events), r, id);
  }

  // ---------------------------------------------------------------- the links can be emptied

  function Sending(count: nat): seq<SystemEvent> { seq(count, _ => ServerSends) }

  function Receiving(count: nat): seq<SystemEvent> { seq(count, _ => ClientReceives) }

  lemma {:induction false} RunSplit(s: System, a: seq<SystemEvent>, b: seq<SystemEvent>)
    ensures RpcSystem.Run(s, a + b) == RpcSystem.Run(RpcSystem.Run(s, a), b)
    decreases |a|
  {
    hide RpcSystem.Step;
    if a == [] {
      assert a + b == b;
    } else {
      assert (a + b)[1..] == a[1..] + b;
      RunSplit(RpcSystem.Step(s, a[0]), a[1..], b);
    }
  }

  lemma {:induction false} SendsAll(s: System, count: nat)
    requires count <= |s.server.out|
    ensures RpcSystem.Run(s, Sending(count)) ==
      s.(server := s.server.(out := s.server.out[count..]), down := s.down + s.server.out[..count])
    decreases count
  {
    if count == 0 {
      assert s.server.out[0..] == s.server.out && s.down + s.server.out[..0] == s.down;
    } else {
      assert Sending(count)[1..] == Sending(count - 1);
      var next := RpcSystem.Step(s, ServerSends);
      SendsAll(next, count - 1);
      assert next.server.out[count - 1..] == s.server.out[count..];
      assert next.down + next.server.out[..count - 1] == s.down + s.server.out[..count];
    }
  }

  /** Packets change a call only by what the server said: its request and its sending are left alone. */
  ghost predicate ByPacketsOnly(a: Call, b: Call)
  {
    a.ask == b.ask && a.phase == b.phase && a.UnaryCall? == b.UnaryCall? &&
    (a.UnaryCall? ==> b.promise == a.promise || (b.promise.Some? && OfTheServer(b.promise.value)))
  }

  predicate OfTheServer(outcome: Outcome)
  {
    outcome.Resolved? || outcome.error.message.FromWire?
  }

  lemma HandleByPackets(c: Client, data: bytes, id: nat)
    requires id in c.calls
    ensures id in Handle(c, data).calls && ByPacketsOnly(c.calls[id], Handle(c, data).calls[id])
    ensures Listening(Handle(c, data)) == Listening(c)
  {
    hide ReplyId, Deliver, Recorded, ReadNumber, SliceFor;
  }

  lemma {:induction false} ReceivesAll(s: System, count: nat, id: nat)
    requires SystemOk(s) && Listening(s.client) && count <= |s.down| && id in s.client.calls
    ensures var t := RpcSystem.Run(s, Receiving(count));
      SystemOk(t) && Listening(t.client) && t.down == s.down[count..] && t.server == s.server && t.up == s.up &&
      id in t.client.calls && ByPacketsOnly(s.client.calls[id], t.client.calls[id])
    decreases count
  {
    hide SystemOk, Handle, Reply;
    if count == 0 {
      assert s.down[0..] == s.down;
    } else {
      var next := RpcSystem.Step(s, ClientReceives);
      HeadSpoken(s);
      RpcSystem.StepKeeps(s, ClientReceives);
      HandleByPackets(s.client, Reply(s.down[0].id, s.down[0].message), id);
      assert Receiving(count)[1..] == Receiving(count - 1);
      ReceivesAll(next, count - 1, id);
      assert next.down[count - 1..] == s.down[count..];
    }
  }

  lemma HeadSpoken(s: System)
    requires SystemOk(s) && s.down != []
    ensures s.down[0].message != []
  {
    hide Inv, RunsMatch, UpOk, CallsBacked, InRange, CancelsMeant;
    SaidOnTheWay(s, s.down[0].id);
  }

  function Flush(s: System): seq<SystemEvent>
  {
    Sending(|s.server.out|) + Receiving(|s.down| + |s.server.out|)
  }

  /** From every reachable state in which the client listens, sends and receives empty the channel and the link. */
  lemma CanDrain(events: seq<SystemEvent>, id: nat)
    requires Listening(RpcSystem.Run(START, events).client) && id in RpcSystem.Run(START, events).client.calls
    ensures var s := RpcSystem.Run(START, events);
      var t := RpcSystem.Run(START, events + Flush(s));
      t.down == [] && t.server == s.server.(out := []) && t.up == s.up && Listening(t.client) &&
      id in t.client.calls && ByPacketsOnly(s.client.calls[id], t.client.calls[id])
  {
    hide RpcSystem.Run, SystemOk, ByPacketsOnly;
    var s := RpcSystem.Run(START, events);
    RpcSystem.RunKeeps(START, events) by { StartOk(); }
    RunSplit(START, events, Flush(s));
    Flushed(s, id);
  }

  lemma Flushed(s: System, id: nat)
    requires SystemOk(s) && Listening(s.client) && id in s.client.calls
    ensures var t := RpcSystem.Run(s, Flush(s));
      SystemOk(t) && t.down == [] && t.server == s.server.(out := []) && t.up == s.up && Listening(t.client) &&
      id in t.client.calls && ByPacketsOnly(s.client.calls[id], t.client.calls[id])
  {
    hide RpcSystem.Run, SystemOk, ByPacketsOnly;
    var sent := RpcSystem.Run(s, Sending(|s.server.out|));
    RunSplit(s, Sending(|s.server.out|), Receiving(|s.down| + |s.server.out|));
    SendsAll(s, |s.server.out|);
    RpcSystem.RunKeeps(s, Sending(|s.server.out|));
    ReceivesAll(sent, |s.down| + |s.server.out|, id);
  }

  // ---------------------------------------------------------------- a pending call and its response

  /** The links are flushed, the handler answers, and the links are flushed again. */
  function Answering(s: System, r: nat, answer: HandlerEvent): seq<SystemEvent>
  {
    Flush(s) + ([ServerActs(r, answer)] + Flush(AfterAnswer(s, r, answer)))
  }

  function AfterAnswer(s: System, r: nat, answer: HandlerEvent): System
  {
    RpcSystem.Step(RpcSystem.Run(s, Flush(s)), ServerActs(r, answer))
  }

  lemma AnsweringRuns(s: System, r: nat, answer: HandlerEvent)
    ensures var t := AfterAnswer(s, r, answer);
      RpcSystem.Run(s, Answering(s, r, answer)) == RpcSystem.Run(t, Flush(t))
  {
    hide RpcSystem.Step, Flush;
    var t := AfterAnswer(s, r, answer);
    var e := ServerActs(r, answer);
    RunSplit(s, Flush(s), [e] + Flush(t));
    assert ([e] + Flush(t))[1..] == Flush(t);
  }

  /** The call of a run that has not answered yet is still waiting. */
  ghost predicate Waits(s: System, r: nat, id: nat)
  {
    Listening(s.client) && Serves(s, r, id) && id in s.client.pending && s.client.calls[id].UnaryCall? &&
    s.server.runs[r].context.Fresh?
  }

  /**
   * In every reachable state in which the client listens, a pending unary call whose handler has
   * not answered yet can still be answered: the handler says just that response, and the call gets it.
   */
  lemma Answered(events: seq<SystemEvent>, r: nat, id: nat, payload: bytes)
    requires Waits(RpcSystem.Run(START, events), r, id)
    ensures var s := RpcSystem.Run(START, events);
      var t := RpcSystem.Run(s, Answering(s, r, Respond(payload)));
      r < |t.server.runs| && t.server.runs[r].said == [[0x00] + payload] && id !in t.client.pending &&
      id in t.client.calls && t.client.calls[id] == s.client.calls[id].(promise := Some(Resolved(payload)))
  {
    hide RpcSystem.Run, SystemOk, RpcSystem.Step, Flush, Waits, ResponseMessage;
    AnswerArrives(events, r, id, Respond(payload), ResponseMessage(payload));
    var t := RpcSystem.Run(RpcSystem.Run(START, events), Answering(RpcSystem.Run(START, events), r, Respond(payload)));
    OneResponse(t.client.calls[id], id in t.client.pending, payload);
    assert ResponseMessage(payload) == [0x00] + payload by { ResponseBytes(payload); }
  }

  /** The same for a handler that fails: the call is rejected with the handler's own code and text. */
  lemma Refused(events: seq<SystemEvent>, r: nat, id: nat, code: u32, text: Text)
    requires Waits(RpcSystem.Run(START, events), r, id)
    ensures var s := RpcSystem.Run(START, events);
      var t := RpcSystem.Run(s, Answering(s, r, Fail(code, text)));
      r < |t.server.runs| && t.server.runs[r].said == [[0x03] + Leb(code) + Leb(|text|) + text] &&
      id !in t.client.pending && id in t.client.calls &&
      t.client.calls[id] ==
        s.client.calls[id].(promise := Some(Rejected(RpcError(Exact(code), FromWire(text)))))
  {
    hide RpcSystem.Run, SystemOk, RpcSystem.Step, Flush, Waits, ErrorMessage;
    AnswerArrives(events, r, id, Fail(code, text), ErrorMessage(code, text));
    var t := RpcSystem.Run(RpcSystem.Run(START, events), Answering(RpcSystem.Run(START, events), r, Fail(code, text)));
    OneError(t.client.calls[id], id in t.client.pending, code, text);
    assert ErrorMessage(code, text) == [0x03] + Leb(code) + Leb(|text|) + text by { ErrorBytes(code, text); }
  }

  lemma ResponseBytes(payload: bytes)
    ensures ResponseMessage(payload) == [0x00] + payload
  {
  }

  lemma ErrorBytes(code: nat, text: bytes)
    ensures ErrorMessage(code, text) == [0x03] + Leb(code) + Leb(|text|) + text
  {
  }

  /** What the two answers of a handler put on the wire. */
  predicate Answers(answer: HandlerEvent, message: bytes)
  {
    match answer
    case Respond(payload) => message == ResponseMessage(payload)
    case Fail(code, text) => message == ErrorMessage(code, text)
    case _ => false
  }

  lemma AnswerArrives(events: seq<SystemEvent>, r: nat, id: nat, answer: HandlerEvent, message: bytes)
    requires Waits(RpcSystem.Run(START, events), r, id) && Answers(answer, message)
    ensures var s := RpcSystem.Run(START, events);
      var t := RpcSystem.Run(s, Answering(s, r, answer));
      id in s.client.calls && id in t.client.calls && ByPacketsOnly(s.client.calls[id], t.client.calls[id]) &&
      s.client.calls[id].UnaryCall? && CallOk(s.client, id) && id in s.client.pending &&
      r < |t.server.runs| && t.server.runs[r].said == [message] &&
      CallOk(t.client, id) && CallBacked(t.client.calls[id], id in t.client.pending, [message])
  {
    var s := RpcSystem.Run(START, events);
    hide RpcSystem.Run, SystemOk, RpcSystem.Step, Flush, Answers, CallBacked;
    RpcSystem.RunKeeps(START, events) by { StartOk(); }
    AnsweringRuns(s, r, answer);
    PendingOk(s, id);
    Flushed(s, id);
    var quiet, said := RpcSystem.Run(s, Flush(s)), AfterAnswer(s, r, answer);
    RpcSystem.StepKeeps(quiet, ServerActs(r, answer));
    Speaks(s, quiet, r, id, answer, message);
    Flushed(said, id);
    var t := RpcSystem.Run(said, Flush(said));
    assert Serves(t, r, id);
    AllHeard(t, r, id);
  }

  lemma Speaks(s: System, quiet: System, r: nat, id: nat, answer: HandlerEvent, message: bytes)
    requires SystemOk(s) && Serves(s, r, id) && s.server.runs[r].context.Fresh? && quiet.server == s.server.(out := [])
    requires Answers(answer, message)
    ensures var t := RpcSystem.Step(quiet, ServerActs(r, answer));
      t.client == quiet.client && |t.server.runs| == |s.server.runs| && t.server.runs[r].id == id &&
      t.server.runs[r].methodIndex == s.server.runs[r].methodIndex &&
      t.server.runs[r].payload == s.server.runs[r].payload && t.server.runs[r].said == [message]
  {
    hide Inv, RunsMatch, UpOk, CallsBacked, InRange, CancelsMeant, Traffic, ResponseMessage, ErrorMessage, SenderStep;
    assert RunOk(s.server.runs[r]);
    assert [] + [message] == [message];
  }

  lemma PendingOk(s: System, id: nat)
    requires SystemOk(s) && id in s.client.calls
    ensures CallOk(s.client, id)
  {
    CallsOk(s.client, id);
  }

  lemma OneResponse(call: Call, pending: bool, payload: bytes)
    requires call.UnaryCall? && CallBacked(call, pending, [ResponseMessage(payload)])
    ensures !pending
    ensures call.promise.Some? && OfTheServer(call.promise.value) ==> call.promise == Some(Resolved(payload))
  {
    var message := ResponseMessage(payload);
    assert message in [message] && message[0] == RESPONSE && message[1..] == payload;
    if call.promise.Some? {
      match call.promise.value
      case Resolved(p) => assert ResponseMessage(p)[1..] == p;
      case Rejected(_) =>
    }
  }

  lemma OneError(call: Call, pending: bool, code: u32, text: Text)
    requires call.UnaryCall? && CallBacked(call, pending, [ErrorMessage(code, text)])
    ensures !pending
    ensures call.promise.Some? && OfTheServer(call.promise.value) ==>
      call.promise == Some(Rejected(RpcError(Exact(code), FromWire(text))))
  {
    hide Leb;
    var message := ErrorMessage(code, text);
    assert message in [message] && message[0] == ERROR;
    if call.promise.Some? && OfTheServer(call.promise.value) {
      match call.promise.value
      case Resolved(_) =>
      case Rejected(error) => SameError(error.code.n, error.message.raw, code, text);
    }
  }

  /** An error message is for one code and one text only. */
  lemma SameError(a: nat, one: bytes, b: nat, other: bytes)
    requires ErrorMessage(a, one) == ErrorMessage(b, other)
    ensures a == b && one == other
  {
    hide Leb;
    assert ErrorMessage(a, one)[1..] == Leb(a) + (Leb(|one|) + one);
    assert ErrorMessage(b, other)[1..] == Leb(b) + (Leb(|other|) + other);
    LebPrefixFree(a, b, Leb(|one|) + one, Leb(|other|) + other);
    LebPrefixFree(|one|, |other|, one, other);
  }

  // ---------------------------------------------------------------- from a call to its outcome

  function Accepting(count: nat): seq<SystemEvent> { seq(count, _ => ServerReceives) }

  /** A call is made, and the server takes everything on its link, the new request last. */
  function Calling(s: System, begin: RpcClient.Event): seq<SystemEvent>
  {
    [ClientActs(begin, false)] + Accepting(|s.up| + 1)
  }

  /** The call as it is when it has just been made. */
  function Made(begin: RpcClient.Event): Call
    requires begin.CallUnary? || begin.CallStream?
  {
    if begin.CallUnary? then UnaryCall(begin.ask, Phase.Sending, None)
    else StreamCall(begin.ask, Phase.Sending, NEW_STREAM, false)
  }

  /** The client can make the call: it listens, and its numbers are those of JavaScript and of the wire. */
  predicate CanCall(c: Client, begin: RpcClient.Event)
  {
    Listening(c) && c.nextId < TWO_53 && (begin.CallUnary? || begin.CallStream?) && !begin.aborted &&
    begin.ask.methodIndex < TWO_32
  }

  /** The server is always ready for what clients send. */
  lemma {:induction false} AcceptsAll(s: System, count: nat)
    requires SystemOk(s) && count <= |s.up|
    ensures var t := RpcSystem.Run(s, Accepting(count));
      SystemOk(t) && t.client == s.client && t.up == s.up[count..] && t.down == s.down && t.handled == s.handled
    decreases count
  {
    hide SystemOk, Accept, ParseRequest;
    if count == 0 {
      assert s.up[0..] == s.up;
    } else {
      var next := RpcSystem.Step(s, ServerReceives);
      HeadTaken(s);
      RpcSystem.StepKeeps(s, ServerReceives);
      assert Accepting(count)[1..] == Accepting(count - 1);
      AcceptsAll(next, count - 1);
      assert next.up[count - 1..] == s.up[count..];
    }
  }

  lemma HeadTaken(s: System)
    requires SystemOk(s) && s.up != []
    ensures Ready(s.server, Packet(s.up[0]))
    ensures RpcSystem.Step(s, ServerReceives) == s.(server := Accept(s.server, Packet(s.up[0])), up := s.up[1..])
  {
    hide Inv, ServerOk, RunsMatch, CallsBacked, CancelsMeant, Traffic, ParseRequest, Accept, Packet, InRange, UpOk;
    PacketAccepted(s);
  }

  /** A request taken by the server is a run that has not done anything yet. */
  lemma RequestTaken(s: System)
    requires SystemOk(s) && s.up != [] && s.up[0].AsRequest?
    ensures var t, o := RpcSystem.Step(s, ServerReceives), s.up[0];
      t.client == s.client && |t.server.runs| == |s.server.runs| + 1 && t.up == s.up[1..] &&
      t.server.runs[|s.server.runs|] == RpcServer.Run.Run(o.id, o.ask.methodIndex, o.ask.payload, Fresh, false, [])
  {
    hide Inv, RunsMatch, CallsBacked, CancelsMeant, Traffic, ParseRequest, Packet, InRange, UpOk, ServerOk;
    PacketAccepted(s);
    UpHead(s);
    NoneToSignal(s.server, s.up[0].id);
  }

  /** The call is pending and its request is the last thing on the link. */
  lemma CallMade(s: System, begin: RpcClient.Event)
    requires SystemOk(s) && CanCall(s.client, begin)
    ensures var t, id := RpcSystem.Step(s, ClientActs(begin, false)), s.client.nextId;
      Listening(t.client) && id in t.client.pending && id in t.client.calls &&
      t.client.calls[id] == Made(begin) && t.up == s.up + [AsRequest(id, begin.ask)]
  {
    hide Inv, ServerOk, RunsMatch, UpOk, Traffic, CallsBacked, InRange, CancelsMeant;
    var sent, o := s.client.sent, AsRequest(s.client.nextId, begin.ask);
    assert (sent + [o])[|sent|..] == [o];
  }

  /** The call has just been made, and its run has done nothing yet. */
  ghost predicate Begins(t: System, r: nat, id: nat, begin: RpcClient.Event)
  {
    Listening(t.client) && Serves(t, r, id) && id in t.client.pending && t.server.runs[r].context.Fresh? &&
    (begin.CallUnary? || begin.CallStream?) && t.client.calls[id] == Made(begin)
  }

  /**
   * In every reachable state in which the client listens, a call can be made: its request starts a
   * run of just that method and payload, and the call waits for it.
   */
  lemma Called(events: seq<SystemEvent>, begin: RpcClient.Event)
    requires CanCall(RpcSystem.Run(START, events).client, begin)
    ensures var s := RpcSystem.Run(START, events);
      var t, id := RpcSystem.Run(START, events + Calling(s, begin)), s.client.nextId;
      |t.server.runs| > 0 && Begins(t, |t.server.runs| - 1, id, begin)
  {
    var s := RpcSystem.Run(START, events);
    var id, n := s.client.nextId, |s.up|;
    hide RpcSystem.Run, SystemOk, RpcSystem.Step, Accepting;
    RpcSystem.RunKeeps(START, events) by { StartOk(); }
    RunSplit(START, events, Calling(s, begin));
    CallMade(s, begin);
    var made := RpcSystem.Step(s, ClientActs(begin, false));
    RpcSystem.StepKeeps(s, ClientActs(begin, false));
    AcceptsAll(made, n);
    var before := RpcSystem.Run(made, Accepting(n));
    assert made.up[n..] == [AsRequest(id, begin.ask)];
    RequestTaken(before);
    CallingRuns(s, begin);
    assert RpcSystem.Run(s, Calling(s, begin)) == RpcSystem.Step(before, ServerReceives);
  }

  lemma CallingRuns(s: System, begin: RpcClient.Event)
    ensures RpcSystem.Run(s, Calling(s, begin)) ==
      RpcSystem.Step(
        RpcSystem.Run(RpcSystem.Step(s, ClientActs(begin, false)), Accepting(|s.up|)), ServerReceives)
  {
    hide RpcSystem.Step;
    var e := ClientActs(begin, false);
    assert Calling(s, begin)[1..] == Accepting(|s.up| + 1) && Calling(s, begin)[0] == e;
    assert Accepting(|s.up| + 1) == Accepting(|s.up|) + [ServerReceives];
    RunSplit(RpcSystem.Step(s, e), Accepting(|s.up|), [ServerReceives]);
    assert [ServerReceives][1..] == [];
  }

  /**
   * The whole way round. In every reachable state in which the client listens, a unary call made now
   * can be carried to its end: to the response of its handler, or to the handler's own error.
   */
  lemma CallCompletes(events: seq<SystemEvent>, ask: Ask, payload: bytes)
    requires CanCall(RpcSystem.Run(START, events).client, CallUnary(ask, false))
    ensures var id := RpcSystem.Run(START, events).client.nextId;
      exists more ::
        var calls := RpcSystem.Run(START, events + more).client.calls;
        id in calls && calls[id] == UnaryCall(ask, Phase.Sending, Some(Resolved(payload)))
  {
    hide RpcSystem.Run, RpcSystem.Step, Answering, Calling;
    var s := RpcSystem.Run(START, events);
    Called(events, CallUnary(ask, false));
    var sofar := events + Calling(s, CallUnary(ask, false));
    var t := RpcSystem.Run(START, sofar);
    Answered(sofar, |t.server.runs| - 1, s.client.nextId, payload);
    var answer := Answering(t, |t.server.runs| - 1, Respond(payload));
    RunSplit(START, sofar, answer);
    assert sofar + answer == events + (Calling(s, CallUnary(ask, false)) + answer);
  }

  lemma CallFails(events: seq<SystemEvent>, ask: Ask, code: u32, text: Text)
    requires CanCall(RpcSystem.Run(START, events).client, CallUnary(ask, false))
    ensures var id := RpcSystem.Run(START, events).client.nextId;
      exists more ::
        var calls := RpcSystem.Run(START, events + more).client.calls;
        id in calls &&
        calls[id] == UnaryCall(ask, Phase.Sending, Some(Rejected(RpcError(Exact(code), FromWire(text)))))
  {
    hide RpcSystem.Run, RpcSystem.Step, Answering, Calling;
    var s := RpcSystem.Run(START, events);
    Called(events, CallUnary(ask, false));
    var sofar := events + Calling(s, CallUnary(ask, false));
    var t := RpcSystem.Run(START, sofar);
    Refused(sofar, |t.server.runs| - 1, s.client.nextId, code, text);
    var answer := Answering(t, |t.server.runs| - 1, Fail(code, text));
    RunSplit(START, sofar, answer);
    assert sofar + answer == events + (Calling(s, CallUnary(ask, false)) + answer);
  }
}
