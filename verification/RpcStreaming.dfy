/**
 * A stream from its call to its end: whatever the client and the server are doing, a stream call made
 * now can carry any items, and its receiver is told just those, in order, and then the end.
 */
module RpcStreaming {
  import opened Wire
  import opened Leb128
  import opened TsRuntime
  import opened RpcMessages
  import opened RpcClient
  import opened RpcServer
  import opened RpcSystem
  import opened RpcDelivery
  import opened RpcOutcomes

  // ---------------------------------------------------------------- what the receiver is told

  /** The events these messages are read as: items, and an END at most behind all of them. */
  predicate ReadAs(messages: seq<bytes>, events: seq<StreamEvent>)
  {
    |messages| == |events| &&
    forall i :: 0 <= i < |events| ==>
      if i < |events| - 1 || events[i].Item? then events[i].Item? && messages[i] == ItemMessage(events[i].data)
      else events[i].End? && messages[i] == EndMessage()
  }

  predicate Over(events: seq<StreamEvent>)
  {
    events != [] && events[|events| - 1].End?
  }

  /** The receiver of stream `id` has been told `more` since, and the stream is pending unless that ends it. */
  ghost predicate ToldMore(c: Client, d: Client, id: nat, more: seq<StreamEvent>)
  {
    id in c.calls && id in d.calls && c.calls[id].StreamCall? && d.calls[id].StreamCall? &&
    InOrder(c.calls[id].stream) && InOrder(d.calls[id].stream) && d.calls[id].ask == c.calls[id].ask &&
    Told(d.calls[id].stream) == Told(c.calls[id].stream) + more && (id in d.pending <==> !Over(more))
  }

  lemma NothingTold(c: Client, id: nat)
    requires Inv(c) && id in c.pending && id in c.calls && c.calls[id].StreamCall?
    ensures ToldMore(c, c, id, [])
  {
    StreamOk(c, id);
    assert Told(c.calls[id].stream) + [] == Told(c.calls[id].stream);
  }

  lemma ToldThen(a: Client, b: Client, c: Client, id: nat, one: seq<StreamEvent>, other: seq<StreamEvent>)
    requires ToldMore(a, b, id, one) && ToldMore(b, c, id, other) && !Over(one) && (other == [] ==> id in b.pending)
    ensures ToldMore(a, c, id, one + other)
  {
    hide Told, InOrder;
    var told := Told(a.calls[id].stream);
    assert told + one + other == told + (one + other);
  }

  /** One packet for the stream. */
  lemma PacketTold(c: Client, id: nat, message: bytes, event: StreamEvent)
    requires Inv(c) && Listening(c) && id in c.pending && id in c.calls && c.calls[id].StreamCall? && id < TWO_53
    requires ReadAs([message], [event]) && message != []
    ensures ToldMore(c, Handle(c, Reply(id, message)), id, [event])
  {
    hide ReplyId, ReplyBody, Told, InOrder, Deliver, Recorded, Handle, Inv, Reply, Moved;
    var e := Arrives(Reply(id, message));
    assert [message][0] == message && [event][0] == event;
    assert message == if event.Item? then ItemMessage(event.data) else EndMessage();
    assert Reply(id, message) != [] by { NotEmpty(id, message); }
    ReplyIdRead(id, message);
    ReplyRead(id, if event.Item? then event.data else [], 0, []);
    StreamOk(c, id);
    StreamStep(c, e, id);
    ToldMoved(c, e, id);
    HandleAsks(c, Reply(id, message));
  }

  lemma NotEmpty(id: nat, message: bytes)
    requires message != []
    ensures Reply(id, message) != []
  {
  }

  /** One packet for another call. */
  lemma OtherTold(c: Client, id: nat, other: nat, message: bytes)
    requires Inv(c) && id in c.calls && c.calls[id].StreamCall? && other < TWO_53 && other != id && message != []
    ensures var d := Handle(c, Reply(other, message));
      id in d.calls && d.calls[id] == c.calls[id] && (id in d.pending <==> id in c.pending)
  {
    hide ReplyId, Handle, Inv, Reply;
    NotEmpty(other, message);
    ReplyIdRead(other, message);
    OthersUntouched(c, Reply(other, message), id);
  }

  lemma HeadInRange(s: System)
    requires SystemOk(s) && s.down != []
    ensures s.down[0].message != [] && s.down[0].id < TWO_53
  {
    hide Inv, RunsMatch, UpOk, CallsBacked, CancelsMeant;
    HeadSpoken(s);
    SaidOnTheWay(s, s.down[0].id);
    StartedInRange(s, s.down[0].id);
  }

  /** From `c` to `d` the receiver has been told what the messages say. */
  ghost predicate Caught(c: Client, d: Client, id: nat, messages: seq<bytes>, events: seq<StreamEvent>)
  {
    id in c.calls && id in d.calls && c.calls[id].StreamCall? && d.calls[id].StreamCall? &&
    if messages == [] then d.calls[id] == c.calls[id] && (id in d.pending <==> id in c.pending)
    else ToldMore(c, d, id, events)
  }

  /** The client takes packets off the link: the receiver is told what those for its stream say, in order. */
  lemma {:induction false} ReceivesTold(
    s: System, count: nat, id: nat, messages: seq<bytes>, events: seq<StreamEvent>)
    requires SystemOk(s) && Listening(s.client) && count <= |s.down| && id in s.client.calls
    requires s.client.calls[id].StreamCall? && Of(s.down[..count], id) == messages && ReadAs(messages, events)
    requires id in s.client.pending || messages == []
    ensures Caught(s.client, RpcSystem.Run(s, Receiving(count)).client, id, messages, events)
    decreases count
  {
    hide *;
    if count == 0 {
      NoneReceived(s, id);
      SameCount(messages, events);
      StaysCaught(s.client, id, events);
    } else {
      var o, next, later := s.down[0], RpcSystem.Step(s, ClientReceives), RpcSystem.Run(s, Receiving(count)).client;
      ReceiveTurn(s, count, id);
      if o.id == id {
        FirstRead(messages, events);
        PacketTold(s.client, id, o.message, events[0]);
        StillPending(s.client, next.client, id, messages, events);
        ReceivesTold(next, count - 1, id, messages[1..], events[1..]);
        RestTold(s.client, next.client, later, id, messages, events);
      } else {
        OtherTold(s.client, id, o.id, o.message);
        ReceivesTold(next, count - 1, id, messages, events);
        SameStart(s.client, next.client, later, id, messages, events);
      }
    }
  }

  lemma NoneReceived(s: System, id: nat)
    ensures RpcSystem.Run(s, Receiving(0)) == s && Of(s.down[..0], id) == []
  {
  }

  lemma StaysCaught(c: Client, id: nat, events: seq<StreamEvent>)
    requires id in c.calls && c.calls[id].StreamCall?
    ensures Caught(c, c, id, [], events)
  {
    hide Told, InOrder;
  }

  /** The client takes one packet off the link. */
  lemma ReceiveTurn(s: System, count: nat, id: nat)
    requires SystemOk(s) && Listening(s.client) && 0 < count <= |s.down| && id in s.client.calls
    requires s.client.calls[id].StreamCall?
    ensures var o, next := s.down[0], RpcSystem.Step(s, ClientReceives);
      o.message != [] && o.id < TWO_53 && Inv(s.client) && SystemOk(next) && Listening(next.client) &&
      count - 1 <= |next.down| && id in next.client.calls && next.client.calls[id].StreamCall? &&
      next.client == Handle(s.client, Reply(o.id, o.message)) &&
      RpcSystem.Run(s, Receiving(count)) == RpcSystem.Run(next, Receiving(count - 1)) &&
      Of(s.down[..count], id) == (if o.id == id then [o.message] else []) + Of(next.down[..count - 1], id) &&
      [o.message] + Of(next.down[..count - 1], id) != [] &&
      ([o.message] + Of(next.down[..count - 1], id))[1..] == Of(next.down[..count - 1], id) &&
      [] + Of(next.down[..count - 1], id) == Of(next.down[..count - 1], id)
  {
    hide SystemOk, Handle, Reply, Of;
    var o := s.down[0];
    HeadInRange(s);
    RpcSystem.StepKeeps(s, ClientReceives);
    HandleByPackets(s.client, Reply(o.id, o.message), id);
    ClientOk(s);
    assert Receiving(count)[1..] == Receiving(count - 1);
    assert s.down[..count][1..] == s.down[1..][..count - 1] && s.down[..count][0] == o;
    OfCons(s.down[..count], id);
  }

  lemma ClientOk(s: System)
    requires SystemOk(s)
    ensures Inv(s.client)
  {
  }

  lemma SameCount(messages: seq<bytes>, events: seq<StreamEvent>)
    requires ReadAs(messages, events)
    ensures |messages| == |events|
  {
  }

  lemma OfCons(packets: seq<Outbound>, id: nat)
    requires packets != []
    ensures Of(packets, id) == (if packets[0].id == id then [packets[0].message] else []) + Of(packets[1..], id)
  {
  }

  lemma FirstRead(messages: seq<bytes>, events: seq<StreamEvent>)
    requires ReadAs(messages, events) && messages != []
    ensures events != [] && ReadAs(messages[..1], events[..1]) && ReadAs(messages[1..], events[1..])
    ensures messages[..1] == [messages[0]] && events[..1] == [events[0]] && messages[0] != []
    ensures messages[1..] != [] ==> events[0].Item?
  {
  }

  lemma StillPending(c: Client, d: Client, id: nat, messages: seq<bytes>, events: seq<StreamEvent>)
    requires events != [] && ToldMore(c, d, id, [events[0]]) && |messages| == |events|
    requires messages[1..] != [] ==> events[0].Item?
    ensures id in d.pending || messages[1..] == []
  {
  }

  lemma RestTold(c: Client, d: Client, t: Client, id: nat, messages: seq<bytes>, events: seq<StreamEvent>)
    requires |messages| == |events| && events != [] && ToldMore(c, d, id, [events[0]])
    requires messages[1..] != [] ==> events[0].Item?
    requires Caught(d, t, id, messages[1..], events[1..])
    ensures Caught(c, t, id, messages, events)
  {
    hide Told, InOrder;
    assert events == [events[0]] + events[1..];
    if messages[1..] != [] {
      ToldThen(c, d, t, id, [events[0]], events[1..]);
    } else {
      assert events == [events[0]];
    }
  }

  lemma SameStart(c: Client, d: Client, t: Client, id: nat, messages: seq<bytes>, events: seq<StreamEvent>)
    requires id in c.calls && id in d.calls && d.calls[id] == c.calls[id] && (id in d.pending <==> id in c.pending)
    requires Caught(d, t, id, messages, events)
    ensures Caught(c, t, id, messages, events)
  {
    hide Told, InOrder;
  }

  // ---------------------------------------------------------------- a flush

  /** Nothing on the link or queued, and the client listens. */
  ghost predicate Still(s: System)
  {
    SystemOk(s) && Listening(s.client) && s.down == [] && s.server.out == []
  }

  /** Flushing the links tells the receiver what is under way for it, and does nothing else to it. */
  lemma FlushTold(s: System, id: nat, messages: seq<bytes>, events: seq<StreamEvent>)
    requires SystemOk(s) && Listening(s.client) && id in s.client.calls && s.client.calls[id].StreamCall?
    requires Of(s.down + s.server.out, id) == messages && ReadAs(messages, events)
    requires id in s.client.pending || messages == []
    ensures var t := RpcSystem.Run(s, Flush(s));
      Still(t) && t.server == s.server.(out := []) && Caught(s.client, t.client, id, messages, events)
  {
    hide RpcSystem.Run, SystemOk, Caught, ByPacketsOnly;
    var sent, count := RpcSystem.Run(s, RpcDelivery.Sending(|s.server.out|)), |s.down| + |s.server.out|;
    Flushed(s, id);
    RunSplit(s, RpcDelivery.Sending(|s.server.out|), Receiving(count));
    SendsAll(s, |s.server.out|);
    RpcSystem.RunKeeps(s, RpcDelivery.Sending(|s.server.out|));
    assert s.server.out[..|s.server.out|] == s.server.out && sent.down[..count] == s.down + s.server.out;
    ReceivesTold(sent, count, id, messages, events);
  }

  // ---------------------------------------------------------------- the server's side

  /** Run `r` streams for call `id`, and its channel is empty: everything written is said. */
  ghost predicate Streams(s: System, r: nat, id: nat)
  {
    r < |s.server.runs| && s.server.runs[r].id == id && s.server.runs[r].context.Streaming? &&
    var ch := s.server.runs[r].context.channel;
    ch.sender.Open? && !ch.closed && ch.queue == [] && ch.held.None?
  }

  /** A sender's event, and its message on the way through channel and forwarder. */
  function Through(r: nat, e: SenderEvent): seq<SystemEvent>
  {
    [ServerActs(r, OnStream(e)), ServerActs(r, OnStream(Take)), ServerActs(r, Forward)]
  }

  /** What an item, or the drop of the sender, comes to: one packet in the out channel. */
  lemma PassedThrough(s: System, r: nat, id: nat, e: SenderEvent)
    requires Streams(s, r, id) && s.server.out == [] && (e.Send? || e.Drop?)
    ensures var t, m := RpcSystem.Run(s, Through(r, e)), if e.Send? then ItemMessage(e.payload) else EndMessage();
      t.client == s.client && t.down == s.down && t.server.out == [Outbound(Some(r), id, m)] &&
      (e.Send? ==> Streams(t, r, id))
  {
    hide ItemMessage, EndMessage;
    var run := s.server.runs[r];
    var ch := run.context.channel;
    var written := SenderStep(ch, e);
    var one := RpcSystem.Step(s, ServerActs(r, OnStream(e)));
    var two := RpcSystem.Step(one, ServerActs(r, OnStream(Take)));
    var three := RpcSystem.Step(two, ServerActs(r, Forward));
    var m := if e.Send? then ItemMessage(e.payload) else EndMessage();
    assert written.queue == [m] && written.held.None?;
    assert two.server.runs[r].context.channel.held == Some(m) && two.server.runs[r].context.channel.queue == [];
    ThreeSteps(s, ServerActs(r, OnStream(e)), ServerActs(r, OnStream(Take)), ServerActs(r, Forward));
    assert [] + [Outbound(Some(r), id, m)] == [Outbound(Some(r), id, m)];
  }

  lemma ThreeSteps(s: System, a: SystemEvent, b: SystemEvent, c: SystemEvent)
    ensures RpcSystem.Run(s, [a, b, c]) == RpcSystem.Step(RpcSystem.Step(RpcSystem.Step(s, a), b), c)
  {
    hide RpcSystem.Step;
    assert [a, b, c][1..] == [b, c] && [b, c][1..] == [c] && [c][1..] == [];
    var one, two := RpcSystem.Step(s, a), RpcSystem.Step(RpcSystem.Step(s, a), b);
    assert RpcSystem.Run(s, [a, b, c]) == RpcSystem.Run(one, [b, c]);
    assert RpcSystem.Run(one, [b, c]) == RpcSystem.Run(two, [c]);
  }

  // ---------------------------------------------------------------- items, one after the other

  function AsEvents(payloads: seq<bytes>): seq<StreamEvent>
  {
    seq(|payloads|, i requires 0 <= i < |payloads| => Item(payloads[i]))
  }

  /** One item or the END, from the handler's hands to the receiver. */
  lemma Carry(s: System, r: nat, id: nat, e: SenderEvent) returns (more: seq<SystemEvent>)
    requires Still(s) && Streams(s, r, id) && (e.Send? || e.Drop?)
    requires id in s.client.pending && id in s.client.calls && s.client.calls[id].StreamCall?
    ensures var t := RpcSystem.Run(s, more);
      Still(t) && (e.Send? ==> Streams(t, r, id)) &&
      ToldMore(s.client, t.client, id, [if e.Send? then Item(e.payload) else End])
  {
    hide RpcSystem.Run, SystemOk, ToldMore, Through, Flush;
    var m, event := if e.Send? then ItemMessage(e.payload) else EndMessage(), if e.Send? then Item(e.payload) else End;
    var mid := RpcSystem.Run(s, Through(r, e));
    PassedThrough(s, r, id, e);
    RpcSystem.RunKeeps(s, Through(r, e));
    OfOne(Outbound(Some(r), id, m), id);
    assert [] + mid.server.out == mid.server.out;
    FlushTold(mid, id, [m], [event]);
    more := Through(r, e) + Flush(mid);
    RunSplit(s, Through(r, e), Flush(mid));
  }

  lemma {:induction false} CarryAll(s: System, r: nat, id: nat, payloads: seq<bytes>) returns (more: seq<SystemEvent>)
    requires Still(s) && Streams(s, r, id)
    requires id in s.client.pending && id in s.client.calls && s.client.calls[id].StreamCall?
    ensures var t := RpcSystem.Run(s, more);
      Still(t) && Streams(t, r, id) && ToldMore(s.client, t.client, id, AsEvents(payloads))
    decreases |payloads|
  {
    hide SystemOk, Told, InOrder, RpcSystem.Step;
    if payloads == [] {
      more := [];
      NothingTold(s.client, id) by { ClientOk(s); }
    } else {
      var first := Carry(s, r, id, SenderEvent.Send(payloads[0]));
      var mid := RpcSystem.Run(s, first);
      var later := CarryAll(mid, r, id, payloads[1..]);
      more := first + later;
      RunSplit(s, first, later);
      assert AsEvents(payloads) == [Item(payloads[0])] + AsEvents(payloads[1..]);
      var end := RpcSystem.Run(mid, later);
      ToldThen(s.client, mid.client, end.client, id, [Item(payloads[0])], AsEvents(payloads[1..]));
    }
  }

  /** From a run that streams to the end of its stream. */
  lemma CarryToEnd(s: System, r: nat, id: nat, payloads: seq<bytes>) returns (more: seq<SystemEvent>)
    requires Still(s) && Streams(s, r, id)
    requires id in s.client.pending && id in s.client.calls && s.client.calls[id].StreamCall?
    ensures ToldMore(s.client, RpcSystem.Run(s, more).client, id, AsEvents(payloads) + [End])
  {
    hide RpcSystem.Run, SystemOk, Told, InOrder;
    var items := CarryAll(s, r, id, payloads);
    var mid := RpcSystem.Run(s, items);
    var last := Carry(mid, r, id, SenderEvent.Drop);
    more := items + last;
    RunSplit(s, items, last);
    ToldThen(s.client, mid.client, RpcSystem.Run(mid, last).client, id, AsEvents(payloads), [End]);
  }

  // ---------------------------------------------------------------- from the call to the end

  /** A run that has done nothing has nothing under way. */
  lemma NothingUnderWay(s: System, r: nat, id: nat)
    requires SystemOk(s) && Serves(s, r, id) && s.server.runs[r].context.Fresh?
    ensures Of(s.down + s.server.out, id) == []
  {
    hide Inv, RunsMatch, UpOk, CallsBacked, InRange, CancelsMeant, Of;
    assert Conserved(s, s.server.runs[r]) && RunOk(s.server.runs[r]);
    OfAppend(s.down, s.server.out, id);
  }

  lemma StreamOpened(s: System, r: nat, id: nat)
    requires r < |s.server.runs| && s.server.runs[r].id == id && s.server.runs[r].context.Fresh?
    ensures var t := RpcSystem.Run(s, [ServerActs(r, OpenStream)]);
      Streams(t, r, id) && t.client == s.client && t.down == s.down && t.server.out == s.server.out
  {
    assert [ServerActs(r, OpenStream)][1..] == [];
  }

  /** A stream call that has just been made can be carried to its end. */
  lemma BegunToEnd(s: System, r: nat, id: nat, ask: Ask, payloads: seq<bytes>) returns (more: seq<SystemEvent>)
    requires SystemOk(s) && Begins(s, r, id, CallStream(ask, false))
    ensures var c := RpcSystem.Run(s, more).client;
      id in c.calls && id !in c.pending && c.calls[id].StreamCall? && c.calls[id].ask == ask &&
      InOrder(c.calls[id].stream) && Told(c.calls[id].stream) == AsEvents(payloads) + [End]
  {
    hide RpcSystem.Run, SystemOk, Flush, InOrder;
    NothingUnderWay(s, r, id);
    FlushTold(s, id, [], []);
    var quiet := RpcSystem.Run(s, Flush(s));
    var opening := [ServerActs(r, OpenStream)];
    StreamOpened(quiet, r, id);
    RpcSystem.RunKeeps(quiet, opening);
    var ready := RpcSystem.Run(quiet, opening);
    var rest := CarryToEnd(ready, r, id, payloads);
    more := Flush(s) + (opening + rest);
    RunSplit(s, Flush(s), opening + rest);
    RunSplit(quiet, opening, rest);
    assert Told(NEW_STREAM) == [] by { NothingYet(); }
    assert [] + (AsEvents(payloads) + [End]) == AsEvents(payloads) + [End];
  }

  lemma NothingYet()
    ensures InOrder(NEW_STREAM) && Told(NEW_STREAM) == []
  {
  }

  /**
   * In every reachable state in which the client listens, a stream call made now can carry any items:
   * its receiver is told just these, in order and each whole, and then the end, and nothing else.
   */
  lemma StreamCompletes(events: seq<SystemEvent>, ask: Ask, payloads: seq<bytes>)
    requires CanCall(RpcSystem.Run(START, events).client, CallStream(ask, false))
    ensures var id := RpcSystem.Run(START, events).client.nextId;
      exists more ::
        var c := RpcSystem.Run(START, events + more).client;
        id in c.calls && id !in c.pending && c.calls[id].StreamCall? && c.calls[id].ask == ask &&
        InOrder(c.calls[id].stream) && Told(c.calls[id].stream) == AsEvents(payloads) + [End]
  {
    hide RpcSystem.Run, SystemOk, Calling, Told, InOrder, Begins;
    var s := RpcSystem.Run(START, events);
    var calling := Calling(s, CallStream(ask, false));
    Called(events, CallStream(ask, false));
    RpcSystem.RunKeeps(START, events + calling) by { StartOk(); }
    var t := RpcSystem.Run(START, events + calling);
    var rest := BegunToEnd(t, |t.server.runs| - 1, s.client.nextId, ask, payloads);
    RunSplit(START, events + calling, rest);
    assert events + calling + rest == events + (calling + rest);
  }
}
