/**
 * The TypeScript TCP transport: length-prefixed frames put back together from chunks, handed to
 * `recv` calls in order. The transport as a step system, the class that implements its steps, and
 * what every run of data, recv, close and error events keeps.
 */
module TcpTransport {
  import opened Wire
  import opened Leb128
  import opened TsRuntime

  // ---------------------------------------------------------------- frames

  datatype Cut = Cut(frame: bytes, rest: bytes)

  /** The frame at the front of the stream, when all of it is there. No frame has 2^53 bytes. */
  function FrameAt(buffer: bytes): (r: Option<Cut>)
    ensures r.Some? ==> |r.value.rest| < |buffer| && Suffix(r.value.rest, buffer)
  {
    if buffer == [] then None
    else
      var header := ReadVarint(buffer, 0);
      var total := header.next + header.value;
      if header.value >= TWO_53 || |buffer| < total then None
      else Some(Cut(buffer[header.next..total], buffer[total..]))
  }

  /**
   * What `recv` finds at the front: a frame, if the buffer's length is at least the total. It is
   * at least no total that is not a number.
   */
  function ReadyFrame(buffer: bytes): (r: Option<Cut>)
  {
    if buffer == [] then None
    else
      var header := ReadNumber(buffer, 0);
      match header.number
      case NaN => None
      case Huge => None
      case Exact(length) =>
        var total := header.next + length;
        if |buffer| < total then None else Some(Cut(buffer[header.next..total], buffer[total..]))
  }

  /**
   * What `processBuffer` cuts off at the front, unless the buffer's length is less than the total.
   * It is not less than a total that is no number, and `slice` takes that for 0: an empty frame is
   * cut, and nothing is taken off the buffer.
   */
  function TakeFrame(buffer: bytes): (r: Option<Cut>)
  {
    if buffer != [] && ReadNumber(buffer, 0).number.NaN? then Some(Cut([], buffer)) else ReadyFrame(buffer)
  }

  function FramesOf(stream: bytes): seq<bytes>
  {
    var c := FrameAt(stream);
    if c.None? then [] else [c.value.frame] + FramesOf(c.value.rest)
  }

  /** What is left of the stream once its first `count` frames are gone. */
  function After(stream: bytes, count: nat): (r: bytes)
    requires count <= |FramesOf(stream)|
    ensures Suffix(r, stream)
  {
    if count == 0 then stream else After(FrameAt(stream).value.rest, count - 1)
  }

  /** Both see the frame that is there, unless the digits of its length go on for too long. */
  lemma TakesWhatIsThere(buffer: bytes)
    ensures TakeFrame(buffer) ==
      if buffer != [] && ZeroFar(buffer, 0, 0) then Some(Cut([], buffer)) else FrameAt(buffer)
    ensures ReadyFrame(buffer) == if ZeroFar(buffer, 0, 0) then None else FrameAt(buffer)
  {
    hide ReadNumber, ReadVarint, ZeroFar;
    NumberMeant(buffer, 0);
  }

  lemma ShortIsTaken(buffer: bytes)
    requires Continuations(buffer, 0) < 147
    ensures TakeFrame(buffer) == FrameAt(buffer) && ReadyFrame(buffer) == FrameAt(buffer)
  {
    hide TakeFrame, ReadyFrame, FrameAt;
    ShortIsANumber(buffer, 0, 0);
    TakesWhatIsThere(buffer);
  }

  /** A length prefix that ends inside the buffer reads the same when more bytes follow. */
  lemma {:induction false} PrefixStable(data: bytes, more: bytes, offset: nat)
    requires ReadVarint(data, offset).next <= |data|
    ensures ReadVarint(data + more, offset) == ReadVarint(data, offset)
    decreases |data| - offset
  {
    if offset < |data| && data[offset] >= 128 {
      PrefixStable(data, more, offset + 1);
    }
  }

  /** A complete frame stays what it is; a length prefix cut short by the chunk never completes one. */
  lemma FrameStable(buffer: bytes, more: bytes)
    requires FrameAt(buffer).Some?
    ensures FrameAt(buffer + more) == Some(Cut(FrameAt(buffer).value.frame, FrameAt(buffer).value.rest + more))
  {
    hide ReadVarint;
    PrefixStable(buffer, more, 0);
    var header := ReadVarint(buffer, 0);
    var total := header.next + header.value;
    assert (buffer + more)[header.next..total] == buffer[header.next..total];
    assert (buffer + more)[total..] == buffer[total..] + more;
  }

  lemma {:induction false} PrefixContinues(data: bytes, more: bytes, offset: nat)
    requires ReadVarint(data, offset).next <= |data|
    ensures Continuations(data + more, offset) == Continuations(data, offset)
    decreases |data| - offset
  {
    if offset < |data| && data[offset] >= 128 {
      PrefixContinues(data, more, offset + 1);
    }
  }

  /** So does a frame cut by the transport, when the header is short enough for its arithmetic. */
  lemma CutStable(buffer: bytes, more: bytes)
    requires Continuations(buffer, 0) < 147 && TakeFrame(buffer).Some?
    ensures TakeFrame(buffer + more) == Some(Cut(TakeFrame(buffer).value.frame, TakeFrame(buffer).value.rest + more))
    ensures ReadyFrame(buffer + more) == TakeFrame(buffer + more)
  {
    ShortIsTaken(buffer);
    HeaderInside(buffer);
    hide TakeFrame, ReadyFrame, FrameAt, ReadVarint, Continuations;
    PrefixContinues(buffer, more, 0);
    ShortIsTaken(buffer + more);
    FrameStable(buffer, more);
  }

  lemma HeaderInside(buffer: bytes)
    requires FrameAt(buffer).Some?
    ensures ReadVarint(buffer, 0).next <= |buffer|
  {
    hide ReadVarint;
  }

  /** And a buffer that ends inside such a header has no frame. */
  lemma CutShort(buffer: bytes)
    requires |buffer| < 147 && forall b <- buffer :: b >= 128
    ensures TakeFrame(buffer).None? && ReadyFrame(buffer).None?
  {
    hide TakeFrame, ReadyFrame;
    AllContinue(buffer, 0);
    ShortIsTaken(buffer);
  }

  lemma {:induction false} AllContinue(data: bytes, offset: nat)
    requires offset <= |data| && forall b <- data :: b >= 128
    ensures ReadVarint(data, offset).next == |data| + 1 && offset + Continuations(data, offset) == |data|
    decreases |data| - offset
  {
    if offset < |data| {
      assert data[offset] in data;
      AllContinue(data, offset + 1);
    }
  }

  lemma NoFrame(stream: bytes)
    ensures FrameAt([]) == None && FramesOf([]) == [] && After([], 0) == [] && After(stream, 0) == stream
    ensures FrameAt(stream).None? ==> FramesOf(stream) == []
  {
    hide ReadVarint;
  }

  lemma FramesCons(stream: bytes, count: nat)
    requires FrameAt(stream).Some?
    ensures var c := FrameAt(stream).value;
      FramesOf(stream) == [c.frame] + FramesOf(c.rest) && After(stream, 0) == stream &&
      (count < |FramesOf(stream)| ==> After(stream, count + 1) == After(c.rest, count))
  {
    hide FrameAt;
  }

  lemma {:induction false} AfterAppend(stream: bytes, more: bytes, count: nat)
    requires count <= |FramesOf(stream)|
    ensures count <= |FramesOf(stream + more)| && After(stream + more, count) == After(stream, count) + more
    ensures FramesOf(stream + more)[..count] == FramesOf(stream)[..count]
    decreases count
  {
    NoFrame(stream);
    NoFrame(stream + more);
    hide FrameAt, FramesOf, After;
    if count > 0 {
      FrameStable(stream, more);
      FramesCons(stream, count - 1);
      FramesCons(stream + more, count - 1);
      AfterAppend(FrameAt(stream).value.rest, more, count - 1);
    }
  }

  /** One more frame out of what is left is one more frame of the stream; none there, none in the stream. */
  lemma {:induction false} AfterNext(stream: bytes, count: nat)
    requires count <= |FramesOf(stream)|
    ensures FrameAt(After(stream, count)).None? <==> count == |FramesOf(stream)|
    ensures var c := FrameAt(After(stream, count));
      c.Some? ==> c.value.frame == FramesOf(stream)[count] && After(stream, count + 1) == c.value.rest
    decreases count
  {
    hide FrameAt;
    if count > 0 {
      AfterNext(FrameAt(stream).value.rest, count - 1);
    } else if FrameAt(stream).Some? {
      assert After(FrameAt(stream).value.rest, 0) == FrameAt(stream).value.rest;
    }
  }

  /** Conservation: the bytes in front of what is left are exactly the bytes of the frames taken. */
  lemma {:induction false} ConsumedExactly(stream: bytes, count: nat)
    requires count <= |FramesOf(stream)|
    ensures var left := After(stream, count);
      var consumed := stream[..|stream| - |left|];
      stream == consumed + left && FramesOf(consumed) == FramesOf(stream)[..count] && After(consumed, count) == []
    decreases count
  {
    hide FrameAt, FramesOf, After;
    var left := After(stream, count);
    var consumed := stream[..|stream| - |left|];
    assert consumed + left == stream;
    NoFrame(stream);
    if count == 0 {
      assert consumed == [];
    } else {
      FramesCons(stream, count - 1);
      var c := FrameAt(stream).value;
      ConsumedExactly(c.rest, count - 1);
      ConsumedFirst(stream, left);
      FramesCons(consumed, count - 1);
      assert ([c.frame] + FramesOf(c.rest))[..count] == [c.frame] + FramesOf(c.rest)[..count - 1];
    }
  }

  lemma ConsumedFirst(stream: bytes, left: bytes)
    requires FrameAt(stream).Some? && Suffix(left, FrameAt(stream).value.rest) &&
      Suffix(FrameAt(stream).value.rest, stream)
    ensures var c := FrameAt(stream).value;
      FrameAt(stream[..|stream| - |left|]) == Some(Cut(c.frame, c.rest[..|c.rest| - |left|]))
  {
    hide FrameAt;
    var c := FrameAt(stream).value;
    var size, more := |stream| - |c.rest|, c.rest[..|c.rest| - |left|];
    assert stream[..|stream| - |left|] == stream[..size] + more;
    FirstFrame(stream);
    FrameStable(stream[..size], more);
    assert [] + more == more;
  }

  lemma FirstFrame(stream: bytes)
    requires FrameAt(stream).Some?
    ensures var c := FrameAt(stream).value;
      FrameAt(stream[..|stream| - |c.rest|]) == Some(Cut(c.frame, []))
  {
    hide ReadVarint;
    var c, header := FrameAt(stream).value, ReadVarint(stream, 0);
    var total := header.next + header.value;
    assert |stream| - |c.rest| == total;
    var whole := stream[..total];
    ReadInside(stream, total, 0);
    assert whole[header.next..total] == c.frame;
  }

  lemma {:induction false} ReadInside(data: bytes, end: nat, offset: nat)
    requires ReadVarint(data, offset).next <= end <= |data|
    ensures ReadVarint(data[..end], offset) == ReadVarint(data, offset)
    decreases |data| - offset
  {
    if offset < |data| && data[offset] >= 128 {
      ReadInside(data, end, offset + 1);
    }
  }

  // ---------------------------------------------------------------- the transport as a step system

  /** How the promise of a recv call ends. */
  datatype Outcome = Got(frame: bytes) | Failed(error: string)

  /**
   * `recv` calls are numbered in the order they are made; `waiters` holds the numbers of those still
   * waiting, `settled` what became of the others. `received` and `taken` record the run: all bytes
   * that arrived and how many frames were handed out.
   */
  datatype Tcp = Tcp(
    buffer: bytes, waiters: seq<nat>, closed: bool, error: Option<string>,
    calls: nat, settled: map<nat, Outcome>, received: bytes, taken: nat)

  const INIT := Tcp([], [], false, None, 0, map[], [], 0)

  datatype Event =
    | Data(chunk: bytes)
    | Recv
    | Closed
    | Broken(message: string)
    | CloseHere

  /** The first waiter has got the frame cut off. */
  function GiveFirst(t: Tcp, c: Cut): Tcp
    requires t.waiters != []
  {
    t.(buffer := c.rest, waiters := t.waiters[1..], taken := t.taken + 1,
       settled := t.settled[t.waiters[0] := Got(c.frame)])
  }

  /** The loop of `processBuffer`: waiters are served while complete frames last. */
  function Process(t: Tcp): (r: Tcp)
    ensures r.received == t.received && r.calls == t.calls && r.closed == t.closed && r.error == t.error
    decreases |t.waiters|
  {
    var c := TakeFrame(t.buffer);
    if t.waiters == [] || c.None? then t
    else Process(GiveFirst(t, c.value))
  }

  function Reject(settled: map<nat, Outcome>, waiters: seq<nat>, error: string): map<nat, Outcome>
  {
    map k | k in settled.Keys + (set w <- waiters) :: if k in waiters then Failed(error) else settled[k]
  }

  lemma RejectNone(settled: map<nat, Outcome>, error: string)
    ensures Reject(settled, [], error) == settled
  {
  }

  lemma RejectNext(settled: map<nat, Outcome>, waiters: seq<nat>, w: nat, error: string)
    ensures Reject(settled, waiters + [w], error) == Reject(settled, waiters, error)[w := Failed(error)]
  {
  }

  function Shut(t: Tcp, error: string): Tcp
  {
    t.(closed := true, error := Some(error), settled := Reject(t.settled, t.waiters, error), waiters := [])
  }

  const CONNECTION_CLOSED := "connection closed"

  function ErrorText(t: Tcp): string
  {
    if t.error.Some? then t.error.value else CONNECTION_CLOSED
  }

  function Step(t: Tcp, e: Event): Tcp
  {
    match e
    case Data(chunk) => Process(t.(buffer := t.buffer + chunk, received := t.received + chunk))
    case Recv =>
      if t.closed then t.(calls := t.calls + 1, settled := t.settled[t.calls := Failed(ErrorText(t))])
      else
        var c := ReadyFrame(t.buffer);
        if c.Some? then
          t.(calls := t.calls + 1, settled := t.settled[t.calls := Got(c.value.frame)], buffer := c.value.rest,
             taken := t.taken + 1)
        else t.(calls := t.calls + 1, waiters := t.waiters + [t.calls])
    case Closed => Shut(t, CONNECTION_CLOSED)
    case Broken(message) => Shut(t, message)
    case CloseHere => t.(closed := true)
  }

  function Run(t: Tcp, events: seq<Event>): Tcp
    decreases |events|
  {
    if events == [] then t else Run(Step(t, events[0]), events[1..])
  }

  // ---------------------------------------------------------------- which streams are safe

  /** No length in the stream goes on for 148 digits or more, wherever the chunks end. */
  ghost predicate HeadersShort(stream: bytes)
  {
    forall count: nat :: count <= |FramesOf(stream)| ==> Continuations(After(stream, count), 0) < 147
  }

  lemma {:induction false} MoreContinues(data: bytes, more: bytes, offset: nat)
    ensures Continuations(data, offset) <= Continuations(data + more, offset)
    decreases |data| - offset
  {
    if offset < |data| && data[offset] >= 128 {
      MoreContinues(data, more, offset + 1);
    }
  }

  lemma ShortSoFar(stream: bytes, more: bytes)
    requires HeadersShort(stream + more)
    ensures HeadersShort(stream)
  {
    hide FramesOf, After, Continuations;
    forall count: nat | count <= |FramesOf(stream)| ensures Continuations(After(stream, count), 0) < 147 {
      AfterAppend(stream, more, count);
      MoreContinues(After(stream, count), more, 0);
    }
  }

  // ---------------------------------------------------------------- what every run keeps

  /** The calls that wait, in order, and the settled ones are all the calls made. */
  ghost predicate Orderly(t: Tcp)
  {
    (forall i :: 0 <= i < |t.waiters| ==> t.waiters[i] < t.calls) &&
    (forall i, j :: 0 <= i < j < |t.waiters| ==> t.waiters[i] < t.waiters[j]) &&
    (forall k: nat :: k in t.settled <==> k < t.calls && k !in t.waiters)
  }

  /**
   * The first `taken` calls got the first `taken` frames of everything received, whatever the
   * chunks; what is buffered is what follows those frames; the calls after them wait in order or
   * were refused.
   */
  ghost predicate Fair(t: Tcp)
  {
    t.taken <= |FramesOf(t.received)| && t.buffer == After(t.received, t.taken) &&
    Consecutive(t.waiters, t.taken) && t.taken + |t.waiters| <= t.calls &&
    (!t.closed ==> t.taken + |t.waiters| == t.calls) &&
    (forall k: nat :: k in t.settled <==> k < t.calls && k !in t.waiters) &&
    (forall k <- t.settled :: k < t.taken ==> t.settled[k] == Got(FramesOf(t.received)[k])) &&
    (forall k <- t.settled :: k >= t.taken ==> t.settled[k].Failed?)
  }

  /** A call waits only while no complete frame is buffered. */
  ghost predicate NoneOverdue(t: Tcp)
  {
    t.waiters != [] ==> FrameAt(t.buffer).None?
  }

  /** On a safe stream the transport takes the frames that are there. */
  lemma FairTakes(t: Tcp)
    requires Fair(t) && HeadersShort(t.received)
    ensures TakeFrame(t.buffer) == FrameAt(t.buffer) && ReadyFrame(t.buffer) == FrameAt(t.buffer)
  {
    hide FramesOf, After, TakeFrame, ReadyFrame, FrameAt, Continuations;
    assert Continuations(After(t.received, t.taken), 0) < 147;
    ShortIsTaken(t.buffer);
  }

  lemma {:induction false} ProcessKeeps(t: Tcp)
    requires Fair(t) && HeadersShort(t.received)
    ensures Fair(Process(t)) && NoneOverdue(Process(t))
    decreases |t.waiters|
  {
    hide FrameAt, TakeFrame, ReadyFrame, Fair, HeadersShort, Consecutive;
    FairTakes(t);
    if t.waiters != [] && FrameAt(t.buffer).Some? {
      ServedKeeps(t);
      ProcessKeeps(GiveFirst(t, FrameAt(t.buffer).value));
    }
  }

  lemma ServedKeeps(t: Tcp)
    requires Fair(t) && t.waiters != [] && FrameAt(t.buffer).Some?
    ensures Fair(GiveFirst(t, FrameAt(t.buffer).value))
  {
    hide FrameAt, FramesOf, After;
    AfterNext(t.received, t.taken);
    assert forall k :: k in t.waiters <==> k == t.waiters[0] || k in t.waiters[1..] by {
      assert t.waiters == [t.waiters[0]] + t.waiters[1..];
    }
    assert t.waiters[0] == t.taken && t.waiters[0] !in t.waiters[1..];
  }

  lemma DataArrives(t: Tcp, chunk: bytes)
    requires Fair(t)
    ensures Fair(t.(buffer := t.buffer + chunk, received := t.received + chunk))
  {
    hide FrameAt, FramesOf, After;
    AfterAppend(t.received, chunk, t.taken);
    var next := t.(buffer := t.buffer + chunk, received := t.received + chunk);
    forall k <- t.settled | k < t.taken ensures t.settled[k] == Got(FramesOf(next.received)[k]) {
      assert FramesOf(t.received)[..t.taken][k] == FramesOf(next.received)[..t.taken][k];
    }
  }

  lemma StepKeeps(t: Tcp, e: Event)
    requires Fair(t) && NoneOverdue(t) && HeadersShort(Step(t, e).received)
    ensures Fair(Step(t, e)) && NoneOverdue(Step(t, e))
  {
    hide FrameAt, TakeFrame, ReadyFrame, FramesOf, After, Process, HeadersShort;
    match e
    case Data(chunk) =>
      DataArrives(t, chunk);
      ProcessKeeps(t.(buffer := t.buffer + chunk, received := t.received + chunk));
    case Recv => RecvKeeps(t);
    case _ =>
  }

  lemma RecvKeeps(t: Tcp)
    requires Fair(t) && NoneOverdue(t) && HeadersShort(t.received)
    ensures Fair(Step(t, Recv)) && NoneOverdue(Step(t, Recv))
  {
    hide FrameAt, ReadyFrame, FramesOf, After, HeadersShort;
    FairTakes(t);
    AfterNext(t.received, t.taken);
  }

  function Chunks(events: seq<Event>): bytes
  {
    if events == [] then [] else (if events[0].Data? then events[0].chunk else []) + Chunks(events[1..])
  }

  function Calls(events: seq<Event>): nat
  {
    if events == [] then 0 else (if events[0].Recv? then 1 else 0) + Calls(events[1..])
  }

  /** `received` is every chunk of the run in order, and `calls` counts its recv calls. */
  lemma {:induction false} RunRecords(t: Tcp, events: seq<Event>)
    ensures Run(t, events).received == t.received + Chunks(events) && Run(t, events).calls == t.calls + Calls(events)
    decreases |events|
  {
    hide TakeFrame, ReadyFrame, Process;
    if events != [] {
      RunRecords(Step(t, events[0]), events[1..]);
    }
  }

  lemma {:induction false} RunKeeps(t: Tcp, events: seq<Event>)
    requires Fair(t) && NoneOverdue(t) && HeadersShort(Run(t, events).received)
    ensures Fair(Run(t, events)) && NoneOverdue(Run(t, events))
    decreases |events|
  {
    hide Fair, NoneOverdue, Step, HeadersShort;
    if events != [] {
      var next := Step(t, events[0]);
      RunRecords(next, events[1..]);
      ShortSoFar(next.received, Chunks(events[1..]));
      StepKeeps(t, events[0]);
      RunKeeps(next, events[1..]);
    }
  }

  lemma InitFair()
    ensures Fair(INIT) && NoneOverdue(INIT)
  {
  }

  /** A frame handed out is the frame of that number in everything received. */
  ghost predicate Right(t: Tcp)
  {
    forall k <- t.settled :: t.settled[k].Got? ==>
      k < |FramesOf(t.received)| && t.settled[k].frame == FramesOf(t.received)[k]
  }

  /**
   * Reassembly, over every run on a stream of short headers: the i-th recv gets the i-th frame of
   * the bytes received if it gets any, the bytes of the frames handed out and the buffer make up
   * all that was received, and a call is left waiting only if no complete frame is buffered.
   */
  lemma Reassembly(events: seq<Event>)
    requires HeadersShort(Chunks(events))
    ensures var t := Run(INIT, events); Right(t) && t.received == Chunks(events)
    ensures var t := Run(INIT, events);
      t.taken <= |FramesOf(t.received)| &&
      exists consumed :: t.received == consumed + t.buffer && FramesOf(consumed) == FramesOf(t.received)[..t.taken]
    ensures var t := Run(INIT, events); t.waiters != [] ==> FrameAt(t.buffer).None?
  {
    hide FrameAt, FramesOf, After, Run, HeadersShort;
    var t := Run(INIT, events);
    RunRecords(INIT, events);
    assert [] + Chunks(events) == Chunks(events);
    RunKeeps(INIT, events) by { InitFair(); }
    ConsumedExactly(t.received, t.taken);
    var consumed := t.received[..|t.received| - |t.buffer|];
    assert t.received == consumed + t.buffer && FramesOf(consumed) == FramesOf(t.received)[..t.taken];
  }

  /**
   * While the connection is open, the state depends only on which bytes arrived and how many calls
   * were made, not on the chunks or on how arrivals and calls interleave.
   */
  lemma InterleavingIrrelevant(events: seq<Event>)
    requires !Run(INIT, events).closed && HeadersShort(Chunks(events))
    ensures var t := Run(INIT, events);
      t.received == Chunks(events) && t.calls == Calls(events) &&
      t.taken == Min(t.calls, |FramesOf(t.received)|) && t.buffer == After(t.received, t.taken) &&
      t.settled == (map k: nat | k < t.taken :: Got(FramesOf(t.received)[k])) && Consecutive(t.waiters, t.taken)
  {
    hide FrameAt, FramesOf, After, Run, HeadersShort;
    var t := Run(INIT, events);
    RunRecords(INIT, events);
    assert [] + Chunks(events) == Chunks(events);
    RunKeeps(INIT, events) by { InitFair(); }
    AfterNext(t.received, t.taken);
    forall k: nat ensures k in t.settled <==> k < t.taken {
      if t.taken <= k < t.calls {
        assert t.waiters[k - t.taken] == k;
      }
    }
  }

  // ---------------------------------------------------------------- and which are not

  /** A stream that stops inside a header of 147 digits so far: a waiter gets an empty frame, a new recv waits. */
  lemma LongHeaderCuts(header: bytes)
    requires |header| == 147 && Continuations(header, 0) >= 147
    ensures FrameAt(header).None? && TakeFrame(header) == Some(Cut([], header)) && ReadyFrame(header).None?
  {
    hide TakeFrame, ReadyFrame;
    LongHeaderEnds(header, 0);
    TakesWhatIsThere(header);
  }

  lemma {:induction false} LongHeaderEnds(header: bytes, offset: nat)
    requires |header| == 147 && offset + Continuations(header, offset) >= 147 && offset <= 147
    ensures ZeroFar(header, offset, 7 * offset) && ReadVarint(header, offset).next == 148
    decreases 147 - offset
  {
    if offset < 147 {
      LongHeaderEnds(header, offset + 1);
    }
  }

  function Recvs(count: nat): seq<Event> { seq(count, _ => Recv) }

  /** The numbers of the `count` calls from `from` on. */
  function Numbers(from: nat, count: nat): seq<nat> { seq(count, i requires 0 <= i => from + i) }

  /** While nothing is buffered every call waits. */
  lemma {:induction false} AllWait(t: Tcp, count: nat)
    requires t.buffer == [] && !t.closed
    ensures Run(t, Recvs(count)) == t.(calls := t.calls + count, waiters := t.waiters + Numbers(t.calls, count))
    decreases count
  {
    if count == 0 {
      assert t.waiters + Numbers(t.calls, 0) == t.waiters;
    } else {
      assert Recvs(count)[1..] == Recvs(count - 1);
      AllWait(Step(t, Recv), count - 1);
      assert t.waiters + [t.calls] + Numbers(t.calls + 1, count - 1) == t.waiters + Numbers(t.calls, count);
    }
  }

  /** The first place where a header is too long. */
  lemma {:induction false} FirstLong(stream: bytes, count: nat) returns (first: nat)
    requires count <= |FramesOf(stream)| && Continuations(After(stream, count), 0) >= 147
    ensures first <= |FramesOf(stream)| && Continuations(After(stream, first), 0) >= 147
    ensures forall k: nat :: k < first ==> Continuations(After(stream, k), 0) < 147
    decreases count
  {
    hide FramesOf, After, Continuations;
    if k: nat :| k < count && Continuations(After(stream, k), 0) >= 147 {
      first := FirstLong(stream, k);
    } else {
      first := count;
    }
  }

  lemma {:induction false} CutContinues(data: bytes, end: nat, offset: nat)
    requires offset <= end <= |data|
    ensures offset + Continuations(data[..end], offset) == Min(offset + Continuations(data, offset), end)
    decreases end - offset
  {
    if offset < end && data[offset] >= 128 {
      CutContinues(data, end, offset + 1);
    }
  }

  /** One recv more than there are frames in front of such a header, and a chunk that stops inside it. */
  function Misleading(begin: bytes, count: nat): seq<Event>
  {
    Recvs(count + 1) + [Data(begin)]
  }

  lemma MisleadingChunks(begin: bytes, count: nat)
    ensures Chunks(Misleading(begin, count)) == begin
  {
    ChunksOfRecvs(count + 1);
    ChunksSplit(Recvs(count + 1), [Data(begin)]);
    assert Chunks([Data(begin)][1..]) == [];
  }

  /** The chunk has arrived, and all the calls wait for it. */
  function Arrived(begin: bytes, count: nat): Tcp
  {
    INIT.(calls := count, waiters := Numbers(0, count), buffer := begin, received := begin)
  }

  lemma MisleadingRun(begin: bytes, count: nat)
    ensures Run(INIT, Misleading(begin, count)) == Process(Arrived(begin, count + 1))
  {
    hide Process;
    var waiting := INIT.(calls := count + 1, waiters := Numbers(0, count + 1));
    AllWait(INIT, count + 1);
    assert [] + Numbers(0, count + 1) == Numbers(0, count + 1);
    assert Run(INIT, Recvs(count + 1)) == waiting;
    RunSplit(INIT, Recvs(count + 1), [Data(begin)]);
    OneStep(waiting, Data(begin));
    DataStep(waiting, begin);
  }

  lemma DataStep(t: Tcp, chunk: bytes)
    requires t.buffer == [] && t.received == []
    ensures Step(t, Data(chunk)) == Process(t.(buffer := chunk, received := chunk))
  {
    hide Process;
    assert t.buffer + chunk == chunk && t.received + chunk == chunk;
  }

  lemma ArrivedFair(begin: bytes, count: nat)
    ensures Fair(Arrived(begin, count))
  {
    hide FramesOf, FrameAt;
    forall k: nat | k < count ensures k in Numbers(0, count) {
      assert Numbers(0, count)[k] == k;
    }
  }

  lemma OneStep(t: Tcp, e: Event)
    ensures Run(t, [e]) == Step(t, e)
  {
    hide Step;
    assert Run(Step(t, e), [e][1..]) == Step(t, e);
  }

  /** Waiters get the frames that are there, and the one behind them an empty frame cut from the header. */
  lemma {:induction false} LastIsWrong(t: Tcp)
    requires Fair(t) && t.waiters != [] && t.taken + |t.waiters| == |FramesOf(t.received)| + 1
    requires forall k: nat :: k < |FramesOf(t.received)| ==> Continuations(After(t.received, k), 0) < 147
    requires var left := After(t.received, |FramesOf(t.received)|); |left| == 147 && Continuations(left, 0) >= 147
    ensures !Right(Process(t))
    decreases |t.waiters|
  {
    hide FrameAt, TakeFrame, ReadyFrame, FramesOf, After, Continuations;
    AfterNext(t.received, t.taken);
    if |t.waiters| == 1 {
      LongHeaderCuts(t.buffer);
      var next := GiveFirst(t, Cut([], t.buffer));
      assert t.waiters[0] == t.taken && Process(t) == next;
      assert t.taken in next.settled && next.settled[t.taken] == Got([]);
    } else {
      ShortIsTaken(t.buffer);
      ServedKeeps(t);
      LastIsWrong(GiveFirst(t, FrameAt(t.buffer).value));
    }
  }

  /** On a stream that is not safe some chunks and calls go wrong: a recv gets a frame that is not there. */
  lemma LongHeaderBreaks(stream: bytes) returns (events: seq<Event>)
    requires !HeadersShort(stream)
    ensures Chunks(events) <= stream && !Right(Run(INIT, events))
  {
    var count: nat :| count <= |FramesOf(stream)| && Continuations(After(stream, count), 0) >= 147;
    hide *;
    var first := FirstLong(stream, count);
    var begin := LongBegin(stream, first);
    events := Misleading(begin, first);
    MisleadingChunks(begin, first);
    MisleadingRun(begin, first);
    WaitersMisled(begin, first);
  }

  lemma WaitersMisled(begin: bytes, count: nat)
    requires |FramesOf(begin)| == count
    requires |After(begin, count)| == 147 && Continuations(After(begin, count), 0) >= 147
    requires forall k: nat :: k < count ==> Continuations(After(begin, k), 0) < 147
    ensures !Right(Process(Arrived(begin, count + 1)))
  {
    ArrivedFair(begin, count + 1);
    hide FramesOf, After, Continuations, Process, Right, Fair;
    LastIsWrong(Arrived(begin, count + 1));
  }

  /** The frames in front of the first header that is too long, and 147 digits of that header. */
  lemma LongBegin(stream: bytes, first: nat) returns (begin: bytes)
    requires first <= |FramesOf(stream)| && Continuations(After(stream, first), 0) >= 147
    requires forall k: nat :: k < first ==> Continuations(After(stream, k), 0) < 147
    ensures begin <= stream && |FramesOf(begin)| == first
    ensures |After(begin, first)| == 147 && Continuations(After(begin, first), 0) >= 147
    ensures forall k: nat :: k < first ==> Continuations(After(begin, k), 0) < 147
  {
    hide FrameAt, TakeFrame, ReadyFrame, FramesOf, After, Continuations;
    var left := After(stream, first);
    LongEnough(left);
    var header, more := left[..147], left[147..];
    ConsumedExactly(stream, first);
    var consumed := stream[..|stream| - |left|];
    begin := consumed + header;
    assert left == header + more && stream == begin + more;
    Begins(consumed, header, first, stream, more);
    LongHeaderCuts(header);
    AfterNext(begin, first);
  }

  lemma LongEnough(data: bytes)
    requires Continuations(data, 0) >= 147
    ensures |data| >= 147 && Continuations(data[..147], 0) >= 147
  {
    ContinuesInside(data, 0);
    CutContinues(data, 147, 0);
  }

  lemma {:induction false} ContinuesInside(data: bytes, offset: nat)
    requires offset <= |data|
    ensures offset + Continuations(data, offset) <= |data|
    decreases |data| - offset
  {
    if offset < |data| && data[offset] >= 128 {
      ContinuesInside(data, offset + 1);
    }
  }

  /** Frames consumed, then 147 digits of a length: the frames are still the same, and the digits are left. */
  lemma Begins(consumed: bytes, header: bytes, count: nat, stream: bytes, more: bytes)
    requires stream == consumed + header + more && count <= |FramesOf(stream)| && After(stream, count) == header + more
    requires FramesOf(consumed) == FramesOf(stream)[..count] && After(consumed, count) == []
    requires forall k: nat :: k < count ==> Continuations(After(stream, k), 0) < 147
    ensures count <= |FramesOf(consumed + header)| && After(consumed + header, count) == header
    ensures forall k: nat :: k < count ==> Continuations(After(consumed + header, k), 0) < 147
  {
    hide FramesOf, After, Continuations;
    AfterAppend(consumed, header, count);
    assert [] + header == header;
    forall k: nat | k < count ensures Continuations(After(consumed + header, k), 0) < 147 {
      AfterAppend(consumed + header, more, k);
      MoreContinues(After(consumed + header, k), more, 0);
    }
  }

  lemma {:induction false} RunSplit(t: Tcp, a: seq<Event>, b: seq<Event>)
    ensures Run(t, a + b) == Run(Run(t, a), b)
    decreases |a|
  {
    hide Step;
    if a == [] {
      assert a + b == b;
    } else {
      assert (a + b)[1..] == a[1..] + b;
      RunSplit(Step(t, a[0]), a[1..], b);
    }
  }

  lemma {:induction false} ChunksSplit(a: seq<Event>, b: seq<Event>)
    ensures Chunks(a + b) == Chunks(a) + Chunks(b)
    decreases |a|
  {
    if a == [] {
      assert a + b == b;
    } else {
      assert (a + b)[1..] == a[1..] + b;
      ChunksSplit(a[1..], b);
    }
  }

  lemma {:induction false} ChunksOfRecvs(count: nat)
    ensures Chunks(Recvs(count)) == []
  {
    if count > 0 {
      assert Recvs(count)[1..] == Recvs(count - 1);
      ChunksOfRecvs(count - 1);
    }
  }

  /**
   * The exact condition: however a stream is cut and called for, every frame handed out is the
   * right one, if and only if no header of the stream has 147 digits that are not its last.
   */
  lemma ReassemblyIff(stream: bytes)
    ensures (forall events :: Chunks(events) <= stream ==> Right(Run(INIT, events))) <==> HeadersShort(stream)
  {
    hide HeadersShort, Right, Run, Chunks;
    if HeadersShort(stream) {
      forall events | Chunks(events) <= stream ensures Right(Run(INIT, events)) {
        assert stream == Chunks(events) + stream[|Chunks(events)|..];
        ShortSoFar(Chunks(events), stream[|Chunks(events)|..]);
        Reassembly(events);
      }
    } else {
      var events := LongHeaderBreaks(stream);
    }
  }

  // ---------------------------------------------------------------- settled calls

  lemma {:induction false} ProcessOrderly(t: Tcp)
    requires Orderly(t)
    ensures Orderly(Process(t)) && (t.waiters == [] ==> Process(t) == t)
    ensures forall k <- t.settled :: k in Process(t).settled && Process(t).settled[k] == t.settled[k]
    decreases |t.waiters|
  {
    hide TakeFrame, ReadyFrame, Orderly;
    var c := TakeFrame(t.buffer);
    if t.waiters != [] && c.Some? {
      FirstServed(t, c.value);
      ProcessOrderly(GiveFirst(t, c.value));
    }
  }

  lemma FirstServed(t: Tcp, c: Cut)
    requires Orderly(t) && t.waiters != []
    ensures Orderly(GiveFirst(t, c))
    ensures forall k <- t.settled ::
      k in GiveFirst(t, c).settled && GiveFirst(t, c).settled[k] == t.settled[k]
  {
    assert forall k :: k in t.waiters <==> k == t.waiters[0] || k in t.waiters[1..] by {
      assert t.waiters == [t.waiters[0]] + t.waiters[1..];
    }
  }

  lemma StepSettles(t: Tcp, e: Event)
    requires Orderly(t)
    ensures Orderly(Step(t, e))
    ensures forall k <- t.settled :: k in Step(t, e).settled && Step(t, e).settled[k] == t.settled[k]
    ensures t.closed && t.waiters == [] ==> Step(t, e).closed && Step(t, e).waiters == [] && Step(t, e).taken == t.taken
  {
    hide TakeFrame, ReadyFrame, Process;
    if e.Data? {
      ProcessOrderly(t.(buffer := t.buffer + e.chunk, received := t.received + e.chunk));
    }
  }

  /**
   * On any stream at all, a settled call never settles again, and after the peer has closed nobody
   * waits any more.
   */
  lemma {:induction false} SettledForGood(t: Tcp, events: seq<Event>)
    requires Orderly(t)
    ensures Orderly(Run(t, events))
    ensures forall k <- t.settled :: k in Run(t, events).settled && Run(t, events).settled[k] == t.settled[k]
    ensures var r := Run(t, events); t.closed && t.waiters == [] ==> r.closed && r.waiters == [] && r.taken == t.taken
    decreases |events|
  {
    hide Orderly, Step;
    if events != [] {
      StepSettles(t, events[0]);
      SettledForGood(Step(t, events[0]), events[1..]);
    }
  }

  lemma InitOrderly()
    ensures Orderly(INIT)
  {
  }

  // ---------------------------------------------------------------- refused calls

  predicate Closing(e: Event) { e.Closed? || e.Broken? || e.CloseHere? }

  /** What the last close or error of the socket said; closing on this side says nothing. */
  function LastError(events: seq<Event>): Option<string>
  {
    if events == [] then None
    else
      var later := LastError(events[1..]);
      if later.Some? then later
      else
        match events[0]
        case Closed => Some("connection closed")
        case Broken(message) => Some(message)
        case _ => None
  }

  function Excuse(events: seq<Event>): string
  {
    if LastError(events).Some? then LastError(events).value else "connection closed"
  }

  lemma {:induction false} ClosedSince(t: Tcp, events: seq<Event>)
    ensures Run(t, events).closed <==> t.closed || exists e <- events :: Closing(e)
    ensures Run(t, events).error == if LastError(events).Some? then LastError(events) else t.error
    decreases |events|
  {
    hide TakeFrame, ReadyFrame, Process;
    if events != [] {
      ClosedSince(Step(t, events[0]), events[1..]);
      if e :| e in events && Closing(e) && e != events[0] {
        assert e in events[1..];
      }
      if e :| e in events[1..] && Closing(e) {
        assert e in events;
      }
      assert events[0] in events;
    }
  }

  /**
   * In every run a recv is refused exactly if something has closed the transport before it, frame or
   * no frame, and with the last error or close of the socket.
   */
  lemma RefusedRecv(events: seq<Event>)
    ensures var t, next := Run(INIT, events), Step(Run(INIT, events), Recv);
      if exists e <- events :: Closing(e) then
        next == t.(calls := t.calls + 1, settled := t.settled[t.calls := Failed(Excuse(events))])
      else t.calls in next.waiters || (t.calls in next.settled && next.settled[t.calls].Got?)
  {
    hide Run, ReadyFrame;
    ClosedSince(INIT, events);
  }

  /**
   * In every run a close or an error of the socket refuses everyone who waits, with what it says; a
   * close on this side lets them wait, and bytes that come in refuse nobody.
   */
  lemma RefusedWaiters(events: seq<Event>, e: Event)
    requires !e.Recv?
    ensures var t, next := Run(INIT, events), Step(Run(INIT, events), e);
      forall k :: k in next.settled && k !in t.settled ==>
        if e.Data? then next.settled[k].Got?
        else k in t.waiters && next.settled[k] == Failed(Excuse(events + [e]))
    ensures e.Closed? || e.Broken? ==>
      Step(Run(INIT, events), e).waiters == [] &&
      forall k <- Run(INIT, events).waiters :: k in Step(Run(INIT, events), e).settled
    ensures e.CloseHere? ==> Step(Run(INIT, events), e) == Run(INIT, events).(closed := true)
  {
    hide Run, TakeFrame, ReadyFrame;
    var t := Run(INIT, events);
    LastSnoc(events, e);
    if e.Data? {
      hide Process;
      ProcessGives(t.(buffer := t.buffer + e.chunk, received := t.received + e.chunk));
    }
  }

  lemma {:induction false} ProcessGives(t: Tcp)
    ensures forall k :: k in Process(t).settled && k !in t.settled ==> Process(t).settled[k].Got?
    ensures forall k <- t.settled ::
      k in Process(t).settled && (Process(t).settled[k] == t.settled[k] || Process(t).settled[k].Got?)
    decreases |t.waiters|
  {
    hide TakeFrame;
    var c := TakeFrame(t.buffer);
    if t.waiters != [] && c.Some? {
      ProcessGives(GiveFirst(t, c.value));
    }
  }

  lemma {:induction false} LastSnoc(events: seq<Event>, e: Event)
    ensures e.Closed? ==> LastError(events + [e]) == Some("connection closed")
    ensures e.Broken? ==> LastError(events + [e]) == Some(e.message)
    ensures !e.Closed? && !e.Broken? ==> LastError(events + [e]) == LastError(events)
  {
    if events != [] {
      assert (events + [e])[1..] == events[1..] + [e];
      LastSnoc(events[1..], e);
    } else {
      assert events + [e] == [e] && [e][1..] == [];
    }
  }

  // ---------------------------------------------------------------- both ends

  function Packet(data: bytes): bytes { Leb(|data|) + data }

  /** What becomes of a send: the bytes handed to the socket, or the reason for refusing them. */
  datatype Sending = Written(packet: bytes) | Refused(error: string)

  function Packets(messages: seq<bytes>): bytes
  {
    if messages == [] then [] else Packet(messages[0]) + Packets(messages[1..])
  }

  lemma PacketCut(data: bytes, rest: bytes)
    requires |data| < TWO_53
    ensures FrameAt(Packet(data) + rest) == Some(Cut(data, rest)) && Continuations(Packet(data) + rest, 0) < 10
  {
    hide ReadVarint, ReadNumber, Leb;
    VarintRoundTrip(|data|, [], data + rest);
    NumberRoundTrip(|data|, [], data + rest);
    assert [] + Leb(|data|) + (data + rest) == Packet(data) + rest;
  }

  predicate Sendable(messages: seq<bytes>)
  {
    forall m <- messages :: |m| < TWO_53
  }

  lemma FirstPacket(messages: seq<bytes>)
    requires messages != [] && Sendable(messages)
    ensures Sendable(messages[1..])
    ensures FrameAt(Packets(messages)) == Some(Cut(messages[0], Packets(messages[1..])))
  {
    PacketCut(messages[0], Packets(messages[1..]));
    hide FrameAt, Packet;
  }

  lemma {:induction false} SentHeaders(messages: seq<bytes>, count: nat)
    requires Sendable(messages) && count <= |FramesOf(Packets(messages))|
    ensures Continuations(After(Packets(messages), count), 0) < 147
    decreases count
  {
    hide FrameAt, Packet, Continuations, FramesOf, After;
    NoFrame(Packets(messages));
    if messages == [] {
      NoFrame([]);
      NoContinuation();
    } else {
      PacketCut(messages[0], Packets(messages[1..]));
      if count > 0 {
        FirstPacket(messages);
        FramesCons(Packets(messages), count - 1);
        SentHeaders(messages[1..], count - 1);
      }
    }
  }

  /** What `send` writes, message after message, is what the other end takes apart, with nothing left over. */
  lemma {:induction false} SentIsFramed(messages: seq<bytes>)
    requires Sendable(messages)
    ensures FramesOf(Packets(messages)) == messages && After(Packets(messages), |messages|) == []
    ensures HeadersShort(Packets(messages))
  {
    hide FrameAt, Packet, Continuations, FramesOf, After;
    forall count: nat | count <= |FramesOf(Packets(messages))|
      ensures Continuations(After(Packets(messages), count), 0) < 147
    {
      SentHeaders(messages, count);
    }
    SentComesApart(messages);
  }

  lemma {:induction false} SentComesApart(messages: seq<bytes>)
    requires Sendable(messages)
    ensures FramesOf(Packets(messages)) == messages && After(Packets(messages), |messages|) == []
  {
    if messages == [] {
      NoFrame([]);
    } else {
      hide *;
      FirstPacket(messages);
      SentComesApart(messages[1..]);
      FramesCons(Packets(messages), |messages[1..]|);
      assert messages == [messages[0]] + messages[1..];
    }
  }

  lemma NoContinuation()
    ensures Continuations([], 0) == 0
  {
  }

  // ---------------------------------------------------------------- the class

  class TcpTransport {
    var buffer: bytes
    var waiters: seq<nat>
    var closed: bool
    var error: Option<string>
    var calls: nat
    var settled: map<nat, Outcome>
    ghost var received: bytes
    ghost var taken: nat

    ghost function State(): Tcp
      reads this
    {
      Tcp(buffer, waiters, closed, error, calls, settled, received, taken)
    }

    constructor ()
      ensures State() == INIT
    {
      buffer, waiters, closed, error, calls, settled := [], [], false, None, 0, map[];
      received, taken := [], 0;
    }

    /** One turn of the loop of `processBuffer`: cuts a frame unless `buffer.length < totalLen`. */
    method CutFrame() returns (frame: Option<bytes>)
      modifies this`buffer
      ensures var c := TakeFrame(old(buffer));
        if c.None? then frame.None? && buffer == old(buffer) else frame == Some(c.value.frame) && buffer == c.value.rest
    {
      if buffer == [] {
        return None;
      }
      var buf := new Buf(buffer, 0);
      hide ReadNumber;
      var length := DecodeVarint(buf);
      var headerLen := buf.offset;
      match length {
        case NaN =>
          // nothing is less than NaN, and slices take it for 0
          return Some([]);
        case Huge => return None;
        case Exact(n) =>
          var totalLen := headerLen + n;
          if |buffer| < totalLen {
            return None;
          }
          frame := Some(buffer[headerLen..totalLen]);
          buffer := buffer[totalLen..];
      }
    }

    /** The attempt `recv` makes itself: takes a frame if `buffer.length >= totalLen`. */
    method TakeReady() returns (frame: Option<bytes>)
      modifies this`buffer
      ensures var c := ReadyFrame(old(buffer));
        if c.None? then frame.None? && buffer == old(buffer) else frame == Some(c.value.frame) && buffer == c.value.rest
    {
      if buffer == [] {
        return None;
      }
      var buf := new Buf(buffer, 0);
      hide ReadNumber;
      var length := DecodeVarint(buf);
      var headerLen := buf.offset;
      match length {
        case Exact(n) =>
          var totalLen := headerLen + n;
          if |buffer| >= totalLen {
            frame := Some(buffer[headerLen..totalLen]);
            buffer := buffer[totalLen..];
            return;
          }
        case _ =>
          // at least NaN is nothing either
      }
      return None;
    }

    method ProcessBuffer()
      modifies this
      ensures State() == Process(old(State()))
    {
      hide TakeFrame, ReadyFrame;
      while waiters != []
        invariant Process(State()) == Process(old(State()))
        decreases |waiters|
      {
        var frame := CutFrame();
        if frame.None? {
          return;
        }
        settled := settled[waiters[0] := Got(frame.value)];
        waiters := waiters[1..];
        taken := taken + 1;
      }
    }

    method OnData(chunk: bytes)
      modifies this
      ensures State() == Step(old(State()), Data(chunk))
    {
      hide Process;
      buffer := buffer + chunk;
      received := received + chunk;
      ProcessBuffer();
    }

    method RejectWaiters(message: string)
      modifies this
      ensures State() == Shut(old(State()), message)
    {
      hide Reject;
      closed, error := true, Some(message);
      RejectNone(settled, message);
      for i := 0 to |waiters|
        invariant State() == old(State()).(closed := true, error := Some(message), settled := settled)
        invariant settled == Reject(old(settled), waiters[..i], message)
      {
        RejectNext(old(settled), waiters[..i], waiters[i], message);
        settled := settled[waiters[i] := Failed(message)];
        assert waiters[..i + 1] == waiters[..i] + [waiters[i]];
      }
      assert waiters[..|waiters|] == waiters;
      waiters := [];
    }

    method OnClose()
      modifies this
      ensures State() == Step(old(State()), Closed)
    {
      RejectWaiters(CONNECTION_CLOSED);
    }

    method OnError(message: string)
      modifies this
      ensures State() == Step(old(State()), Broken(message))
    {
      RejectWaiters(message);
    }

    method Close()
      modifies this
      ensures State() == Step(old(State()), CloseHere)
    {
      if !closed {
        closed := true;
      }
    }

    /** The number of the call; its outcome is in `settled` now or later. */
    method ReceiveNext() returns (call: nat)
      modifies this
      ensures call == old(calls) && State() == Step(old(State()), Recv)
    {
      call := calls;
      calls := calls + 1;
      if closed {
        settled := settled[call := Failed(if error.Some? then error.value else CONNECTION_CLOSED)];
        return;
      }
      if |buffer| > 0 {
        var frame := TakeReady();
        if frame.Some? {
          settled := settled[call := Got(frame.value)];
          taken := taken + 1;
          return;
        }
      }
      waiters := waiters + [call];
    }

    /** The bytes handed to the socket, or the error thrown. */
    method Send(data: bytes) returns (r: Sending)
      ensures r == if closed then Refused(ErrorText(State())) else Written(Packet(data))
    {
      if closed {
        return Refused(if error.Some? then error.value else CONNECTION_CLOSED);
      }
      var lenBuf := new WriteBuf(256);
      EncodeVarint(|data|, lenBuf);
      var lenBytes := lenBuf.ToUint8Array();
      assert [] + Leb(|data|) == Leb(|data|);
      return Written(lenBytes + data);
    }
  }
}
