/**
  Runs of a session, event by event, that end without delivering what was due: the inputs on which
  the promises of the theorems stop.
 */
module SessionRuns {
  import opened Buckets
  import opened UserHandler
  import opened Buffers
  import opened Session
  import opened SessionTheorems
  import opened Sockets

  const HELLO_BYTES: seq<byte> := [5, 1, 0]
  const OFFERED := Hello(3, false, 5, [NO_AUTHENTICATION])

  /** CONNECT and BIND to port 80 of 127.0.0.1. */
  const CONNECT_BYTES: seq<byte> := [5, 1, 0, 1, 127, 0, 0, 1, 0, 80]
  const BIND_BYTES: seq<byte> := [5, 2, 0, 1, 127, 0, 0, 1, 0, 80]
  const CONNECT := Request(10, false, 5, 1, 1, false, 0)
  const BIND := Request(10, false, 5, 2, 1, false, 0)

  const HELLO_READ := ClientRead(Received(HELLO_BYTES), OFFERED, INITIAL)
  const CONNECT_READ := ClientRead(Received(CONNECT_BYTES), CONNECT, INITIAL)
  const BIND_READ := ClientRead(Received(BIND_BYTES), BIND, INITIAL)
  const SERVER_READY := ServerWrite(Sent(1), INITIAL, false, 0)

  /** The socket of the client takes n bytes. */
  function Takes(n: nat): Event { ClientWrite(Sent(n), INITIAL) }

  lemma OneMoreEvent(cap: nat, es: seq<Event>, s: State, e: Event)
    requires Reached(cap, es, s) && Enabled(s, e)
    ensures Reached(cap, es + [e], Step(s, e))
  {
    hide Step, Enabled, Init;
    assert (es + [e])[..|es|] == es && Next(s, e, Step(s, e));
  }

  /** What the states of these runs have in common, with so many bytes for the client. */
  predicate Quiet(s: State, cap: nat, out: seq<byte>) {
    && s.outcome.Running? && s.started && s.authMethod == NO_AUTHENTICATION && s.client.OPEN?
    && s.input == EmptyBuf(cap) && s.output == Buf(cap, 0, out) && s.bytes == |out|
  }

  // ---------------------------------------------------------------- up to the request

  predicate Announcing(s: State, cap: nat) {
    && Quiet(s, cap, HelloReply(NO_AUTHENTICATION)) && s.phase.AUTH_METHOD_ANNOUNCEMENT?
    && s.clientInterest == OP_WRITE && s.server.INVALID? && s.h.toClient == []
  }

  predicate Asking(s: State, cap: nat) {
    && Quiet(s.(bytes := 0), cap, []) && s.phase.REQUEST?
    && s.clientInterest == OP_READ && s.server.INVALID? && s.h.toClient == HelloReply(NO_AUTHENTICATION)
  }

  lemma HelloStep(cap: nat)
    requires cap >= 3
    ensures Enabled(Init(cap), HELLO_READ) && Announcing(Step(Init(cap), HELLO_READ), cap)
  {
    RunsAreSound([]);
    ChooseIsBest([NO_AUTHENTICATION]);
    var s := HandleFirst(ClientGot(Init(cap), HELLO_BYTES));
    assert s.input == Buf(cap, 0, HELLO_BYTES);
    assert HelloRead(s, OFFERED).1.AUTH_METHOD_ANNOUNCEMENT?;
  }

  lemma AnnouncedStep(s: State, cap: nat)
    requires Announcing(s, cap)
    ensures Enabled(s, Takes(2)) && Asking(Step(s, Takes(2)), cap)
  {
    RunsAreSound([]);
  }

  lemma AsksAfterGreeting(cap: nat)
    requires cap >= 3
    ensures exists s :: Reached(cap, [HELLO_READ, Takes(2)], s) && Asking(s, cap)
  {
    hide Step, Enabled, Announcing, Asking;
    assert Run(Init(cap), [], Init(cap));
    HelloStep(cap);
    OneMoreEvent(cap, [], Init(cap), HELLO_READ);
    var s := Step(Init(cap), HELLO_READ);
    AnnouncedStep(s, cap);
    OneMoreEvent(cap, [HELLO_READ], s, Takes(2));
    assert [] + [HELLO_READ] == [HELLO_READ] && [HELLO_READ] + [Takes(2)] == [HELLO_READ, Takes(2)];
  }

  // ---------------------------------------------------------------- a refusal cut short

  predicate Refusing(s: State, cap: nat) {
    && Quiet(s, cap, RequestReply(COMMAND_NOT_SUPPORTED)) && s.phase.REQUEST_ERROR?
    && s.clientInterest == OP_WRITE && s.rep == COMMAND_NOT_SUPPORTED && s.h.toClient == HelloReply(NO_AUTHENTICATION)
  }

  lemma BindStep(s: State, cap: nat)
    requires Asking(s, cap) && cap >= 10
    ensures Enabled(s, BIND_READ) && Refusing(Step(s, BIND_READ), cap)
  {
    RunsAreSound([]);
    var got := ClientGot(s, BIND_BYTES);
    assert got.input == Buf(cap, 0, BIND_BYTES);
    var (s', next) := RequestRead(got, BIND);
    assert next.REQUEST_ERROR? && s'.input == EmptyBuf(cap);
    assert RequestReply(COMMAND_NOT_SUPPORTED)[0..10] == RequestReply(COMMAND_NOT_SUPPORTED);
  }

  lemma CutStep(s: State, cap: nat, n: nat)
    requires Refusing(s, cap) && 0 < n < 10
    ensures Enabled(s, Takes(n)) && Step(s, Takes(n)).outcome.Finished?
    ensures Step(s, Takes(n)).h.toClient == HelloReply(NO_AUTHENTICATION) + RequestReply(COMMAND_NOT_SUPPORTED)[..n]
  {
    RunsAreSound([]);
  }

  /** A client that asks for BIND is sent as little of its refusal as the first send happens to take,
      and then the session is over. */
  lemma RequestErrorCut(cap: nat, n: nat)
    requires cap >= 10 && 0 < n < 10
    ensures exists s :: Reached(cap, [HELLO_READ, Takes(2), BIND_READ, Takes(n)], s) && s.outcome.Finished?
                        && s.h.toClient == HelloReply(NO_AUTHENTICATION) + RequestReply(COMMAND_NOT_SUPPORTED)[..n]
  {
    hide Step, Enabled, Asking, Refusing;
    AsksAfterGreeting(cap);
    var es := [HELLO_READ, Takes(2)];
    var s :| Reached(cap, es, s) && Asking(s, cap);
    BindStep(s, cap);
    OneMoreEvent(cap, es, s, BIND_READ);
    var t := Step(s, BIND_READ);
    CutStep(t, cap, n);
    OneMoreEvent(cap, es + [BIND_READ], t, Takes(n));
    assert es + [BIND_READ] + [Takes(n)] == [HELLO_READ, Takes(2), BIND_READ, Takes(n)];
  }

  // ---------------------------------------------------------------- a relay dropped while flushing

  predicate Connecting(s: State, cap: nat) {
    && Quiet(s.(bytes := 0), cap, []) && s.phase.IP_CONNECT? && s.server.OPEN? && s.serverInterest == OP_WRITE
  }

  predicate Replying(s: State, cap: nat) {
    && Quiet(s, cap, RequestReply(SUCCESSFUL)) && s.phase.REQUEST_SUCCESSFUL? && s.server.OPEN?
    && s.clientInterest == OP_WRITE && s.rep == SUCCESSFUL
  }

  predicate Forwarding(s: State, cap: nat) {
    && Quiet(s.(bytes := 0), cap, []) && s.phase.FORWARDING? && s.server.OPEN?
    && s.clientInterest == OP_READ && s.serverInterest == OP_READ
  }

  lemma ConnectStep(s: State, cap: nat)
    requires Asking(s, cap) && cap >= 10
    ensures Enabled(s, CONNECT_READ) && Connecting(Step(s, CONNECT_READ), cap)
  {
    RunsAreSound([]);
    var got := ClientGot(s, CONNECT_BYTES);
    assert got.input == Buf(cap, 0, CONNECT_BYTES);
    var (s', next) := RequestRead(got, CONNECT);
    assert next.IP_CONNECT? && s'.input == EmptyBuf(cap);
  }

  lemma ServerStep(s: State, cap: nat)
    requires Connecting(s, cap) && cap >= 10
    ensures Enabled(s, SERVER_READY) && Replying(Step(s, SERVER_READY), cap)
  {
    RunsAreSound([]);
    assert RequestReply(SUCCESSFUL)[0..10] == RequestReply(SUCCESSFUL);
  }

  lemma ReplyStep(s: State, cap: nat)
    requires Replying(s, cap) && cap >= 10
    ensures Enabled(s, Takes(10)) && Forwarding(Step(s, Takes(10)), cap)
  {
    RunsAreSound([]);
  }

  /** The other side reaches its end of stream. */
  lemma EndStep(s: State, cap: nat, onClient: bool)
    requires Forwarding(s, cap) && cap > 0
    ensures var e := ReadOn(!onClient, Received([]));
            Enabled(s, e) && Closy(Step(s, e), onClient) && ReadBuffer(Step(s, e), onClient) == EmptyBuf(cap)
  {
    RunsAreSound([]);
  }

  function RelayRun(onClient: bool, data: seq<byte>): seq<Event> {
    [HELLO_READ, Takes(2), CONNECT_READ, SERVER_READY, Takes(10)] + [ReadOn(!onClient, Received([]))]
    + [ReadOn(onClient, Received(data))]
  }

  lemma ForwardsAfterReply(cap: nat)
    requires cap >= 10
    ensures exists s :: && Reached(cap, [HELLO_READ, Takes(2), CONNECT_READ, SERVER_READY, Takes(10)], s)
                        && Forwarding(s, cap)
  {
    hide Step, Enabled, Asking, Connecting, Replying, Forwarding;
    AsksAfterGreeting(cap);
    var es := [HELLO_READ, Takes(2)];
    var s :| Reached(cap, es, s) && Asking(s, cap);
    ConnectStep(s, cap);
    OneMoreEvent(cap, es, s, CONNECT_READ);
    var t := Step(s, CONNECT_READ);
    ServerStep(t, cap);
    OneMoreEvent(cap, es + [CONNECT_READ], t, SERVER_READY);
    var u := Step(t, SERVER_READY);
    ReplyStep(u, cap);
    OneMoreEvent(cap, es + [CONNECT_READ] + [SERVER_READY], u, Takes(10));
    assert es + [CONNECT_READ] + [SERVER_READY] + [Takes(10)]
        == [HELLO_READ, Takes(2), CONNECT_READ, SERVER_READY, Takes(10)];
  }

  /** One side ends, the other one then sends a bufferful at once: the next readable event on it drops the
      session although every byte of it could still be relayed. */
  lemma RelayIsDropped(cap: nat, onClient: bool, data: seq<byte>, r: Recv)
    requires cap >= 10 && |data| == cap
    ensures exists s :: Reached(cap, RelayRun(onClient, data), s) && Closy(s, onClient)
                        && Enabled(s, ReadOn(onClient, r)) && Step(s, ReadOn(onClient, r)).outcome.Aborted?
  {
    hide Step, Enabled, Forwarding, Closy;
    ForwardsAfterReply(cap);
    var es := [HELLO_READ, Takes(2), CONNECT_READ, SERVER_READY, Takes(10)];
    var s :| Reached(cap, es, s) && Forwarding(s, cap);
    var e := ReadOn(!onClient, Received([]));
    EndStep(s, cap, onClient);
    OneMoreEvent(cap, es, s, e);
    var t := Step(s, e);
    ReachedInv(cap, es + [e], t);
    FlushCloserReadsOn(t, onClient, data, r);
    OneMoreEvent(cap, es + [e], t, ReadOn(onClient, Received(data)));
  }

  // ---------------------------------------------------------------- a handshake dropped

  /** The method reply waits to be sent and the input buffer is full to its end. */
  predicate AnnouncingWithTail(s: State) {
    && s.phase.AUTH_METHOD_ANNOUNCEMENT? && s.outcome.Running? && s.started && s.authMethod == USER_PASSWORD
    && s.clientInterest == OP_WRITE && s.bytes == 2 && |s.output.content| == 2 && !s.input.CanWrite()
  }

  function HelloWithTail(data: seq<byte>, n: nat): Event {
    ClientRead(Received(data), Hello(n, false, 5, [USER_PASSWORD]), INITIAL)
  }

  lemma TailedHelloStep(cap: nat, data: seq<byte>, n: nat)
    requires cap >= 2 && |data| == cap && n < cap
    ensures var e := HelloWithTail(data, n); Enabled(Init(cap), e) && AnnouncingWithTail(Step(Init(cap), e))
  {
    RunsAreSound([]);
    ChooseIsBest([USER_PASSWORD]);
    var s := HandleFirst(ClientGot(Init(cap), data));
    assert s.input == Buf(cap, 0, data);
    assert HelloRead(s, Hello(n, false, 5, [USER_PASSWORD])).1.AUTH_METHOD_ANNOUNCEMENT?;
  }

  lemma TailStaysBuffered(s: State)
    requires AnnouncingWithTail(s)
    ensures Enabled(s, Takes(2))
    ensures var t := Step(s, Takes(2));
            t.phase.AUTH_REQUEST? && t.outcome.Running? && t.clientInterest == OP_READ && !t.input.CanWrite()
  {
    RunsAreSound([]);
  }

  /** Or in the handshake: the client sent so much behind its hello that the parser's leftovers reach the
      end of the buffer, and its next byte drops the session. */
  lemma PipelinedHelloIsDropped(cap: nat, data: seq<byte>, n: nat, r: Recv)
    requires cap >= 2 && |data| == cap && n < cap
    ensures exists s :: Reached(cap, [HelloWithTail(data, n), Takes(2)], s) && s.phase.AUTH_REQUEST?
                        && Enabled(s, ReadOn(true, r)) && Step(s, ReadOn(true, r)).outcome.Aborted?
  {
    hide AnnouncingWithTail, Step, Enabled;
    var e := HelloWithTail(data, n);
    assert Run(Init(cap), [], Init(cap));
    TailedHelloStep(cap, data, n);
    OneMoreEvent(cap, [], Init(cap), e);
    var s := Step(Init(cap), e);
    TailStaysBuffered(s);
    OneMoreEvent(cap, [e], s, Takes(2));
    assert [] + [e] == [e] && [e] + [Takes(2)] == [e, Takes(2)];
    FullReadAborts(Step(s, Takes(2)), r);
  }

  lemma FullReadAborts(s: State, r: Recv)
    requires s.outcome.Running? && s.clientInterest.read && !s.input.CanWrite()
    ensures Enabled(s, ReadOn(true, r)) && Step(s, ReadOn(true, r)).outcome.Aborted?
  {
    RunsAreSound([]);
  }
}
