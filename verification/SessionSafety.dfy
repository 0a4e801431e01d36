/**
  What every event of a session keeps, and what follows for whole runs: no byte is lost, duplicated
  or reordered, a finished relay has delivered everything, and a session never stalls.
 */
module SessionSafety {
  import opened Buckets
  import opened UserHandler
  import opened Buffers
  import opened Session
  import opened Sockets

  // ---------------------------------------------------------------- the invariant

  /** Bytes on their way: what was sent on, followed by what is buffered, is what was received. */
  ghost predicate Streams(h: Flow, input: seq<byte>, output: seq<byte>) {
    && h.consumed <= |h.fromClient|
    && h.toServer + input == h.fromClient[h.consumed..]
    && h.toClient + output == h.replies + h.fromServer
  }

  ghost predicate Conserved(s: State) {
    Streams(s.h, s.input.content, s.output.content)
  }

  /** A socket is shut down once, exactly when the other direction reached its end and was drained. */
  ghost predicate Ends(s: State) {
    && (s.clientEof <==> s.client.CLOSING? || s.client.CLOSED?)
    && (s.serverEof <==> s.server.CLOSING? || s.server.CLOSED?)
    && (s.client.CLOSED? ==> s.input.content == [])
    && (s.server.CLOSED? ==> s.output.content == [])
    && s.shutServer == (if s.client.CLOSED? then 1 else 0)
    && s.shutClient == (if s.server.CLOSED? then 1 else 0)
  }

  /** The replies before the one to the request. */
  function Greeting(m: byte): seq<byte> {
    if m == USER_PASSWORD then HelloReply(m) + AuthReply(true) else HelloReply(m)
  }

  ghost predicate LoggedIn(m: byte, login: Login) {
    || (m == NO_AUTHENTICATION && login == Anonymous(INITIAL[ANONYMOUS]))
    || (m == USER_PASSWORD && login.ByPassword?
        && login.user.username == login.username && login.user.password == login.password)
  }

  ghost predicate Partly(replies: seq<byte>, before: seq<byte>, msg: seq<byte>, bytes: nat) {
    bytes <= |msg| && replies == before + msg[..bytes]
  }

  /** Nothing has reached, or come from, a server yet, and the client's side is open. */
  ghost predicate NoServer(s: State) {
    s.h.fromServer == [] && !s.serverEof && s.client.OPEN? && s.server.INVALID? && s.serverInterest == OP_NOOP
  }

  ghost predicate Connected(s: State) {
    s.h.fromServer == [] && s.client.OPEN? && s.server.OPEN?
  }

  ghost predicate Relaying(s: State) {
    LoggedIn(s.authMethod, s.login) && s.h.replies == Greeting(s.authMethod) + RequestReply(SUCCESSFUL)
  }

  /** The interests of FLUSH_CLOSER: the closer is never read, and whoever has bytes waiting for it
      wants to write.  The closy may want to read even when its buffer is full. */
  ghost predicate CloserInterests(closy: Interest, closer: Interest, closyBuffer: Buf, closerBuffer: Buf) {
    && (closyBuffer.CanWrite() ==> closy.read) && closy.write == closerBuffer.CanRead()
    && !closer.read && closer.write == closyBuffer.CanRead()
  }

  ghost predicate PhaseInv(s: State) {
    match s.phase
    case HELLO =>
      NoServer(s) && s.h.toServer == [] && s.h.replies == [] && s.output.content == [] && s.clientInterest == OP_READ
      && s.input.content == []
    case HELLO_ERROR =>
      NoServer(s) && s.h.toServer == [] && Partly(s.h.replies, [], HelloReply(NO_ACCEPTABLE_METHODS), s.bytes)
      && s.clientInterest == OP_WRITE
    case AUTH_METHOD_ANNOUNCEMENT =>
      NoServer(s) && s.h.toServer == [] && s.authMethod in {NO_AUTHENTICATION, USER_PASSWORD}
      && Partly(s.h.replies, [], HelloReply(s.authMethod), s.bytes) && s.clientInterest == OP_WRITE
    case AUTH_REQUEST =>
      NoServer(s) && s.h.toServer == [] && s.authMethod == USER_PASSWORD && s.h.replies == HelloReply(USER_PASSWORD)
      && s.output.content == [] && s.clientInterest == OP_READ
    case AUTH_ERROR =>
      NoServer(s) && s.h.toServer == [] && s.authMethod == USER_PASSWORD
      && Partly(s.h.replies, HelloReply(USER_PASSWORD), AuthReply(false), s.bytes) && s.clientInterest == OP_WRITE
    case AUTH_SUCCESSFUL =>
      NoServer(s) && s.h.toServer == [] && s.authMethod == USER_PASSWORD && LoggedIn(s.authMethod, s.login)
      && Partly(s.h.replies, HelloReply(USER_PASSWORD), AuthReply(true), s.bytes) && s.clientInterest == OP_WRITE
    case REQUEST =>
      NoServer(s) && s.h.toServer == [] && LoggedIn(s.authMethod, s.login) && s.h.replies == Greeting(s.authMethod)
      && s.output.content == [] && s.clientInterest == OP_READ
    case REQUEST_ERROR =>
      NoServer(s) && LoggedIn(s.authMethod, s.login)
      && Partly(s.h.replies, Greeting(s.authMethod), RequestReply(s.rep), s.bytes) && s.clientInterest == OP_WRITE
    case IP_CONNECT =>
      Connected(s) && LoggedIn(s.authMethod, s.login) && s.h.replies == Greeting(s.authMethod) && s.output.content == []
      && s.clientInterest == OP_NOOP && s.serverInterest == OP_WRITE
    case REQUEST_SUCCESSFUL =>
      Connected(s) && LoggedIn(s.authMethod, s.login) && s.rep == SUCCESSFUL
      && Partly(s.h.replies, Greeting(s.authMethod), RequestReply(SUCCESSFUL), s.bytes)
      && s.clientInterest == OP_WRITE && s.serverInterest == OP_NOOP
    case FORWARDING =>
      Relaying(s) && s.client.OPEN? && s.server.OPEN?
      && s.clientInterest == Interest(s.input.CanWrite(), s.output.CanRead())
      && s.serverInterest == Interest(s.output.CanWrite(), s.input.CanRead())
    case FLUSH_CLOSER =>
      Relaying(s)
      && ((s.client.OPEN? && s.serverEof && (s.server.CLOSING? ==> s.output.CanRead())
           && CloserInterests(s.clientInterest, s.serverInterest, s.input, s.output))
          || (s.server.OPEN? && s.clientEof && (s.client.CLOSING? ==> s.input.CanRead())
              && CloserInterests(s.serverInterest, s.clientInterest, s.output, s.input)))
    case FLUSH_CLOSY =>
      Relaying(s) && s.clientEof && s.serverEof && !(s.client.CLOSED? && s.server.CLOSED?)
      && (s.client.CLOSING? <==> s.input.CanRead()) && (s.server.CLOSING? <==> s.output.CanRead())
      && s.serverInterest == Interest(false, s.input.CanRead())
      && s.clientInterest == Interest(false, s.output.CanRead())
    case FINISH => !s.outcome.Running?
  }

  ghost predicate Inv(s: State) {
    && s.input.Valid() && s.output.Valid()
    && Conserved(s) && Ends(s) && PhaseInv(s)
    && (!s.phase.HELLO? ==> s.started)
    && !s.outcome.Crashed?
    && (s.outcome.Finished? ==> s.phase.FINISH?)
  }

  lemma InitInv(cap: nat)
    requires cap > 0
    ensures Inv(Init(cap))
  {}

  // ---------------------------------------------------------------- buffers

  lemma DropValid(b: Buf, n: nat)
    requires b.Valid() && n <= |b.content|
    ensures b.Drop(n).Valid() && b.Drop(n).content == b.content[n..]
  {}

  lemma ToClientStream(h: Flow, input: seq<byte>, output: seq<byte>, n: nat)
    requires Streams(h, input, output) && n <= |output|
    ensures Streams(h.(toClient := h.toClient + output[..n]), input, output[n..])
  {
    assert h.toClient + output == h.toClient + output[..n] + output[n..];
  }

  lemma ToServerStream(h: Flow, input: seq<byte>, output: seq<byte>, n: nat)
    requires Streams(h, input, output) && n <= |input|
    ensures Streams(h.(toServer := h.toServer + input[..n]), input[n..], output)
  {
    assert h.toServer + input == h.toServer + input[..n] + input[n..];
  }

  lemma FromClientStream(h: Flow, input: seq<byte>, output: seq<byte>, data: seq<byte>)
    requires Streams(h, input, output)
    ensures Streams(h.(fromClient := h.fromClient + data), input + data, output)
  {
    assert h.toServer + (input + data) == h.toServer + input + data;
    assert (h.fromClient + data)[h.consumed..] == h.fromClient[h.consumed..] + data;
  }

  lemma FromServerStream(h: Flow, input: seq<byte>, output: seq<byte>, data: seq<byte>)
    requires Streams(h, input, output)
    ensures Streams(h.(fromServer := h.fromServer + data), input, output + data)
  {
    assert h.toClient + (output + data) == h.toClient + output + data;
    assert h.replies + (h.fromServer + data) == h.replies + h.fromServer + data;
  }

  lemma MarshallStream(s: State, before: seq<byte>, msg: seq<byte>)
    requires s.output.Valid() && Conserved(s) && s.h.fromServer == []
    requires Partly(s.h.replies, before, msg, s.bytes)
    ensures var s' := Marshall(s, msg);
            && s'.output.Valid() && Conserved(s')
            && Partly(s'.h.replies, before, msg, s'.bytes)
            && s' == s.(output := s'.output, bytes := s'.bytes, h := s.h.(replies := s'.h.replies))
  {
    var s' := Marshall(s, msg);
    if s' != s {
      var k := s'.bytes - s.bytes;
      var chunk := msg[s.bytes..s.bytes + k];
      assert msg[..s.bytes] + chunk == msg[..s.bytes + k];
      assert s.h.toClient + (s.output.content + chunk) == s.h.toClient + s.output.content + chunk;
      assert s.h.replies + [] + chunk == s.h.replies + chunk + [];
    }
  }

  // ---------------------------------------------------------------- transitions

  lemma TakeInv(s: State, n: nat)
    requires s.input.Valid() && Conserved(s) && s.h.toServer == [] && n <= |s.input.content|
    ensures Take(s, n).input.Valid() && Conserved(Take(s, n))
  {
    DropValid(s.input, n);
    assert s.h.fromClient[s.h.consumed..][n..] == s.h.fromClient[s.h.consumed + n..];
  }

  ghost predicate Base(s: State) {
    && s.input.Valid() && s.output.Valid() && Conserved(s) && Ends(s) && s.started && s.outcome.Running?
  }

  lemma HelloReadInv(s: State, p: Parse)
    requires Base(s) && s.phase.HELLO? && ParseFits(s.phase, s.input, p)
    requires NoServer(s) && s.h.toServer == [] && s.h.replies == [] && s.output.content == []
             && s.clientInterest == OP_READ
    ensures var (s', next) := HelloRead(s, p); Inv(Jump(s', next))
  {
    var (s', next) := HelloRead(s, p);
    TakeInv(s, if p.More? then |s.input.content| else p.n);
    if p.Hello? { ChooseIsBest(p.offered); }
    if next.HELLO_ERROR? {
      MarshallStream(s'.(phase := next, bytes := 0), [], HelloReply(NO_ACCEPTABLE_METHODS));
    } else if next.AUTH_METHOD_ANNOUNCEMENT? {
      MarshallStream(s'.(phase := next, bytes := 0), [], HelloReply(s'.authMethod));
    }
  }

  lemma AuthReadInv(s: State, p: Parse, users: Users)
    requires Base(s) && s.phase.AUTH_REQUEST? && PhaseInv(s) && ParseFits(s.phase, s.input, p) && Sound(users)
    ensures var (s', next) := AuthRead(s, p, users); Inv(Jump(s', next))
  {
    hide Streams, Marshall;
    var (s', next) := AuthRead(s, p, users);
    TakeInv(s, if p.More? then |s.input.content| else p.n);
    if next.AUTH_ERROR? {
      MarshallStream(s'.(phase := next, bytes := 0), HelloReply(USER_PASSWORD), AuthReply(false));
    } else if next.AUTH_SUCCESSFUL? {
      MarshallStream(s'.(phase := next, bytes := 0), HelloReply(USER_PASSWORD), AuthReply(true));
    }
  }

  lemma RequestErrorInv(s: State)
    requires Base(s) && NoServer(s) && LoggedIn(s.authMethod, s.login) && s.h.replies == Greeting(s.authMethod)
    ensures Inv(Jump(s, REQUEST_ERROR)) || s.phase.REQUEST_ERROR?
  {
    MarshallStream(s.(phase := REQUEST_ERROR, bytes := 0), Greeting(s.authMethod), RequestReply(s.rep));
  }

  lemma RequestReadInv(s: State, p: Parse)
    requires Base(s) && s.phase.REQUEST? && PhaseInv(s) && ParseFits(s.phase, s.input, p)
    ensures var (s', next) := RequestRead(s, p); Inv(Jump(s', next))
  {
    hide Streams, LoggedIn, Greeting, RequestReply;
    var (s', next) := RequestRead(s, p);
    TakeInv(s, if p.More? then |s.input.content| else p.n);
    if next.REQUEST_ERROR? { RequestErrorInv(s'); }
  }

  lemma FlushCloserArriveInv(s: State)
    requires Base(s) && Relaying(s) && s.phase.FLUSH_CLOSER?
    requires (s.client.OPEN? && s.serverEof) || (s.server.OPEN? && s.clientEof)
    ensures Inv(FlushCloserWrite(s))
  {
    hide Streams, LoggedIn, Greeting, RequestReply;
  }

  lemma FlushClosyInv(s: State)
    requires Base(s) && Relaying(s) && s.phase.FLUSH_CLOSY? && s.clientEof && s.serverEof
    ensures var (s', next) := FlushClosyWrite(s); Inv(Jump(s', next))
  {
    hide Streams, LoggedIn, Greeting, RequestReply;
    var (s', next) := FlushClosyWrite(s);
  }

  lemma ForwardingReadInv(s: State)
    requires Base(s) && Relaying(s) && s.phase.FORWARDING?
    requires s.client.OPEN? || s.server.OPEN?
    requires s.client.OPEN? || s.clientEof
    requires s.server.OPEN? || s.serverEof
    ensures var (s', next) := ForwardingRead(s); Inv(Jump(s', next))
  {
    hide Streams, LoggedIn, Greeting, RequestReply;
    var (s', next) := ForwardingRead(s);
    if next.FLUSH_CLOSER? { FlushCloserArriveInv(s'.(phase := FLUSH_CLOSER)); }
  }

  lemma FlushCloserReadInv(s: State, onClient: bool)
    requires Base(s) && Relaying(s) && s.phase.FLUSH_CLOSER?
    requires if onClient then s.client.OPEN? || s.client.CLOSING? else s.server.OPEN? || s.server.CLOSING?
    requires if onClient
             then s.serverEof && (s.server.CLOSING? ==> s.output.CanRead())
                  && s.clientInterest.write == s.output.CanRead() && !s.serverInterest.read
             else s.clientEof && (s.client.CLOSING? ==> s.input.CanRead())
                  && s.serverInterest.write == s.input.CanRead() && !s.clientInterest.read
    requires if onClient then s.clientInterest.read && (s.serverInterest.write ==> s.input.CanRead())
             else s.serverInterest.read && (s.clientInterest.write ==> s.output.CanRead())
    ensures var (s', next) := FlushCloserRead(s, onClient); Inv(Jump(s', next))
  {
    hide Streams, LoggedIn, Greeting, RequestReply;
    var (s', next) := FlushCloserRead(s, onClient);
    if next.FLUSH_CLOSY? {
      FlushClosyInv(s.(phase := FLUSH_CLOSY));
    }
  }

  lemma TwoByteWriteInv(s: State, users: Users)
    requires Base(s) && PhaseInv(s) && Sound(users)
    requires s.phase in {HELLO_ERROR, AUTH_METHOD_ANNOUNCEMENT, AUTH_ERROR, AUTH_SUCCESSFUL}
    ensures Inv(ProcessWrite(s, users, false, 0))
  {
    hide Streams, Marshall;
    match s.phase
    case HELLO_ERROR => MarshallStream(s, [], HelloReply(NO_ACCEPTABLE_METHODS));
    case AUTH_METHOD_ANNOUNCEMENT => MarshallStream(s, [], HelloReply(s.authMethod));
    case AUTH_ERROR => MarshallStream(s, HelloReply(USER_PASSWORD), AuthReply(false));
    case AUTH_SUCCESSFUL => MarshallStream(s, HelloReply(USER_PASSWORD), AuthReply(true));
  }

  lemma ReplyWriteInv(s: State, users: Users)
    requires Base(s) && PhaseInv(s) && s.phase in {REQUEST_ERROR, REQUEST_SUCCESSFUL}
    ensures Inv(ProcessWrite(s, users, false, 0))
  {
    hide Streams, Marshall, LoggedIn, Greeting;
    MarshallStream(s, Greeting(s.authMethod), RequestReply(s.rep));
  }

  lemma ConnectWriteInv(s: State, users: Users, connectFailed: bool, failure: byte)
    requires Base(s) && PhaseInv(s) && s.phase.IP_CONNECT?
    ensures Inv(ProcessWrite(s, users, connectFailed, failure))
  {
    hide Streams, Marshall, LoggedIn, Greeting, RequestReply;
    var (s', next) := ConnectWrite(s, connectFailed, failure);
    if connectFailed {
      RequestErrorInv(s');
    } else {
      var a := s'.(phase := REQUEST_SUCCESSFUL, bytes := 0, rep := SUCCESSFUL);
      assert Partly(a.h.replies, Greeting(s.authMethod), RequestReply(SUCCESSFUL), 0) by {
        assert Greeting(s.authMethod) + RequestReply(SUCCESSFUL)[..0] == Greeting(s.authMethod);
      }
      MarshallStream(a, Greeting(s.authMethod), RequestReply(SUCCESSFUL));
    }
  }

  lemma RelayWriteInv(s: State, users: Users, connectFailed: bool, failure: byte)
    requires Base(s) && Relaying(s) && s.phase in {FORWARDING, FLUSH_CLOSER, FLUSH_CLOSY}
    requires s.phase.FORWARDING? ==> s.client.OPEN? && s.server.OPEN?
    requires s.phase.FLUSH_CLOSER? ==> (s.client.OPEN? && s.serverEof) || (s.server.OPEN? && s.clientEof)
    requires s.phase.FLUSH_CLOSY? ==> s.clientEof && s.serverEof
    ensures Inv(ProcessWrite(s, users, connectFailed, failure))
  {
    hide Streams, LoggedIn, Greeting, RequestReply;
    if s.phase.FLUSH_CLOSER? {
      FlushCloserArriveInv(s);
    } else if s.phase.FLUSH_CLOSY? {
      FlushClosyInv(s);
    }
  }

  /** What an on_write handler may assume, whether or not a send came before it. */
  ghost predicate WriteReady(s: State) {
    && Base(s)
    && match s.phase
       case FORWARDING => Relaying(s) && s.client.OPEN? && s.server.OPEN?
       case FLUSH_CLOSER => Relaying(s) && ((s.client.OPEN? && s.serverEof) || (s.server.OPEN? && s.clientEof))
       case FLUSH_CLOSY => Relaying(s) && s.clientEof && s.serverEof
       case _ => PhaseInv(s)
  }

  lemma ProcessWriteInv(s: State, users: Users, connectFailed: bool, failure: byte)
    requires WriteReady(s) && Sound(users)
    requires s.phase !in {HELLO, AUTH_REQUEST, REQUEST, FINISH}
    ensures Inv(ProcessWrite(s, users, connectFailed, failure))
  {
    hide Streams, Marshall, LoggedIn, Greeting, RequestReply, FlushCloserWrite, FlushClosyWrite;
    match s.phase
    case HELLO_ERROR => TwoByteWriteInv(s, users);
    case AUTH_METHOD_ANNOUNCEMENT => TwoByteWriteInv(s, users);
    case AUTH_ERROR => TwoByteWriteInv(s, users);
    case AUTH_SUCCESSFUL => TwoByteWriteInv(s, users);
    case REQUEST_ERROR => ReplyWriteInv(s, users);
    case REQUEST_SUCCESSFUL => ReplyWriteInv(s, users);
    case IP_CONNECT => ConnectWriteInv(s, users, connectFailed, failure);
    case FORWARDING => RelayWriteInv(s, users, connectFailed, failure);
    case FLUSH_CLOSER => RelayWriteInv(s, users, connectFailed, failure);
    case FLUSH_CLOSY => RelayWriteInv(s, users, connectFailed, failure);
  }

  lemma ClientSendInv(s: State, w: Send, users: Users)
    requires Inv(s) && Enabled(s, ClientWrite(w, users))
    ensures Inv(ClientSend(s, w, users))
  {
    hide Streams, LoggedIn, Greeting, RequestReply, ProcessWrite, Marshall;
    if s.output.CanRead() && w.Sent? {
      var s1 := ClientSent(s, w.n);
      DropValid(s.output, w.n);
      ToClientStream(s.h, s.input.content, s.output.content, w.n);
      ProcessWriteInv(s1, users, false, 0);
    } else if !s.output.CanRead() {
      ProcessWriteInv(s, users, false, 0);
    }
  }

  lemma ServerSendInv(s: State, w: Send, users: Users, connectFailed: bool, failure: byte)
    requires Inv(s) && Enabled(s, ServerWrite(w, users, connectFailed, failure))
    ensures Inv(ServerSend(s, w, users, connectFailed, failure))
  {
    hide Streams, LoggedIn, Greeting, RequestReply, ProcessWrite, Marshall;
    if s.input.CanRead() && w.Sent? {
      var s1 := ServerSent(s, w.n);
      DropValid(s.input, w.n);
      ToServerStream(s.h, s.input.content, s.output.content, w.n);
      ProcessWriteInv(s1, users, connectFailed, failure);
    } else if !s.input.CanRead() {
      ProcessWriteInv(s, users, connectFailed, failure);
    }
  }

  lemma ClientRecvInv(s: State, r: Recv, p: Parse, users: Users)
    requires Inv(s) && Enabled(s, ClientRead(r, p, users))
    ensures Inv(ClientRecv(s, r, p, users))
  {
    hide Streams, LoggedIn, Greeting, RequestReply, Marshall, HelloRead, AuthRead, RequestRead, FlushCloserRead;
    if s.input.CanWrite() && r.Received? && !(r.data == [] && BeforeForwarding(s.phase)) {
      var s1 := ClientGot(s, r.data);
      FromClientStream(s.h, s.input.content, s.output.content, r.data);
      match s.phase
      case HELLO => HelloReadInv(HandleFirst(s1), p);
      case AUTH_REQUEST => AuthReadInv(s1, p, users);
      case REQUEST => RequestReadInv(s1, p);
      case FORWARDING => ForwardingReadInv(s1);
      case FLUSH_CLOSER => FlushCloserReadInv(s1, true);
    }
  }

  lemma ServerRecvInv(s: State, r: Recv)
    requires Inv(s) && Enabled(s, ServerRead(r))
    ensures Inv(ServerRecv(s, r))
  {
    hide Streams, LoggedIn, Greeting, RequestReply, Marshall, FlushCloserRead;
    if s.output.CanWrite() && r.Received? && !(r.data == [] && BeforeForwarding(s.phase)) {
      var s1 := ServerGot(s, r.data);
      FromServerStream(s.h, s.input.content, s.output.content, r.data);
      match s.phase
      case FORWARDING => ForwardingReadInv(s1);
      case FLUSH_CLOSER => FlushCloserReadInv(s1, false);
    }
  }

  lemma StepInv(s: State, e: Event)
    requires Inv(s) && Enabled(s, e)
    ensures Inv(Step(s, e))
  {
    match e
    case ClientRead(r, p, users) => ClientRecvInv(s, r, p, users);
    case ClientWrite(w, users) => ClientSendInv(s, w, users);
    case ServerRead(r) => ServerRecvInv(s, r);
    case ServerWrite(w, users, connectFailed, failure) => ServerSendInv(s, w, users, connectFailed, failure);
  }

  /** The invariant holds after every run, whatever the environment does. */
  lemma {:induction false} RunInv(s: State, es: seq<Event>, t: State)
    requires Inv(s) && Run(s, es, t)
    ensures Inv(t)
  {
    if es != [] {
      var before, last := es[..|es| - 1], es[|es| - 1];
      var m :| Run(s, before, m) && Next(m, last, t);
      RunInv(s, before, m);
      StepInv(m, last);
    }
  }
}
