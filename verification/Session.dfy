/**
  One proxied session on values: the state kept between two selector events, what each event does to
  it, and the history of bytes received, sent and shut down on both sides.
  Sessions that go on to the resolver leave this model when they do.
 */
module Session {
  import opened Buckets
  import opened UserHandler
  import opened Buffers
  import opened Sockets

  // ---------------------------------------------------------------- state

  datatype Phase =
    | HELLO | HELLO_ERROR | AUTH_METHOD_ANNOUNCEMENT | AUTH_REQUEST | AUTH_ERROR | AUTH_SUCCESSFUL
    | REQUEST | REQUEST_ERROR | IP_CONNECT | REQUEST_SUCCESSFUL
    | FORWARDING | FLUSH_CLOSER | FLUSH_CLOSY | FINISH

  /** state < FORWARDING */
  predicate BeforeForwarding(p: Phase) {
    !p.FORWARDING? && !p.FLUSH_CLOSER? && !p.FLUSH_CLOSY? && !p.FINISH?
  }

  /** Crashed is the abort() of the whole process on a missing anonymous user. */
  datatype Outcome = Running | Finished | Aborted | Crashed

  datatype Login = NotLoggedIn | Anonymous(user: User) | ByPassword(user: User, username: Key, password: Key)

  /** The byte streams of a session so far. */
  datatype Flow = Flow(
    fromClient: seq<byte>, toServer: seq<byte>, fromServer: seq<byte>, toClient: seq<byte>,
    consumed: nat,       // bytes of the client's stream taken by the handshake parsers
    replies: seq<byte>)  // bytes the proxy itself put into the output buffer

  datatype State = State(
    phase: Phase, started: bool, outcome: Outcome,
    input: Buf, output: Buf,
    client: ConnectionState, server: ConnectionState,
    clientInterest: Interest, serverInterest: Interest,
    authMethod: byte, login: Login, bytes: nat, rep: byte,
    h: Flow, clientEof: bool, serverEof: bool,
    shutClient: nat, shutServer: nat)  // shutdown(fd, SHUT_WR) calls on each socket

  const SOCKS_VERSION: byte := 5
  const AUTH_VERSION: byte := 1
  const NO_AUTHENTICATION: byte := 0
  const USER_PASSWORD: byte := 2
  const NO_ACCEPTABLE_METHODS: byte := 0xff
  const AUTH_SUCCESS_MESSAGE: byte := 0
  const AUTH_UNSUCCESSFUL_MESSAGE: byte := 0xff
  const COMMAND_CONNECT: byte := 1
  const ADD_TYPE_IP4: byte := 1
  const ADD_TYPE_DOMAIN_NAME: byte := 3
  const ADD_TYPE_IP6: byte := 4
  const SUCCESSFUL: byte := 0
  const GENERAL_FAILURE: byte := 1
  const COMMAND_NOT_SUPPORTED: byte := 7
  const ADDRESS_TYPE_NOT_SUPPORTED: byte := 8

  /** socks5_session_init followed by the registration of the client socket. */
  function Init(cap: nat): State {
    State(HELLO, false, Running, EmptyBuf(cap), EmptyBuf(cap), OPEN, INVALID, OP_READ, OP_NOOP, 0, NotLoggedIn, 0, 0,
          Flow([], [], [], [], 0, []), false, false, 0, 0)
  }

  // ---------------------------------------------------------------- events

  datatype Recv = Received(data: seq<byte>) | RecvFailed | RecvInterrupted

  datatype Send = Sent(n: nat) | SendFailed | SendInterrupted

  /** What the byte parser of the current handshake state makes of the input buffer: it stops after n
      bytes with a result, or uses up the buffer and wants more. */
  datatype Parse =
    | More
    | Hello(n: nat, errored: bool, version: byte, offered: seq<byte>)
    | Auth(n: nat, errored: bool, version: byte, username: Key, password: Key)
    | Request(n: nat, errored: bool, version: byte, cmd: byte, addressType: byte, socketFailed: bool, failure: byte)

  datatype Event =
    | ClientRead(r: Recv, p: Parse, users: Users)
    | ClientWrite(w: Send, users: Users)
    | ServerRead(r: Recv)
    | ServerWrite(w: Send, users: Users, connectFailed: bool, failure: byte)

  /** A request that goes on to the resolver, with at least one connection to it. */
  predicate Resolves(p: Parse) {
    && p.Request? && !p.errored && p.version == SOCKS_VERSION && p.cmd == COMMAND_CONNECT
    && p.addressType == ADD_TYPE_DOMAIN_NAME && !p.socketFailed
  }

  predicate ParseFits(phase: Phase, input: Buf, p: Parse) {
    match phase
    case HELLO => p.More? || (p.Hello? && p.n <= |input.content|)
    case AUTH_REQUEST => p.More? || (p.Auth? && p.n <= |input.content|)
    case REQUEST => p.More? || (p.Request? && p.n <= |input.content| && !Resolves(p))
    case _ => p.More?
  }

  predicate RecvFits(b: Buf, r: Recv) {
    r.Received? ==> |r.data| <= b.Room()
  }

  predicate SendFits(b: Buf, w: Send) {
    w.Sent? ==> 0 < w.n <= |b.content|
  }

  function AfterRecv(b: Buf, r: Recv): Buf {
    if r.Received? then b.Put(r.data) else b
  }

  /** The events the selector can deliver: only those the socket's live interest asks for, with
      whatever size the kernel picks. */
  ghost predicate Enabled(s: State, e: Event) {
    s.outcome.Running? &&
    match e
    case ClientRead(r, p, users) =>
      s.clientInterest.read
      && (s.input.CanWrite() ==> RecvFits(s.input, r) && ParseFits(s.phase, AfterRecv(s.input, r), p))
      && Sound(users)
    case ClientWrite(w, users) =>
      s.clientInterest.write && (s.output.CanRead() ==> SendFits(s.output, w)) && Sound(users)
    case ServerRead(r) => s.serverInterest.read && (s.output.CanWrite() ==> RecvFits(s.output, r))
    case ServerWrite(w, users, _, _) =>
      s.serverInterest.write && (s.input.CanRead() ==> SendFits(s.input, w)) && Sound(users)
  }

  // ---------------------------------------------------------------- replies

  function HelloReply(m: byte): seq<byte> { [SOCKS_VERSION, m] }

  function AuthReply(ok: bool): seq<byte> {
    [SOCKS_VERSION, if ok then AUTH_SUCCESS_MESSAGE else AUTH_UNSUCCESSFUL_MESSAGE]
  }

  function RequestReply(rep: byte): seq<byte> { [SOCKS_VERSION, rep, 0, 1, 0, 0, 0, 0, 0, 0] }

  /** How many of the bytes of a message of length len, from position done on, fit. */
  function Fitting(room: int, len: nat, done: nat): (k: nat)
    ensures done + k <= len || k == 0
  {
    if done >= len || room <= 0 then 0 else if len - done <= room then len - done else room
  }

  /** The marshalling loops: bytes of the message are written while there is room. */
  function Marshall(s: State, msg: seq<byte>): State {
    var k := Fitting(s.output.Room(), |msg|, s.bytes);
    if k == 0 then s else
    var chunk := msg[s.bytes..s.bytes + k];
    s.(output := s.output.Put(chunk), bytes := s.bytes + k, h := s.h.(replies := s.h.replies + chunk))
  }

  // ---------------------------------------------------------------- choosing a method

  function Priority(m: byte): nat {
    if m == USER_PASSWORD then 2 else if m == NO_AUTHENTICATION then 1 else 0
  }

  /** on_auth_method */
  function Better(chosen: byte, offered: byte): byte {
    if Priority(chosen) < Priority(offered) then offered else chosen
  }

  function Choose(offered: seq<byte>): byte {
    if offered == [] then NO_ACCEPTABLE_METHODS
    else Better(Choose(offered[..|offered| - 1]), offered[|offered| - 1])
  }

  /** The choice is the best supported method on offer, whatever the order of the offer. */
  lemma {:induction false} ChooseIsBest(offered: seq<byte>)
    ensures Choose(offered) == if 2 in offered then 2 else if 0 in offered then 0 else 0xff
  {
    if offered != [] {
      var init, last := offered[..|offered| - 1], offered[|offered| - 1];
      assert offered == init + [last];
      ChooseIsBest(init);
    }
  }

  // ---------------------------------------------------------------- arrivals

  function Shutdown(s: State, client: bool): State {
    if client then s.(shutClient := s.shutClient + 1)
    else s.(shutServer := s.shutServer + 1)
  }

  /** forwarding_calculate_and_set_new_fd_interest */
  function ForwardingInterests(s: State): State {
    s.(clientInterest := Interest(s.input.CanWrite(), s.output.CanRead()),
       serverInterest := Interest(s.output.CanWrite(), s.input.CanRead()))
  }

  /** flush_closer_on_write: the closy is the side still open, the closer the one that reached EOF. */
  function FlushCloserWrite(s: State): State {
    if s.client.OPEN? then
      var s' := if !s.output.CanRead() && s.server.CLOSING? then Shutdown(s, true).(server := CLOSED) else s;
      s'.(clientInterest := Interest(s.input.CanWrite(), s.output.CanRead()),
          serverInterest := Interest(false, s.input.CanRead()))
    else
      var s' := if !s.input.CanRead() && s.client.CLOSING? then Shutdown(s, false).(client := CLOSED) else s;
      s'.(serverInterest := Interest(s.output.CanWrite(), s.input.CanRead()),
          clientInterest := Interest(false, s.output.CanRead()))
  }

  /** The half of flush_closy_on_write that sees to the bytes due to the server. */
  function DrainToServer(s: State): State {
    if s.input.CanRead() then s.(serverInterest := OP_WRITE)
    else (if s.client.CLOSING? then Shutdown(s, false).(client := CLOSED) else s).(serverInterest := OP_NOOP)
  }

  function DrainToClient(s: State): State {
    if s.output.CanRead() then s.(clientInterest := OP_WRITE)
    else (if s.server.CLOSING? then Shutdown(s, true).(server := CLOSED) else s).(clientInterest := OP_NOOP)
  }

  /** flush_closy_on_write, with the state it returns. */
  function FlushClosyWrite(s: State): (State, Phase) {
    var s' := DrainToClient(DrainToServer(s));
    (s', if s'.client.CLOSED? && s'.server.CLOSED? then FINISH else s'.phase)
  }

  function Arrive(s: State): State {
    match s.phase
    case HELLO => s.(authMethod := NO_ACCEPTABLE_METHODS, clientInterest := OP_READ)
    case HELLO_ERROR => Marshall(s.(bytes := 0), HelloReply(NO_ACCEPTABLE_METHODS)).(clientInterest := OP_WRITE)
    case AUTH_METHOD_ANNOUNCEMENT => Marshall(s.(bytes := 0), HelloReply(s.authMethod)).(clientInterest := OP_WRITE)
    case AUTH_REQUEST => s.(clientInterest := OP_READ)
    case AUTH_ERROR => Marshall(s.(bytes := 0), AuthReply(false)).(clientInterest := OP_WRITE)
    case AUTH_SUCCESSFUL => Marshall(s.(bytes := 0), AuthReply(true)).(clientInterest := OP_WRITE)
    case REQUEST => s.(rep := SUCCESSFUL, clientInterest := OP_READ)
    case REQUEST_ERROR => Marshall(s.(bytes := 0), RequestReply(s.rep)).(clientInterest := OP_WRITE)
    case IP_CONNECT => s.(clientInterest := OP_NOOP, serverInterest := OP_WRITE)
    case REQUEST_SUCCESSFUL =>
      Marshall(s.(bytes := 0, rep := SUCCESSFUL), RequestReply(SUCCESSFUL))
      .(clientInterest := OP_WRITE, serverInterest := OP_NOOP)
    case FORWARDING => ForwardingInterests(s)
    case FLUSH_CLOSER => FlushCloserWrite(s)
    case FLUSH_CLOSY => FlushClosyWrite(s).0
    case FINISH => s
  }

  function HandleFirst(s: State): State {
    if s.started then s else Arrive(s.(started := true))
  }

  /** jump, then the handler's reaction to FINISH: the session is closed. */
  function Jump(s: State, next: Phase): State {
    var s' := if next == s.phase then s else Arrive(s.(phase := next));
    if next.FINISH? then s'.(outcome := Finished) else s'
  }

  // ---------------------------------------------------------------- on_read

  /** A parser took n bytes off the input buffer. */
  function Take(s: State, n: nat): State
    requires n <= |s.input.content|
  {
    s.(input := s.input.Drop(n), h := s.h.(consumed := s.h.consumed + n))
  }

  function HelloRead(s: State, p: Parse): (State, Phase)
    requires s.phase.HELLO? && ParseFits(s.phase, s.input, p)
  {
    if p.More? then (Take(s, |s.input.content|), s.phase) else
    var s' := Take(s, p.n).(authMethod := Choose(p.offered));
    if p.errored || p.version != SOCKS_VERSION || s'.authMethod == NO_ACCEPTABLE_METHODS then (s', HELLO_ERROR)
    else (s', AUTH_METHOD_ANNOUNCEMENT)
  }

  function AuthRead(s: State, p: Parse, users: Users): (State, Phase)
    requires s.phase.AUTH_REQUEST? && ParseFits(s.phase, s.input, p)
  {
    if p.More? then (Take(s, |s.input.content|), s.phase) else
    var s' := Take(s, p.n);
    if p.errored || p.version != AUTH_VERSION then (s', AUTH_ERROR)
    else if p.username == [] || p.username !in users then (s', AUTH_ERROR)
    else if users[p.username].password != p.password then (s', AUTH_ERROR)
    else (s'.(login := ByPassword(users[p.username], p.username, p.password)), AUTH_SUCCESSFUL)
  }

  /** A whole request: refused, or a socket for the server. */
  function Decide(s: State, p: Parse): (State, Phase)
    requires p.Request?
  {
    if p.errored || p.version != SOCKS_VERSION then (s.(rep := GENERAL_FAILURE), REQUEST_ERROR)
    else if p.cmd != COMMAND_CONNECT then (s.(rep := COMMAND_NOT_SUPPORTED), REQUEST_ERROR)
    else if p.addressType == ADD_TYPE_DOMAIN_NAME then (s.(rep := GENERAL_FAILURE), REQUEST_ERROR)
    else if p.addressType != ADD_TYPE_IP4 && p.addressType != ADD_TYPE_IP6 then
      (s.(rep := ADDRESS_TYPE_NOT_SUPPORTED), REQUEST_ERROR)
    else if p.socketFailed then (s.(rep := p.failure), REQUEST_ERROR)
    else (s.(server := OPEN, serverInterest := OP_WRITE), IP_CONNECT)
  }

  function RequestRead(s: State, p: Parse): (State, Phase)
    requires s.phase.REQUEST? && ParseFits(s.phase, s.input, p)
  {
    if p.More? then (Take(s, |s.input.content|), s.phase) else Decide(Take(s, p.n), p)
  }

  function ForwardingRead(s: State): (State, Phase) {
    if !s.client.OPEN? || !s.server.OPEN? then (s, FLUSH_CLOSER) else (ForwardingInterests(s), s.phase)
  }

  /** flush_closer_on_read for an event on the client's or the server's socket. */
  function FlushCloserRead(s: State, onClient: bool): (State, Phase) {
    var closyBuffer := if onClient then s.input else s.output;
    var closy := if onClient then s.client else s.server;
    var closer := if onClient then s.server else s.client;
    if closy.CLOSING? then
      if closer.CLOSED? && !closyBuffer.CanRead() then
        (if onClient then Shutdown(s, false).(client := CLOSED) else Shutdown(s, true).(server := CLOSED), FINISH)
      else (s, FLUSH_CLOSY)
    else
      var mine := if onClient then s.clientInterest else s.serverInterest;
      var other := if onClient then s.serverInterest else s.clientInterest;
      var mine' := if closyBuffer.CanWrite() then mine.(read := true) else mine;
      var other' := if closyBuffer.CanRead() then OP_WRITE else other;
      (if onClient then s.(clientInterest := mine', serverInterest := other')
       else s.(serverInterest := mine', clientInterest := other'), s.phase)
  }

  function ProcessRead(s0: State, onClient: bool, p: Parse, users: Users): State
    requires ParseFits(s0.phase, s0.input, p)
  {
    var s := HandleFirst(s0);
    if s.phase.HELLO? then var (s', next) := HelloRead(s, p); Jump(s', next)
    else if s.phase.AUTH_REQUEST? then var (s', next) := AuthRead(s, p, users); Jump(s', next)
    else if s.phase.REQUEST? then var (s', next) := RequestRead(s, p); Jump(s', next)
    else if s.phase.FORWARDING? then var (s', next) := ForwardingRead(s); Jump(s', next)
    else if s.phase.FLUSH_CLOSER? then var (s', next) := FlushCloserRead(s, onClient); Jump(s', next)
    else s
  }

  // ---------------------------------------------------------------- on_write

  function AnnouncementWrite(s: State, users: Users): (State, Phase) {
    if s.bytes == 2 && !s.output.CanRead() then
      if s.authMethod == NO_AUTHENTICATION then
        if ANONYMOUS in users then (s.(login := Anonymous(users[ANONYMOUS])), REQUEST)
        else (s.(outcome := Crashed), s.phase)
      else (s, AUTH_REQUEST)
    else (Marshall(s, HelloReply(s.authMethod)), s.phase)
  }

  function TwoByteWrite(s: State, msg: seq<byte>, next: Phase): (State, Phase) {
    if s.bytes == 2 && !s.output.CanRead() then (s, next) else (Marshall(s, msg), s.phase)
  }

  /** request_marshall reports completion once the reply is in the buffer, drained or not. */
  function ReplyWrite(s: State, next: Phase): (State, Phase) {
    var s' := Marshall(s, RequestReply(s.rep));
    (s', if s'.bytes >= 10 then next else s.phase)
  }

  function ConnectWrite(s: State, connectFailed: bool, failure: byte): (State, Phase) {
    if connectFailed then (s.(rep := failure, server := INVALID, serverInterest := OP_NOOP), REQUEST_ERROR)
    else (s, REQUEST_SUCCESSFUL)
  }

  function ProcessWrite(s0: State, users: Users, connectFailed: bool, failure: byte): State {
    var s := HandleFirst(s0);
    match s.phase
    case HELLO_ERROR => var (s', next) := TwoByteWrite(s, HelloReply(NO_ACCEPTABLE_METHODS), FINISH); Jump(s', next)
    case AUTH_METHOD_ANNOUNCEMENT => var (s', next) := AnnouncementWrite(s, users); Jump(s', next)
    case AUTH_ERROR => var (s', next) := TwoByteWrite(s, AuthReply(false), FINISH); Jump(s', next)
    case AUTH_SUCCESSFUL => var (s', next) := TwoByteWrite(s, AuthReply(true), REQUEST); Jump(s', next)
    case REQUEST_ERROR => var (s', next) := ReplyWrite(s, FINISH); Jump(s', next)
    case IP_CONNECT => var (s', next) := ConnectWrite(s, connectFailed, failure); Jump(s', next)
    case REQUEST_SUCCESSFUL => var (s', next) := ReplyWrite(s, FORWARDING); Jump(s', next)
    case FORWARDING => ForwardingInterests(s)
    case FLUSH_CLOSER => FlushCloserWrite(s)
    case FLUSH_CLOSY => var (s', next) := FlushClosyWrite(s); Jump(s', next)
    case _ => s
  }

  // ---------------------------------------------------------------- socket handlers

  function Abort(s: State): State { s.(outcome := Aborted) }

  /** The bytes a recv delivered, or an end of stream when there are none. */
  function ClientGot(s: State, data: seq<byte>): State {
    var s' := s.(input := s.input.Put(data), h := s.h.(fromClient := s.h.fromClient + data));
    if data == [] then s'.(client := CLOSING, clientEof := true) else s'
  }

  function ServerGot(s: State, data: seq<byte>): State {
    var s' := s.(output := s.output.Put(data), h := s.h.(fromServer := s.h.fromServer + data));
    if data == [] then s'.(server := CLOSING, serverEof := true) else s'
  }

  function ClientRecv(s: State, r: Recv, p: Parse, users: Users): State
    requires s.input.CanWrite() ==> ParseFits(s.phase, AfterRecv(s.input, r), p)
  {
    if !s.input.CanWrite() then Abort(s)
    else match r
      case Received(data) =>
        if data == [] && BeforeForwarding(s.phase) then Abort(s)
        else ProcessRead(ClientGot(s, data), true, p, users)
      case RecvFailed => Abort(s)
      case RecvInterrupted => s
  }

  function ServerRecv(s: State, r: Recv): State {
    if !s.output.CanWrite() then Abort(s)
    else match r
      case Received(data) =>
        if data == [] && BeforeForwarding(s.phase) then Abort(s)
        else ProcessRead(ServerGot(s, data), false, More, map[])
      case RecvFailed => Abort(s)
      case RecvInterrupted => s
  }

  function ClientSent(s: State, n: nat): State
    requires n <= |s.output.content|
  {
    s.(output := s.output.Drop(n), h := s.h.(toClient := s.h.toClient + s.output.content[..n]))
  }

  function ServerSent(s: State, n: nat): State
    requires n <= |s.input.content|
  {
    s.(input := s.input.Drop(n), h := s.h.(toServer := s.h.toServer + s.input.content[..n]))
  }

  function ClientSend(s: State, w: Send, users: Users): State
    requires s.output.CanRead() ==> SendFits(s.output, w)
  {
    if !s.output.CanRead() then ProcessWrite(s, users, false, 0)
    else match w
      case Sent(n) => ProcessWrite(ClientSent(s, n), users, false, 0)
      case SendFailed => Abort(s)
      case SendInterrupted => s
  }

  function ServerSend(s: State, w: Send, users: Users, connectFailed: bool, failure: byte): State
    requires s.input.CanRead() ==> SendFits(s.input, w)
  {
    if !s.input.CanRead() then ProcessWrite(s, users, connectFailed, failure)
    else match w
      case Sent(n) => ProcessWrite(ServerSent(s, n), users, connectFailed, failure)
      case SendFailed => Abort(s)
      case SendInterrupted => s
  }

  function Step(s: State, e: Event): State
    requires Enabled(s, e)
  {
    match e
    case ClientRead(r, p, users) => ClientRecv(s, r, p, users)
    case ClientWrite(w, users) => ClientSend(s, w, users)
    case ServerRead(r) => ServerRecv(s, r)
    case ServerWrite(w, users, connectFailed, failure) => ServerSend(s, w, users, connectFailed, failure)
  }

  ghost predicate Next(s: State, e: Event, t: State) {
    Enabled(s, e) && t == Step(s, e)
  }

  /** es takes the session from s to t, one enabled event after another. */
  ghost predicate Run(s: State, es: seq<Event>, t: State) {
    if es == [] then s == t
    else
      var before, last := es[..|es| - 1], es[|es| - 1];
      exists m :: Run(s, before, m) && Next(m, last, t)
  }
}
