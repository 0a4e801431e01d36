/**
  What a session promises over every run from its accepted connection on.
 */
module SessionTheorems {
  import opened Buckets
  import opened UserHandler
  import opened Buffers
  import opened Session
  import opened SessionSafety
  import opened Sockets

  /** s is where the events es take a session whose buffers hold cap bytes each. */
  ghost predicate Reached(cap: nat, es: seq<Event>, s: State) {
    cap > 0 && Run(Init(cap), es, s)
  }

  lemma ReachedInv(cap: nat, es: seq<Event>, s: State)
    requires Reached(cap, es, s)
    ensures Inv(s)
  {
    InitInv(cap);
    RunInv(Init(cap), es, s);
  }

  predicate RelayPhase(p: Phase) {
    p.FORWARDING? || p.FLUSH_CLOSER? || p.FLUSH_CLOSY?
  }

  /** At every moment, what each side was sent is a prefix of what it is due, in order, and the rest is
      in its buffer: nothing is lost, duplicated or reordered, whatever the chunk sizes. */
  lemma BytesConserved(cap: nat, es: seq<Event>, s: State)
    requires Reached(cap, es, s)
    ensures s.h.consumed <= |s.h.fromClient|
    ensures s.h.toServer + s.input.content == s.h.fromClient[s.h.consumed..]
    ensures s.h.toClient + s.output.content == s.h.replies + s.h.fromServer
  {
    ReachedInv(cap, es, s);
  }

  /** While bytes are relayed, the client was sent, or has waiting, exactly the method reply, the auth
      reply if a password was asked for, the ten-byte success reply, and the server's bytes. */
  lemma HandshakeBytes(cap: nat, es: seq<Event>, s: State)
    requires Reached(cap, es, s) && RelayPhase(s.phase)
    ensures s.authMethod in {0, 2}
    ensures s.h.toClient + s.output.content ==
            [5, s.authMethod] + (if s.authMethod == 2 then [5, 0] else [])
            + [5, 0, 0, 1, 0, 0, 0, 0, 0, 0] + s.h.fromServer
  {
    hide Run, Init;
    ReachedInv(cap, es, s);
    RelayingWhenRelayPhase(s);
  }

  lemma RelayingWhenRelayPhase(s: State)
    requires Inv(s) && RelayPhase(s.phase)
    ensures Relaying(s) && Conserved(s)
  {
    hide LoggedIn, Streams, Greeting;
  }

  /** From REQUEST on there is a user: the anonymous one if no authentication was agreed on, otherwise
      one whose stored password is the password presented with that name. */
  lemma Authenticated(cap: nat, es: seq<Event>, s: State)
    requires Reached(cap, es, s)
    requires s.phase in {REQUEST, REQUEST_ERROR, IP_CONNECT, REQUEST_SUCCESSFUL} || RelayPhase(s.phase)
    ensures (s.authMethod == 0 && s.login == Anonymous(INITIAL[ANONYMOUS]))
            || (s.authMethod == 2 && s.login.ByPassword?
                && s.login.user.username == s.login.username && s.login.user.password == s.login.password)
  {
    hide Run, Init;
    ReachedInv(cap, es, s);
    assert LoggedIn(s.authMethod, s.login) by { LoggedInSinceRequest(s); }
  }

  lemma LoggedInSinceRequest(s: State)
    requires Inv(s)
    requires s.phase in {REQUEST, REQUEST_ERROR, IP_CONNECT, REQUEST_SUCCESSFUL} || RelayPhase(s.phase)
    ensures LoggedIn(s.authMethod, s.login)
  {
    hide LoggedIn, Streams, Greeting;
  }

  /** The process never aborts for want of the anonymous user. */
  lemma NeverCrashes(cap: nat, es: seq<Event>, s: State)
    requires Reached(cap, es, s)
    ensures !s.outcome.Crashed?
  {
    ReachedInv(cap, es, s);
  }

  /** That is not for want of a crash in the model: it comes exactly when the announcement of method 0 was sent and no
      anonymous user is stored. */
  lemma CrashesExactlyWhen(s: State, users: Users)
    requires s.phase.AUTH_METHOD_ANNOUNCEMENT? && s.started && s.outcome.Running?
    ensures ProcessWrite(s, users, false, 0).outcome.Crashed? <==>
              s.bytes == 2 && s.output.content == [] && s.authMethod == 0 && ANONYMOUS !in users
  {
    hide Marshall, Arrive;
    MarshallKeeps(s, HelloReply(s.authMethod));
    ArriveKeepsOutcome(AnnouncementWrite(s, users).0.(phase := REQUEST));
    ArriveKeepsOutcome(AnnouncementWrite(s, users).0.(phase := AUTH_REQUEST));
  }

  /** The first event of a session finds no method chosen yet, whatever comes first. */
  lemma FirstArrival(cap: nat)
    ensures var s := HandleFirst(Init(cap));
            s.started && s.authMethod == 0xff && s.clientInterest == Interest(true, false) && HandleFirst(s) == s
  {}

  // ---------------------------------------------------------------- closing without delivery

  /** A read was asked for although the buffer it goes to has no room. */
  predicate ReadsIntoFull(s: State, e: Event) {
    (e.ClientRead? && !s.input.CanWrite()) || (e.ServerRead? && !s.output.CanWrite())
  }

  predicate EndsEarly(s: State, e: Event) {
    BeforeForwarding(s.phase) && ((e.ClientRead? && e.r == Received([])) || (e.ServerRead? && e.r == Received([])))
  }

  predicate Fails(s: State, e: Event) {
    match e
    case ClientRead(r, _, _) => r.RecvFailed?
    case ServerRead(r) => r.RecvFailed?
    case ClientWrite(w, _) => s.output.CanRead() && w.SendFailed?
    case ServerWrite(w, _, _, _) => s.input.CanRead() && w.SendFailed?
  }

  /** A session is dropped before its end exactly on a failed system call, on a client that goes away
      during the handshake, and on a read into a full buffer. */
  lemma AbortedExactlyWhen(cap: nat, es: seq<Event>, s: State, e: Event)
    requires Reached(cap, es, s) && Enabled(s, e)
    ensures Step(s, e).outcome.Aborted? <==> ReadsIntoFull(s, e) || EndsEarly(s, e) || Fails(s, e)
  {
    hide Run, Step, Enabled;
    ReachedInv(cap, es, s);
    AbortedStep(s, e);
  }

  lemma ArriveKeepsOutcome(s: State)
    ensures Arrive(s).outcome == s.outcome && Arrive(s).phase == s.phase && Arrive(s).input == s.input
    ensures s.phase.FINISH? ==> Arrive(s) == s
  {
    hide Marshall, HelloReply, AuthReply, RequestReply, FlushCloserWrite, FlushClosyWrite;
    match s.phase
    case HELLO_ERROR => MarshallKeeps(s.(bytes := 0), HelloReply(NO_ACCEPTABLE_METHODS));
    case AUTH_METHOD_ANNOUNCEMENT => MarshallKeeps(s.(bytes := 0), HelloReply(s.authMethod));
    case AUTH_ERROR => MarshallKeeps(s.(bytes := 0), AuthReply(false));
    case AUTH_SUCCESSFUL => MarshallKeeps(s.(bytes := 0), AuthReply(true));
    case REQUEST_ERROR => MarshallKeeps(s.(bytes := 0), RequestReply(s.rep));
    case REQUEST_SUCCESSFUL => MarshallKeeps(s.(bytes := 0, rep := SUCCESSFUL), RequestReply(SUCCESSFUL));
    case FLUSH_CLOSER => CloserKeeps(s);
    case FLUSH_CLOSY => ClosyKeeps(s);
    case _ =>
  }

  /** The flush states move no byte, and a closed side stays closed. */
  predicate Kept(s: State, t: State) {
    && t.input == s.input && t.output == s.output && t.h == s.h && t.started == s.started
    && (s.server.CLOSED? ==> t.server.CLOSED?) && (s.client.CLOSED? ==> t.client.CLOSED?)
  }

  lemma CloserKeeps(s: State)
    ensures var t := FlushCloserWrite(s); Kept(s, t) && t.outcome == s.outcome && t.phase == s.phase
  {}

  lemma DrainToServerKeeps(s: State)
    ensures var t := DrainToServer(s); Kept(s, t) && t.outcome == s.outcome && t.phase == s.phase
  {}

  lemma DrainToClientKeeps(s: State)
    ensures var t := DrainToClient(s); Kept(s, t) && t.outcome == s.outcome && t.phase == s.phase
  {}

  lemma ClosyKeeps(s: State)
    ensures var (t, next) := FlushClosyWrite(s);
            && Kept(s, t) && t.outcome == s.outcome && t.phase == s.phase
            && next == if t.client.CLOSED? && t.server.CLOSED? then FINISH else s.phase
  {
    hide DrainToServer, DrainToClient;
    DrainToServerKeeps(s);
    DrainToClientKeeps(DrainToServer(s));
  }

  lemma CloserReadKeeps(s: State, onClient: bool)
    ensures var (t, next) := FlushCloserRead(s, onClient);
            && Kept(s, t) && t.outcome == s.outcome && t.phase == s.phase
            && (next == s.phase || next.FLUSH_CLOSY? || (next.FINISH? && t.client.CLOSED? && t.server.CLOSED?))
  {}

  lemma FlushJumpKeeps(s: State, next: Phase)
    requires next == s.phase || next.FLUSH_CLOSY? || next.FINISH?
    ensures Kept(s, Jump(s, next))
  {
    hide FlushClosyWrite;
    ClosyKeeps(s.(phase := FLUSH_CLOSY));
  }

  lemma MarshallKeeps(s: State, msg: seq<byte>)
    ensures var t := Marshall(s, msg); t.outcome == s.outcome && t.phase == s.phase && t.input == s.input
  {}

  lemma JumpOutcome(s: State, next: Phase)
    ensures Jump(s, next).outcome == if next.FINISH? then Finished else s.outcome
    ensures next.FINISH? && !s.phase.FINISH? ==> Jump(s, next) == s.(phase := FINISH, outcome := Finished)
    ensures next == s.phase && !next.FINISH? ==> Jump(s, next) == s
  {
    hide Arrive;
    ArriveKeepsOutcome(s.(phase := next));
  }

  lemma ReadsKeepOutcome(s: State, onClient: bool, p: Parse, users: Users)
    requires ParseFits(s.phase, s.input, p)
    ensures s.phase.HELLO? ==> HelloRead(s, p).0.outcome == s.outcome
    ensures s.phase.AUTH_REQUEST? ==> AuthRead(s, p, users).0.outcome == s.outcome
    ensures s.phase.REQUEST? ==> RequestRead(s, p).0.outcome == s.outcome
    ensures FlushCloserRead(s, onClient).0.outcome == s.outcome
  {
    hide Choose;
  }

  lemma ReadNeverAborts(s0: State, onClient: bool, p: Parse, users: Users)
    requires ParseFits(s0.phase, s0.input, p) && !s0.outcome.Aborted?
    ensures !ProcessRead(s0, onClient, p, users).outcome.Aborted?
  {
    hide Arrive, Jump, HelloRead, AuthRead, RequestRead, FlushCloserRead;
    ArriveKeepsOutcome(s0.(started := true));
    var s := HandleFirst(s0);
    assert ParseFits(s.phase, s.input, p) && !s.outcome.Aborted?;
    ReadsKeepOutcome(s, onClient, p, users);
    match s.phase
    case HELLO => JumpOutcome(HelloRead(s, p).0, HelloRead(s, p).1);
    case AUTH_REQUEST => JumpOutcome(AuthRead(s, p, users).0, AuthRead(s, p, users).1);
    case REQUEST => JumpOutcome(RequestRead(s, p).0, RequestRead(s, p).1);
    case FORWARDING => JumpOutcome(ForwardingRead(s).0, ForwardingRead(s).1);
    case FLUSH_CLOSER => JumpOutcome(FlushCloserRead(s, onClient).0, FlushCloserRead(s, onClient).1);
    case _ =>
  }

  lemma WriteNeverAborts(s0: State, users: Users, connectFailed: bool, failure: byte)
    requires !s0.outcome.Aborted?
    ensures !ProcessWrite(s0, users, connectFailed, failure).outcome.Aborted?
  {
    hide Arrive, Jump, Marshall, HelloReply, AuthReply, RequestReply, FlushCloserWrite, FlushClosyWrite;
    ArriveKeepsOutcome(s0.(started := true));
    var s := HandleFirst(s0);
    match s.phase
    case HELLO_ERROR => HandshakeWriteOutcome(s, HelloReply(NO_ACCEPTABLE_METHODS), FINISH);
    case AUTH_METHOD_ANNOUNCEMENT =>
      MarshallKeeps(s, HelloReply(s.authMethod));
      var (s', next) := AnnouncementWrite(s, users);
      JumpOutcome(s', next);
    case AUTH_ERROR => HandshakeWriteOutcome(s, AuthReply(false), FINISH);
    case AUTH_SUCCESSFUL => HandshakeWriteOutcome(s, AuthReply(true), REQUEST);
    case REQUEST_ERROR => HandshakeWriteOutcome(s, RequestReply(s.rep), FINISH);
    case IP_CONNECT => var (s', next) := ConnectWrite(s, connectFailed, failure); JumpOutcome(s', next);
    case REQUEST_SUCCESSFUL => HandshakeWriteOutcome(s, RequestReply(s.rep), FORWARDING);
    case FLUSH_CLOSER => CloserKeeps(s);
    case FLUSH_CLOSY => ClosyKeeps(s); JumpOutcome(FlushClosyWrite(s).0, FlushClosyWrite(s).1);
    case _ =>
  }

  lemma HandshakeWriteOutcome(s: State, msg: seq<byte>, next: Phase)
    requires !s.outcome.Aborted?
    ensures var (s', n) := TwoByteWrite(s, msg, next); !Jump(s', n).outcome.Aborted?
    ensures msg == RequestReply(s.rep) ==> var (s', n) := ReplyWrite(s, next); !Jump(s', n).outcome.Aborted?
  {
    hide Arrive, Jump, Marshall, RequestReply;
    MarshallKeeps(s, msg);
    JumpOutcome(TwoByteWrite(s, msg, next).0, TwoByteWrite(s, msg, next).1);
    JumpOutcome(ReplyWrite(s, next).0, ReplyWrite(s, next).1);
  }

  lemma AbortedStep(s: State, e: Event)
    requires Enabled(s, e)
    ensures Step(s, e).outcome.Aborted? <==> ReadsIntoFull(s, e) || EndsEarly(s, e) || Fails(s, e)
  {
    hide ProcessRead, ProcessWrite;
    match e
    case ClientRead(r, p, users) =>
      if s.input.CanWrite() && r.Received? { ReadNeverAborts(ClientGot(s, r.data), true, p, users); }
    case ServerRead(r) =>
      if s.output.CanWrite() && r.Received? { ReadNeverAborts(ServerGot(s, r.data), false, More, map[]); }
    case ClientWrite(w, users) =>
      if !s.output.CanRead() { WriteNeverAborts(s, users, false, 0); }
      else if w.Sent? { WriteNeverAborts(ClientSent(s, w.n), users, false, 0); }
    case ServerWrite(w, users, connectFailed, failure) =>
      if !s.input.CanRead() { WriteNeverAborts(s, users, connectFailed, failure); }
      else if w.Sent? { WriteNeverAborts(ServerSent(s, w.n), users, connectFailed, failure); }
  }

  /** The read into a full buffer never happens while forwarding, nor in the first handshake state: an
      interest in reading implies room there. */
  lemma NoFullReadWhileForwarding(cap: nat, es: seq<Event>, s: State, e: Event)
    requires Reached(cap, es, s) && Enabled(s, e) && ReadsIntoFull(s, e)
    ensures s.phase in {AUTH_REQUEST, REQUEST, FLUSH_CLOSER}
  {
    ReachedInv(cap, es, s);
  }

  /** What recv brings on one side of a relay. */
  function ReadOn(onClient: bool, r: Recv): Event {
    if onClient then ClientRead(r, More, INITIAL) else ServerRead(r)
  }

  /** The side that is still open while the other one, the closer, is flushed, and its buffer. */
  predicate Closy(s: State, onClient: bool) {
    s.outcome.Running? && s.phase.FLUSH_CLOSER? && if onClient then s.client.OPEN? else s.server.OPEN?
  }

  function ReadBuffer(s: State, onClient: bool): Buf {
    if onClient then s.input else s.output
  }

  /** It can happen while flushing the closer: that state goes on asking to read after the closy's
      buffer was filled to the last byte, and the next readable event drops the session. */
  lemma FlushCloserReadsOn(s: State, onClient: bool, data: seq<byte>, r: Recv)
    requires Inv(s) && Closy(s, onClient) && ReadBuffer(s, onClient).CanWrite()
    requires |data| == ReadBuffer(s, onClient).Room()
    ensures Enabled(s, ReadOn(onClient, Received(data)))
    ensures var t := Step(s, ReadOn(onClient, Received(data)));
            Closy(t, onClient) && Enabled(t, ReadOn(onClient, r)) && Step(t, ReadOn(onClient, r)).outcome.Aborted?
  {
    RunsAreSound([]);
  }

  // ---------------------------------------------------------------- finishing

  /** A relay that finishes has delivered every byte received from either side, and each socket was shut
      down for writing exactly once. */
  lemma FinishDelivers(cap: nat, es: seq<Event>, s: State, e: Event, t: State)
    requires Reached(cap, es, s) && Next(s, e, t) && RelayPhase(s.phase) && t.outcome.Finished?
    ensures t.clientEof && t.serverEof && t.shutClient == 1 && t.shutServer == 1
    ensures t.h.consumed <= |t.h.fromClient|
    ensures t.h.toServer == t.h.fromClient[t.h.consumed..]
    ensures t.h.toClient == t.h.replies + t.h.fromServer
  {
    hide Run, Init, Step, Enabled;
    ReachedInv(cap, es, s);
    StepInv(s, e);
    FinishedIsClosed(s, e, t);
    ClosedIsDelivered(t);
  }

  lemma ClosedIsDelivered(t: State)
    requires Inv(t) && t.client.CLOSED? && t.server.CLOSED?
    ensures t.clientEof && t.serverEof && t.shutClient == 1 && t.shutServer == 1
    ensures t.h.consumed <= |t.h.fromClient|
    ensures t.h.toServer == t.h.fromClient[t.h.consumed..]
    ensures t.h.toClient == t.h.replies + t.h.fromServer
  {
    hide PhaseInv;
  }

  lemma ReadFinishes(s: State, onClient: bool, p: Parse, users: Users)
    requires s.started && RelayPhase(s.phase) && !s.outcome.Finished? && ParseFits(s.phase, s.input, p)
    requires ProcessRead(s, onClient, p, users).outcome.Finished?
    ensures s.phase.FLUSH_CLOSER?
    ensures ProcessRead(s, onClient, p, users).client.CLOSED? && ProcessRead(s, onClient, p, users).server.CLOSED?
  {
    hide Arrive, Jump;
    if s.phase.FORWARDING? {
      JumpOutcome(ForwardingRead(s).0, ForwardingRead(s).1);
    } else if s.phase.FLUSH_CLOSER? {
      JumpOutcome(FlushCloserRead(s, onClient).0, FlushCloserRead(s, onClient).1);
    }
  }

  lemma WriteFinishes(s: State, users: Users, connectFailed: bool, failure: byte)
    requires s.started && RelayPhase(s.phase) && !s.outcome.Finished?
    ensures ProcessWrite(s, users, connectFailed, failure).outcome.Finished? <==>
              s.phase.FLUSH_CLOSY? && FlushClosyWrite(s).1.FINISH?
    ensures s.phase.FLUSH_CLOSY? ==>
              var t := ProcessWrite(s, users, connectFailed, failure);
              t.input == s.input && t.output == s.output
              && (FlushClosyWrite(s).1.FINISH? ==> t.client.CLOSED? && t.server.CLOSED?)
  {
    hide Arrive, Jump, FlushClosyWrite, FlushCloserWrite;
    CloserKeeps(s);
    ClosyKeeps(s);
    if s.phase.FLUSH_CLOSY? {
      JumpOutcome(FlushClosyWrite(s).0, FlushClosyWrite(s).1);
      FlushJumpKeeps(FlushClosyWrite(s).0, FlushClosyWrite(s).1);
    }
  }

  lemma FinishedIsClosed(s: State, e: Event, t: State)
    requires Inv(s) && Next(s, e, t) && RelayPhase(s.phase) && t.outcome.Finished?
    ensures t.client.CLOSED? && t.server.CLOSED?
  {
    hide ProcessRead, ProcessWrite, PhaseInv, Conserved, Ends, FlushClosyWrite;
    match e
    case ClientRead(r, p, users) => ReadFinishes(ClientGot(s, r.data), true, p, users);
    case ServerRead(r) => ReadFinishes(ServerGot(s, r.data), false, More, map[]);
    case ClientWrite(w, users) =>
      WriteFinishes(if s.output.CanRead() then ClientSent(s, w.n) else s, users, false, 0);
    case ServerWrite(w, users, connectFailed, failure) =>
      WriteFinishes(if s.input.CanRead() then ServerSent(s, w.n) else s, users, connectFailed, failure);
  }

  /** Once a socket was shut down for writing, that stays so and no byte is sent on it any more. */
  lemma ShutdownIsFinal(cap: nat, es: seq<Event>, s: State, e: Event, t: State)
    requires Reached(cap, es, s) && Next(s, e, t)
    ensures s.shutClient <= t.shutClient <= 1 && s.shutServer <= t.shutServer <= 1
    ensures s.shutClient == 1 ==> t.h.toClient == s.h.toClient
    ensures s.shutServer == 1 ==> t.h.toServer == s.h.toServer
  {
    hide Run, Init, Step, Enabled;
    ReachedInv(cap, es, s);
    StepInv(s, e);
    if s.server.CLOSED? { ServerClosedStays(s, e, t); }
    if s.client.CLOSED? { ClientClosedStays(s, e, t); }
  }

  lemma ServerClosedStays(s: State, e: Event, t: State)
    requires Inv(s) && Next(s, e, t) && s.server.CLOSED?
    ensures t.server.CLOSED? && t.h.toClient == s.h.toClient
  {
    hide Streams, LoggedIn, Greeting, ProcessRead, ProcessWrite;
    match e
    case ClientRead(r, p, users) =>
      if s.input.CanWrite() && r.Received? { ReadKeeps(ClientGot(s, r.data), true, p, users); }
    case ServerRead(r) =>
    case ClientWrite(w, users) =>
    case ServerWrite(w, users, connectFailed, failure) =>
      if w.Sent? { WriteKeeps(ServerSent(s, w.n), users, connectFailed, failure); }
  }

  lemma ClientClosedStays(s: State, e: Event, t: State)
    requires Inv(s) && Next(s, e, t) && s.client.CLOSED?
    ensures t.client.CLOSED? && t.h.toServer == s.h.toServer
  {
    hide Streams, LoggedIn, Greeting, ProcessRead, ProcessWrite;
    match e
    case ServerRead(r) =>
      if s.output.CanWrite() && r.Received? { ReadKeeps(ServerGot(s, r.data), false, More, map[]); }
    case ClientRead(r, p, users) =>
    case ServerWrite(w, users, _, _) =>
    case ClientWrite(w, users) =>
      if w.Sent? { WriteKeeps(ClientSent(s, w.n), users, false, 0); }
  }

  lemma ReadKeeps(s: State, onClient: bool, p: Parse, users: Users)
    requires s.started && s.phase.FLUSH_CLOSER? && ParseFits(s.phase, s.input, p)
    ensures Kept(s, ProcessRead(s, onClient, p, users))
  {
    hide Arrive, Jump, FlushClosyWrite, FlushCloserWrite, FlushCloserRead;
    CloserReadKeeps(s, onClient);
    FlushJumpKeeps(FlushCloserRead(s, onClient).0, FlushCloserRead(s, onClient).1);
  }

  lemma WriteKeeps(s: State, users: Users, connectFailed: bool, failure: byte)
    requires s.started && s.phase in {FLUSH_CLOSER, FLUSH_CLOSY}
    ensures Kept(s, ProcessWrite(s, users, connectFailed, failure))
  {
    hide Arrive, Jump, FlushClosyWrite, FlushCloserWrite;
    CloserKeeps(s);
    ClosyKeeps(s);
    if s.phase.FLUSH_CLOSY? {
      FlushJumpKeeps(FlushClosyWrite(s).0, FlushClosyWrite(s).1);
    }
  }

  /** A socket is shut down only after the other side's end of stream was seen and everything due to
      this one was sent. */
  lemma ShutdownTiming(cap: nat, es: seq<Event>, s: State, e: Event, t: State)
    requires Reached(cap, es, s) && Next(s, e, t)
    ensures t.shutClient > s.shutClient ==> t.serverEof && t.h.toClient == t.h.replies + t.h.fromServer
    ensures t.shutServer > s.shutServer ==>
              t.clientEof && t.h.consumed <= |t.h.fromClient| && t.h.toServer == t.h.fromClient[t.h.consumed..]
  {
    hide Run, Init, Step, Enabled, PhaseInv;
    ReachedInv(cap, es, s);
    StepInv(s, e);
  }

  // ---------------------------------------------------------------- progress

  /** A session that is still running always waits for something the selector can deliver. */
  lemma NeverStalls(cap: nat, es: seq<Event>, s: State)
    requires Reached(cap, es, s) && s.outcome.Running?
    ensures exists e :: Enabled(s, e)
  {
    hide Run, Init;
    ReachedInv(cap, es, s);
    SomeInterest(s);
    RunsAreSound([]);
    assert s.clientInterest.read ==> Enabled(s, ClientRead(Received([]), More, INITIAL));
    assert s.serverInterest.read ==> Enabled(s, ServerRead(Received([])));
    assert s.clientInterest.write ==> Enabled(s, ClientWrite(Sent(1), INITIAL));
    assert s.serverInterest.write ==> Enabled(s, ServerWrite(Sent(1), INITIAL, false, 0));
  }

  /** Where a state that answers the client goes when its answer is out. */
  function AfterAnswer(s: State): Phase {
    match s.phase
    case AUTH_METHOD_ANNOUNCEMENT => if s.authMethod == 0 then REQUEST else AUTH_REQUEST
    case AUTH_SUCCESSFUL => REQUEST
    case REQUEST_SUCCESSFUL => FORWARDING
    case _ => FINISH
  }

  /** The state moves on, and the session ends where there is no next state. */
  predicate MovesOn(s: State, t: State) {
    t.phase == AfterAnswer(s) && (if t.phase.FINISH? then t.outcome.Finished? else t.outcome == s.outcome)
  }

  /** The handshake goes on: a two-byte answer that was in the buffer and is sent to the last byte is followed by the
      next state, at once; before that more of it goes into the buffer, until all of it is there or the buffer is full.
      A ten-byte reply is followed by the next state as soon as all of it found room. */
  lemma HandshakeProgress(cap: nat, es: seq<Event>, s: State, e: Event, t: State)
    requires Reached(cap, es, s) && Next(s, e, t) && e.ClientWrite? && (s.output.content == [] || e.w.Sent?)
    ensures s.phase in {HELLO_ERROR, AUTH_METHOD_ANNOUNCEMENT, AUTH_ERROR, AUTH_SUCCESSFUL} ==>
              if s.bytes == 2 && SendsAll(s, e) then MovesOn(s, t)
              else t.phase == s.phase && t.outcome.Running? && (t.bytes == 2 || t.output.Room() == 0)
    ensures s.phase in {REQUEST_ERROR, REQUEST_SUCCESSFUL} ==>
              MovesOn(s, t) || (t.phase == s.phase && t.outcome.Running? && t.bytes < 10 && t.output.Room() == 0)
  {
    hide Run, Init, Step, Enabled, SendsAll, MovesOn;
    ReachedInv(cap, es, s);
    if s.phase in {HELLO_ERROR, AUTH_METHOD_ANNOUNCEMENT, AUTH_ERROR, AUTH_SUCCESSFUL, REQUEST_ERROR,
                   REQUEST_SUCCESSFUL} {
      var s1 := AnswerState(s, e, t);
      if s.phase in {REQUEST_ERROR, REQUEST_SUCCESSFUL} { TenByteProgress(s1, e.users); } else {
        TwoByteProgress(s1, e.users);
      }
    }
  }

  /** What an answering state and the send leave for the write action. */
  lemma AnswerState(s: State, e: Event, t: State) returns (s1: State)
    requires Inv(s) && Next(s, e, t) && e.ClientWrite? && (s.output.content == [] || e.w.Sent?)
    requires s.phase in {HELLO_ERROR, AUTH_METHOD_ANNOUNCEMENT, AUTH_ERROR, AUTH_SUCCESSFUL, REQUEST_ERROR,
                         REQUEST_SUCCESSFUL}
    ensures Answering(s1) && t == ProcessWrite(s1, e.users, false, 0)
    ensures s1.bytes == s.bytes && s1.phase == s.phase && (MovesOn(s1, t) <==> MovesOn(s, t))
    ensures s1.output.content == [] <==> SendsAll(s, e)
    ensures s.phase.AUTH_METHOD_ANNOUNCEMENT? ==> ANONYMOUS in e.users
  {
    hide Streams, LoggedIn, Greeting, ProcessWrite;
    s1 := if s.output.CanRead() then ClientSent(s, e.w.n) else s;
  }

  predicate Answering(s: State) {
    && s.started && s.outcome.Running? && s.output.Room() >= 0
    && (s.phase in {REQUEST_ERROR, REQUEST_SUCCESSFUL} ==> s.bytes <= 10)
    && (s.phase in {HELLO_ERROR, AUTH_METHOD_ANNOUNCEMENT, AUTH_ERROR, AUTH_SUCCESSFUL} ==> s.bytes <= 2)
  }

  lemma JumpMoves(s: State, next: Phase)
    ensures Jump(s, next).phase == next
    ensures Jump(s, next).outcome == if next.FINISH? then Finished else s.outcome
  {
    hide Arrive;
    ArriveKeepsOutcome(s.(phase := next));
  }

  lemma TwoByteProgress(s: State, users: Users)
    requires Answering(s) && s.phase in {HELLO_ERROR, AUTH_METHOD_ANNOUNCEMENT, AUTH_ERROR, AUTH_SUCCESSFUL}
    requires s.phase.AUTH_METHOD_ANNOUNCEMENT? ==> ANONYMOUS in users
    ensures var t := ProcessWrite(s, users, false, 0);
            if s.bytes == 2 && s.output.content == [] then MovesOn(s, t)
            else t.phase == s.phase && t.outcome.Running? && (t.bytes == 2 || t.output.Room() == 0)
  {
    hide Jump, Marshall;
    var msg := match s.phase
      case HELLO_ERROR => HelloReply(NO_ACCEPTABLE_METHODS)
      case AUTH_METHOD_ANNOUNCEMENT => HelloReply(s.authMethod)
      case AUTH_ERROR => AuthReply(false)
      case _ => AuthReply(true);
    MarshallFillsUp(s, msg);
    MarshallKeeps(s, msg);
    JumpMoves(s, AfterAnswer(s));
    JumpMoves(AnnouncementWrite(s, users).0, AfterAnswer(s));
    JumpOutcome(Marshall(s, msg), s.phase);
  }

  lemma TenByteProgress(s: State, users: Users)
    requires Answering(s) && s.phase in {REQUEST_ERROR, REQUEST_SUCCESSFUL}
    ensures var t := ProcessWrite(s, users, false, 0);
            MovesOn(s, t) || (t.phase == s.phase && t.outcome.Running? && t.bytes < 10 && t.output.Room() == 0)
  {
    hide Jump, Marshall;
    var s' := Marshall(s, RequestReply(s.rep));
    MarshallFillsUp(s, RequestReply(s.rep));
    MarshallKeeps(s, RequestReply(s.rep));
    JumpMoves(s', AfterAnswer(s));
    JumpOutcome(s', s.phase);
  }

  lemma SomeInterest(s: State)
    requires Inv(s) && s.outcome.Running?
    ensures s.clientInterest.read || s.clientInterest.write || s.serverInterest.read || s.serverInterest.write
  {
    hide Streams, LoggedIn, Greeting;
  }

  /** In FLUSH_CLOSY nothing is read any more, every successful send takes its bytes off the backlog, and
      the session finishes exactly when the backlog is gone. */
  lemma FlushClosyProgress(cap: nat, es: seq<Event>, s: State, e: Event, t: State)
    requires Reached(cap, es, s) && Next(s, e, t) && s.phase.FLUSH_CLOSY?
    ensures |s.input.content| + |s.output.content| > 0
    ensures e.ClientWrite? || e.ServerWrite?
    ensures e.w.Sent? ==> |t.input.content| + |t.output.content| == |s.input.content| + |s.output.content| - e.w.n
    ensures t.outcome.Finished? <==> |t.input.content| + |t.output.content| == 0
  {
    hide Run, Init;
    ReachedInv(cap, es, s);
    ClosyStep(s, e, t);
  }

  lemma ClosyWriteResult(s: State)
    requires Ends(s) && s.clientEof && s.serverEof && s.phase.FLUSH_CLOSY?
    ensures FlushClosyWrite(s).1.FINISH? <==> s.input.content == [] && s.output.content == []
  {}

  lemma ClosyStep(s: State, e: Event, t: State)
    requires Inv(s) && Next(s, e, t) && s.phase.FLUSH_CLOSY?
    ensures |s.input.content| + |s.output.content| > 0
    ensures e.ClientWrite? || e.ServerWrite?
    ensures e.w.Sent? ==> |t.input.content| + |t.output.content| == |s.input.content| + |s.output.content| - e.w.n
    ensures t.outcome.Finished? <==> |t.input.content| + |t.output.content| == 0
  {
    hide Streams, LoggedIn, Greeting, ProcessWrite, FlushClosyWrite;
    if e.w.Sent? {
      var s1 := if e.ClientWrite? then ClientSent(s, e.w.n) else ServerSent(s, e.w.n);
      ClosyWriteResult(s1);
      var failed := e.ServerWrite? && e.connectFailed;
      WriteFinishes(s1, e.users, failed, if e.ServerWrite? then e.failure else 0);
    }
  }

  /** Entering FLUSH_CLOSY discards what its write handler returns; nothing is lost by that, because a
      side that is closing there still has bytes waiting, so the handler never returns FINISH. */
  lemma FlushClosyArrival(cap: nat, es: seq<Event>, s: State, e: Event, t: State)
    requires Reached(cap, es, s) && Next(s, e, t) && s.phase.FLUSH_CLOSER? && t.phase.FLUSH_CLOSY?
    ensures FlushClosyWrite(t).1.FLUSH_CLOSY?
    ensures t.input.content != [] || t.output.content != []
  {
    hide Run, Init, Step, Enabled, FlushClosyWrite, Streams, LoggedIn, Greeting;
    ReachedInv(cap, es, s);
    StepInv(s, e);
    ClosyArrives(t);
  }

  lemma ClosyArrives(t: State)
    requires Inv(t) && t.phase.FLUSH_CLOSY?
    ensures FlushClosyWrite(t).1.FLUSH_CLOSY?
    ensures t.input.content != [] || t.output.content != []
  {
    hide Streams, LoggedIn, Greeting;
  }

  /** While the closer is flushed, a closer that was not shut down yet has bytes waiting for the closy. */
  lemma CloserHasBytes(cap: nat, es: seq<Event>, s: State)
    requires Reached(cap, es, s) && s.phase.FLUSH_CLOSER?
    ensures s.client.OPEN? != s.server.OPEN?
    ensures s.client.CLOSING? ==> s.input.content != []
    ensures s.server.CLOSING? ==> s.output.content != []
  {
    hide Run, Init, Streams, LoggedIn, Greeting;
    ReachedInv(cap, es, s);
  }

  // ---------------------------------------------------------------- refusals

  /** A refused hello or password is answered before the session ends. */
  lemma RefusalIsDelivered(cap: nat, es: seq<Event>, s: State, e: Event, t: State)
    requires Reached(cap, es, s) && Next(s, e, t) && s.phase in {HELLO_ERROR, AUTH_ERROR} && t.outcome.Finished?
    ensures t.h.toClient == if s.phase.HELLO_ERROR? then [5, 0xff] else [5, 2, 5, 0xff]
  {
    hide Run, Init;
    ReachedInv(cap, es, s);
    RefusalStep(s, e, t);
  }

  lemma RefusalStep(s: State, e: Event, t: State)
    requires Inv(s) && Next(s, e, t) && s.phase in {HELLO_ERROR, AUTH_ERROR} && t.outcome.Finished?
    ensures t.h.toClient == if s.phase.HELLO_ERROR? then [5, 0xff] else [5, 2, 5, 0xff]
  {
    hide Step, Enabled, Conserved;
    RefusalEnds(s, e, t);
    var msg := if s.phase.HELLO_ERROR? then HelloReply(NO_ACCEPTABLE_METHODS) else AuthReply(false);
    assert msg[..s.bytes] == msg && [] + msg == msg;
    NoServerStream(t);
    assert t.h.toClient + [] == t.h.toClient;
  }

  /** The event that ends a refusal sent the last bytes of the buffer. */
  lemma RefusalEnds(s: State, e: Event, t: State)
    requires Inv(s) && Next(s, e, t) && s.phase in {HELLO_ERROR, AUTH_ERROR} && t.outcome.Finished?
    ensures s.bytes == 2 && t.h.replies == s.h.replies
    ensures Conserved(t) && t.output.content == [] && t.h.fromServer == []
  {
    hide LoggedIn, Greeting, Partly, Streams;
    StepInv(s, e);
  }

  /** The event is a write that leaves nothing in the client's buffer. */
  predicate SendsAll(s: State, e: Event) {
    e.ClientWrite? && (s.output.content == [] || (e.w.Sent? && e.w.n == |s.output.content|))
  }

  /** A refused request need not be: its reply is delivered exactly when it had found room in the buffer
      before the last write, and that write took all that was left of it. */
  lemma RequestErrorAnswered(cap: nat, es: seq<Event>, s: State, e: Event, t: State)
    requires Reached(cap, es, s) && Next(s, e, t) && s.phase.REQUEST_ERROR? && t.outcome.Finished?
    ensures t.h.toClient == Answers(s.authMethod, s.rep) <==> s.bytes == 10 && SendsAll(s, e)
    ensures t.h.toClient <= Answers(s.authMethod, s.rep)
  {
    hide Run, Init, Step, Enabled, Greeting, RequestReply, SendsAll, Answers;
    ReachedInv(cap, es, s);
    RequestErrorStep(s, e, t);
    AnswersAre(s.authMethod, s.rep);
  }

  /** What the proxy says to a client that came as far as its request: the method, the acceptance of a password if one
      was asked for, and the reply of ten bytes. */
  function Answers(m: byte, rep: byte): seq<byte> {
    [5, m] + (if m == 2 then [5, 0] else []) + [5, rep, 0, 1, 0, 0, 0, 0, 0, 0]
  }

  lemma AnswersAre(m: byte, rep: byte)
    ensures Answers(m, rep) == Greeting(m) + RequestReply(rep)
  {}

  /** A refused request keeps its reply code until the session ends. */
  lemma RefusalKeepsCode(cap: nat, es: seq<Event>, s: State, e: Event, t: State)
    requires Reached(cap, es, s) && Next(s, e, t) && s.phase.REQUEST_ERROR?
    ensures t.rep == s.rep && t.authMethod == s.authMethod && (t.phase.REQUEST_ERROR? || t.outcome.Finished?)
  {
    hide Run, Init;
    ReachedInv(cap, es, s);
    RefusedStep(s, e, t);
  }

  lemma RefusedStep(s: State, e: Event, t: State)
    requires Inv(s) && Next(s, e, t) && s.phase.REQUEST_ERROR?
    ensures t.rep == s.rep && t.authMethod == s.authMethod && (t.phase.REQUEST_ERROR? || t.outcome.Finished?)
  {
    hide Streams, LoggedIn, Greeting, RequestReply, ProcessWrite;
    assert e.ClientWrite?;
    RefusedWrite(s, e.users);
    if s.output.CanRead() && e.w.Sent? { RefusedWrite(ClientSent(s, e.w.n), e.users); }
  }

  lemma RefusedWrite(s: State, users: Users)
    requires s.phase.REQUEST_ERROR? && s.started && s.output.Room() >= 0
    ensures var t := ProcessWrite(s, users, false, 0);
            t.rep == s.rep && t.authMethod == s.authMethod && (t.phase.REQUEST_ERROR? || t.outcome.Finished?)
  {
    hide RequestReply, Fitting;
  }

  /** The kernel's word on the connection: unless the send of early bytes fails or is interrupted, a failed one is
      refused with the reason given and the server's side forgotten, and any other is announced as a success. */
  lemma ConnectOutcome(cap: nat, es: seq<Event>, s: State, e: Event, t: State)
    requires Reached(cap, es, s) && Next(s, e, t) && s.phase.IP_CONNECT? && e.ServerWrite?
    requires s.input.content == [] || e.w.Sent?
    ensures e.connectFailed ==>
              && t.phase.REQUEST_ERROR? && t.rep == e.failure && t.server.INVALID? && t.serverInterest == OP_NOOP
              && t.h.toClient + t.output.content <= Answers(t.authMethod, e.failure)
    ensures !e.connectFailed ==>
              && t.phase.REQUEST_SUCCESSFUL? && t.server.OPEN?
              && t.h.toClient + t.output.content <= Answers(t.authMethod, 0)
    ensures t.clientInterest == OP_WRITE && t.authMethod == s.authMethod && t.outcome.Running?
  {
    hide Run, Init, Step, Enabled, Answers;
    ReachedInv(cap, es, s);
    StepInv(s, e);
    ConnectStep(s, e, t);
    AnswersAre(t.authMethod, t.rep);
    AnswersBegin(t);
  }

  lemma ConnectStep(s: State, e: Event, t: State)
    requires Inv(s) && Next(s, e, t) && s.phase.IP_CONNECT? && e.ServerWrite?
    requires s.input.content == [] || e.w.Sent?
    ensures e.connectFailed ==> t.phase.REQUEST_ERROR? && t.rep == e.failure && t.server.INVALID?
    ensures !e.connectFailed ==> t.phase.REQUEST_SUCCESSFUL? && t.rep == 0 && t.server.OPEN?
    ensures t.authMethod == s.authMethod && t.outcome.Running?
  {
    hide Streams, LoggedIn, Greeting, RequestReply;
  }

  lemma AnswersBegin(t: State)
    requires Inv(t) && (t.phase.REQUEST_ERROR? || t.phase.REQUEST_SUCCESSFUL?)
    ensures t.h.toClient + t.output.content <= Greeting(t.authMethod) + RequestReply(t.rep)
    ensures t.clientInterest == OP_WRITE && t.serverInterest == OP_NOOP
  {
    hide LoggedIn, Greeting, RequestReply;
    assert t.h.replies + [] == t.h.replies;
  }

  /** A reply goes into the buffer as far as there is room: either all of it is there, or the buffer is full. */
  lemma MarshallFillsUp(s: State, msg: seq<byte>)
    requires s.bytes <= |msg| && s.output.Room() >= 0
    ensures var t := Marshall(s, msg);
            && s.bytes <= t.bytes <= |msg| && (t.bytes == |msg| || t.output.Room() == 0)
            && t.output.content == s.output.content + msg[s.bytes..t.bytes]
            && t.h == s.h.(replies := s.h.replies + msg[s.bytes..t.bytes])
  {}

  lemma RequestErrorStep(s: State, e: Event, t: State)
    requires Inv(s) && Next(s, e, t) && s.phase.REQUEST_ERROR? && t.outcome.Finished?
    ensures t.h.toClient == Greeting(s.authMethod) + RequestReply(s.rep) <==> s.bytes == 10 && SendsAll(s, e)
    ensures t.h.toClient <= Greeting(s.authMethod) + RequestReply(s.rep)
  {
    hide Greeting, LoggedIn, Streams, Marshall;
    var g, reply := Greeting(s.authMethod), RequestReply(s.rep);
    var s1 := if s.output.CanRead() then ClientSent(s, e.w.n) else s;
    assert Conserved(s1) by {
      if s.output.CanRead() { ToClientStream(s.h, s.input.content, s.output.content, e.w.n); }
    }
    MarshallStream(s1, g, reply);
    var s2 := Marshall(s1, reply);
    assert t.h == s2.h && t.output == s2.output && s2.bytes >= 10 && s.bytes <= 10;
    assert s2.h.replies == g + reply by { assert reply[..10] == reply; }
    assert t.h.toClient + t.output.content == g + reply by { NoServerStream(s2); }
    assert t.output.content == [] <==> t.h.toClient == g + reply;
    MarshallLeaves(s1, reply);
  }

  lemma NoServerStream(s: State)
    requires Conserved(s) && s.h.fromServer == []
    ensures s.h.toClient + s.output.content == s.h.replies
  {
    assert s.h.replies + [] == s.h.replies;
  }

  lemma MarshallLeaves(s: State, msg: seq<byte>)
    requires Marshall(s, msg).bytes >= |msg|
    ensures Marshall(s, msg).output.content == [] <==> s.output.content == [] && s.bytes >= |msg|
  {}
}
