/**
  A session together with the parser of its handshake state: the client's stream, in whatever pieces it
  arrives, is the encoding of a hello, of a name and a password if they were agreed on, and of a request,
  and what follows them is what the server gets.
 */
module Handshakes {
  import opened Buckets
  import opened UserRecord
  import opened UserHandler
  import opened Session
  import opened SessionSafety
  import opened SessionTheorems
  import HP = HelloParsers
  import AP = AuthRequestParsers
  import RP = RequestParsers
  import ByteParsers

  // ---------------------------------------------------------------- the parsers in the session

  /** The parser of the current state; the one of AUTH_REQUEST with the memory it started in. */
  datatype AnyParser = HelloP(h: HP.Parser) | AuthP(blank: AP.Parser, a: AP.Parser) | RequestP(r: RP.Parser)

  /** start is where in the client's stream the parser began. */
  datatype Tracked = Tracked(s: State, parser: AnyParser, start: nat)

  function InitTracked(cap: nat): Tracked { Tracked(Init(cap), HelloP(HP.INIT), 0) }

  predicate ParserPhase(p: Phase) { p.HELLO? || p.AUTH_REQUEST? || p.REQUEST? }

  /** The parser of the state. */
  predicate Fitted(p: Phase, parser: AnyParser) {
    match p
    case HELLO => parser.HelloP?
    case AUTH_REQUEST => parser.AuthP?
    case REQUEST => parser.RequestP?
    case _ => true
  }

  /** A read that hands bytes to the parser. */
  predicate Parses(s: State, e: Event) {
    ParserPhase(s.phase) && e.ClientRead? && s.input.CanWrite() && e.r.Received? && e.r.data != []
  }

  function Fed(p: AnyParser, bytes: seq<byte>): (AnyParser, nat) {
    match p
    case HelloP(h) => var (q, n) := ByteParsers.Parse(HP.Feed, HP.Done, h, bytes); (HelloP(q), n)
    case AuthP(blank, a) => var (q, n) := ByteParsers.Parse(AP.Feed, AP.Done, a, bytes); (AuthP(blank, q), n)
    case RequestP(r) => var (q, n) := ByteParsers.Parse(RP.Feed, RP.Done, r, bytes); (RequestP(q), n)
  }

  predicate Done(p: AnyParser) {
    match p
    case HelloP(h) => HP.Done(h)
    case AuthP(_, a) => AP.Done(a)
    case RequestP(r) => RP.Done(r)
  }

  /** What the state's read handler finds in the parser q that took n bytes; all are the client's bytes up to
      there.  Whether a socket can be had is not the parser's to say. */
  function Outcome(q: AnyParser, n: nat, all: seq<byte>, socketFailed: bool, failure: byte): Parse {
    if !Done(q) then More else
    match q
    case HelloP(h) => Hello(n, HP.Errored(h), h.version, if |all| >= 2 then all[2..] else [])
    case AuthP(_, a) => Auth(n, AP.Errored(a), a.version, CStr(a.username, 0), CStr(a.password, 0))
    case RequestP(r) =>
      Request(n, r.currentState.REQUEST_PARSER_ERROR_UNSUPPORTED_ADD_TYPE?, r.version, r.cmd, r.addressType,
              socketFailed, failure)
  }

  /** The bytes the parser is given, behind those it has taken. */
  function Given(s: State, data: seq<byte>): seq<byte> { s.input.content + data }

  function Taken(s: State): seq<byte>
    requires s.h.consumed <= |s.h.fromClient|
  {
    s.h.fromClient[..s.h.consumed]
  }

  /** The event carries what the session's own parser makes of the bytes. */
  ghost predicate Faithful(x: Tracked, e: Event) {
    Parses(x.s, e) ==>
      && x.s.h.consumed <= |x.s.h.fromClient|
      && var (q, n) := Fed(x.parser, Given(x.s, e.r.data));
         n <= |Given(x.s, e.r.data)|
         && e.p == Outcome(q, n, Taken(x.s) + Given(x.s, e.r.data)[..n],
                           e.p.Request? && e.p.socketFailed, if e.p.Request? then e.p.failure else 0)
  }

  /** A state with a parser starts it on arrival; reads feed it. */
  ghost predicate ParserMoves(x: Tracked, e: Event, y: Tracked) {
    if y.s.phase.AUTH_REQUEST? && !x.s.phase.AUTH_REQUEST? then
      y.parser.AuthP? && y.parser.a == y.parser.blank && AP.Fresh(y.parser.blank) && y.start == y.s.h.consumed
    else if y.s.phase.REQUEST? && !x.s.phase.REQUEST? then
      y.parser == RequestP(RP.INIT) && y.start == y.s.h.consumed
    else
      y.start == x.start && y.parser == if Parses(x.s, e) then Fed(x.parser, Given(x.s, e.r.data)).0 else x.parser
  }

  ghost predicate TNext(x: Tracked, e: Event, y: Tracked) {
    Next(x.s, e, y.s) && Faithful(x, e) && ParserMoves(x, e, y)
  }

  ghost predicate TRun(x: Tracked, es: seq<Event>, y: Tracked) {
    if es == [] then x == y
    else
      var before, last := es[..|es| - 1], es[|es| - 1];
      exists m :: TRun(x, before, m) && TNext(m, last, y)
  }

  /** y is where the events es take a session whose parse results are those of its parsers. */
  ghost predicate TReached(cap: nat, es: seq<Event>, y: Tracked) {
    cap > 0 && TRun(InitTracked(cap), es, y)
  }

  /** Every step with the event of its parser can be tracked, whatever memory a password parser starts in. */
  lemma StepIsTracked(x: Tracked, e: Event, t: State, blank: AP.Parser) returns (y: Tracked)
    requires Next(x.s, e, t) && Faithful(x, e) && AP.Fresh(blank)
    ensures TNext(x, e, y) && y.s == t
    ensures t.phase.AUTH_REQUEST? && !x.s.phase.AUTH_REQUEST? ==> y.parser == AuthP(blank, blank)
  {
    hide Next, Faithful, Fed;
    if t.phase.AUTH_REQUEST? && !x.s.phase.AUTH_REQUEST? {
      y := Tracked(t, AuthP(blank, blank), t.h.consumed);
    } else if t.phase.REQUEST? && !x.s.phase.REQUEST? {
      y := Tracked(t, RequestP(RP.INIT), t.h.consumed);
    } else {
      y := Tracked(t, if Parses(x.s, e) then Fed(x.parser, Given(x.s, e.r.data)).0 else x.parser, x.start);
    }
  }

  lemma {:induction false} TRunIsRun(x: Tracked, es: seq<Event>, y: Tracked)
    requires TRun(x, es, y)
    ensures Run(x.s, es, y.s)
  {
    hide Next, Faithful, ParserMoves;
    if es != [] {
      var before, last := es[..|es| - 1], es[|es| - 1];
      var m :| TRun(x, before, m) && TNext(m, last, y);
      TRunIsRun(x, before, m);
    }
  }

  // ---------------------------------------------------------------- what the stream was

  /** The bytes of a hello, of which m is the best method. */
  ghost predicate HelloTaken(bytes: seq<byte>, m: byte) {
    exists offered :: |offered| <= 255 && bytes == HP.Encode(5, offered) && m == Choose(offered)
  }

  /** The bytes of a name and password; who logged in are the strings they hold. */
  ghost predicate AuthTaken(bytes: seq<byte>, login: Login) {
    && login.ByPassword?
    && exists u, w :: AP.ValidCredential(u) && AP.ValidCredential(w) && bytes == AP.Encode(u, w)
                      && login.username == Cut(u) && login.password == Cut(w)
  }

  /** Everything before the request. */
  ghost predicate Greeted(bytes: seq<byte>, m: byte, login: Login) {
    exists j: nat :: j <= |bytes| && HelloTaken(bytes[..j], m) && GreetedFrom(bytes[j..], m, login)
  }

  ghost predicate GreetedFrom(rest: seq<byte>, m: byte, login: Login) {
    if m == 2 then AuthTaken(rest, login) else rest == []
  }

  /** The bytes of a request to connect to an address. */
  ghost predicate RequestTaken(bytes: seq<byte>) {
    exists r :: RP.ValidRequest(r) && bytes == RP.Encode(r) && r.version == 5 && r.cmd == 1
                && !r.address.Domain?
  }

  ghost predicate Requested(bytes: seq<byte>, m: byte, login: Login) {
    exists k: nat :: k <= |bytes| && Greeted(bytes[..k], m, login) && RequestTaken(bytes[k..])
  }

  /** What the parser has taken since it started leaves it waiting in this state. */
  predicate Waiting(parser: AnyParser, bytes: seq<byte>) {
    match parser
    case HelloP(h) => ByteParsers.Parse(HP.Feed, HP.Done, HP.INIT, bytes) == (h, |bytes|) && !HP.Done(h)
    case AuthP(blank, a) =>
      AP.Fresh(blank) && ByteParsers.Parse(AP.Feed, AP.Done, blank, bytes) == (a, |bytes|) && !AP.Done(a)
    case RequestP(r) => ByteParsers.Parse(RP.Feed, RP.Done, RP.INIT, bytes) == (r, |bytes|) && !RP.Done(r)
  }

  /** What the bytes taken so far were, state by state. */
  ghost predicate Said(x: Tracked, taken: seq<byte>) {
    match x.s.phase
    case HELLO => x.start == 0 && x.parser.HelloP? && Waiting(x.parser, taken)
    case AUTH_METHOD_ANNOUNCEMENT => HelloTaken(taken, x.s.authMethod)
    case AUTH_REQUEST =>
      x.start <= |taken| && HelloTaken(taken[..x.start], x.s.authMethod) && x.parser.AuthP?
      && Waiting(x.parser, taken[x.start..])
    case AUTH_SUCCESSFUL => Greeted(taken, x.s.authMethod, x.s.login)
    case REQUEST =>
      x.start <= |taken| && Greeted(taken[..x.start], x.s.authMethod, x.s.login) && x.parser.RequestP?
      && Waiting(x.parser, taken[x.start..])
    case IP_CONNECT => Requested(taken, x.s.authMethod, x.s.login)
    case REQUEST_SUCCESSFUL => Requested(taken, x.s.authMethod, x.s.login)
    case FORWARDING => Requested(taken, x.s.authMethod, x.s.login)
    case FLUSH_CLOSER => Requested(taken, x.s.authMethod, x.s.login)
    case FLUSH_CLOSY => Requested(taken, x.s.authMethod, x.s.login)
    case _ => true
  }

  ghost predicate TInv(x: Tracked) {
    Inv(x.s) && Said(x, Taken(x.s))
  }

  // ---------------------------------------------------------------- steps that take nothing

  predicate SameReceived(s: State, t: State) {
    t.h.fromClient == s.h.fromClient && t.h.fromServer == s.h.fromServer
  }

  predicate SameInput(s: State, t: State) {
    && SameReceived(s, t) && t.h.consumed == s.h.consumed
    && t.authMethod == s.authMethod && t.login == s.login
  }

  lemma MarshallSame(s: State, msg: seq<byte>)
    ensures SameInput(s, Marshall(s, msg)) && Marshall(s, msg).phase == s.phase
  {}

  lemma ArriveSame(s: State)
    requires !s.phase.HELLO?
    ensures SameInput(s, Arrive(s)) && Arrive(s).phase == s.phase
  {
    hide Marshall, FlushCloserWrite, FlushClosyWrite, HelloReply, AuthReply, RequestReply;
    FlushCloserSame(s);
    FlushClosySame(s);
    match s.phase
    case HELLO_ERROR => MarshallSame(s.(bytes := 0), HelloReply(NO_ACCEPTABLE_METHODS));
    case AUTH_METHOD_ANNOUNCEMENT => MarshallSame(s.(bytes := 0), HelloReply(s.authMethod));
    case AUTH_ERROR => MarshallSame(s.(bytes := 0), AuthReply(false));
    case AUTH_SUCCESSFUL => MarshallSame(s.(bytes := 0), AuthReply(true));
    case REQUEST_ERROR => MarshallSame(s.(bytes := 0), RequestReply(s.rep));
    case REQUEST_SUCCESSFUL => MarshallSame(s.(bytes := 0, rep := SUCCESSFUL), RequestReply(SUCCESSFUL));
    case _ =>
  }

  lemma JumpSame(s: State, next: Phase)
    requires !next.HELLO?
    ensures SameInput(s, Jump(s, next)) && Jump(s, next).phase == next
  {
    hide Arrive;
    ArriveSame(s.(phase := next));
  }

  /** Where a step can lead that gives no parser anything, and what it leaves of the login. */
  predicate Moves(s: State, t: State) {
    && s.h.fromClient <= t.h.fromClient && t.h.consumed == s.h.consumed
    && (!s.phase.HELLO? ==> t.authMethod == s.authMethod)
    && (s.phase.AUTH_METHOD_ANNOUNCEMENT? || t.login == s.login)
    && (t.phase == s.phase ||
        match s.phase
        case AUTH_METHOD_ANNOUNCEMENT =>
          if s.authMethod == NO_AUTHENTICATION then t.phase.REQUEST? else t.phase.AUTH_REQUEST?
        case AUTH_SUCCESSFUL => t.phase.REQUEST?
        case IP_CONNECT => t.phase.REQUEST_ERROR? || t.phase.REQUEST_SUCCESSFUL?
        case REQUEST_SUCCESSFUL => t.phase.FORWARDING?
        case FORWARDING => t.phase.FLUSH_CLOSER?
        case FLUSH_CLOSER => t.phase.FLUSH_CLOSY? || t.phase.FINISH?
        case _ => t.phase.FINISH?)
  }

  lemma WriteMoves(s: State, users: Users, connectFailed: bool, failure: byte)
    requires s.started && !s.phase.HELLO?
    ensures Moves(s, ProcessWrite(s, users, connectFailed, failure))
    ensures SameReceived(s, ProcessWrite(s, users, connectFailed, failure))
  {
    hide Arrive, Jump, Marshall, FlushCloserWrite, FlushClosyWrite;
    match s.phase
    case HELLO_ERROR =>
      MarshallSame(s, HelloReply(NO_ACCEPTABLE_METHODS));
      var (s', next) := TwoByteWrite(s, HelloReply(NO_ACCEPTABLE_METHODS), FINISH);
      JumpSame(s', next);
    case AUTH_METHOD_ANNOUNCEMENT =>
      MarshallSame(s, HelloReply(s.authMethod));
      var (s', next) := AnnouncementWrite(s, users);
      JumpSame(s', next);
    case AUTH_ERROR =>
      MarshallSame(s, AuthReply(false));
      var (s', next) := TwoByteWrite(s, AuthReply(false), FINISH);
      JumpSame(s', next);
    case AUTH_SUCCESSFUL =>
      MarshallSame(s, AuthReply(true));
      var (s', next) := TwoByteWrite(s, AuthReply(true), REQUEST);
      JumpSame(s', next);
    case REQUEST_ERROR =>
      MarshallSame(s, RequestReply(s.rep));
      var (s', next) := ReplyWrite(s, FINISH);
      JumpSame(s', next);
    case REQUEST_SUCCESSFUL =>
      MarshallSame(s, RequestReply(s.rep));
      var (s', next) := ReplyWrite(s, FORWARDING);
      JumpSame(s', next);
    case IP_CONNECT => JumpSame(ConnectWrite(s, connectFailed, failure).0, ConnectWrite(s, connectFailed, failure).1);
    case FLUSH_CLOSER => FlushCloserSame(s);
    case FLUSH_CLOSY =>
      FlushClosySame(s);
      JumpSame(FlushClosyWrite(s).0, FlushClosyWrite(s).1);
    case _ =>
  }

  lemma FlushCloserSame(s: State)
    ensures SameInput(s, FlushCloserWrite(s)) && FlushCloserWrite(s).phase == s.phase
  {}

  lemma FlushClosySame(s: State)
    ensures var (t, next) := FlushClosyWrite(s);
            SameInput(s, t) && t.phase == s.phase && (next == s.phase || next.FINISH?)
  {
    hide DrainToServer, DrainToClient;
    DrainToServerSame(s);
    DrainToClientSame(DrainToServer(s));
  }

  lemma DrainToServerSame(s: State)
    ensures SameInput(s, DrainToServer(s)) && DrainToServer(s).phase == s.phase
  {}

  lemma DrainToClientSame(s: State)
    ensures SameInput(s, DrainToClient(s)) && DrainToClient(s).phase == s.phase
  {}

  lemma RelayReadMoves(s: State, onClient: bool, p: Parse, users: Users)
    requires s.started && (s.phase.FORWARDING? || s.phase.FLUSH_CLOSER?) && ParseFits(s.phase, s.input, p)
    ensures Moves(s, ProcessRead(s, onClient, p, users)) && SameReceived(s, ProcessRead(s, onClient, p, users))
  {
    hide Arrive, Jump, FlushCloserRead;
    if s.phase.FORWARDING? {
      JumpSame(ForwardingRead(s).0, ForwardingRead(s).1);
    } else {
      var (t, next) := FlushCloserRead(s, onClient);
      assert SameInput(s, t)
             && (next == s.phase || next.FLUSH_CLOSY? || next.FINISH?) by { CloserReadSame(s, onClient); }
      JumpSame(t, next);
    }
  }

  lemma CloserReadSame(s: State, onClient: bool)
    ensures var (t, next) := FlushCloserRead(s, onClient);
            SameInput(s, t) && (next == s.phase || next.FLUSH_CLOSY? || next.FINISH?)
  {}

  /** The bytes that an event brings from one side. */
  function Heard(s: State, e: Event, ofClient: bool): seq<byte> {
    match e
    case ClientRead(r, _, _) => if ofClient && s.input.CanWrite() && r.Received? then r.data else []
    case ServerRead(r) => if !ofClient && s.output.CanWrite() && r.Received? then r.data else []
    case _ => []
  }

  lemma ReadMoves(s: State, e: Event, t: State)
    requires Inv(s) && Next(s, e, t) && !Parses(s, e) && (e.ClientRead? || e.ServerRead?)
    ensures Moves(s, t)
    ensures t.h.fromClient == s.h.fromClient + Heard(s, e, true)
            && t.h.fromServer == s.h.fromServer + Heard(s, e, false)
  {
    hide ProcessRead, Streams, LoggedIn, Greeting;
    if e.ClientRead? {
      if s.input.CanWrite() && e.r.Received? && !(e.r.data == [] && BeforeForwarding(s.phase)) {
        RelayReadMoves(ClientGot(s, e.r.data), true, e.p, e.users);
      }
    } else if s.output.CanWrite() && e.r.Received? && !(e.r.data == [] && BeforeForwarding(s.phase)) {
      RelayReadMoves(ServerGot(s, e.r.data), false, More, map[]);
    }
  }

  lemma SendMoves(s: State, e: Event, t: State)
    requires Inv(s) && Next(s, e, t) && (e.ClientWrite? || e.ServerWrite?)
    ensures Moves(s, t) && SameReceived(s, t)
  {
    hide ProcessWrite, Streams, LoggedIn, Greeting;
    if e.ClientWrite? {
      if !s.output.CanRead() { WriteMoves(s, e.users, false, 0); }
      else if e.w.Sent? { WriteMoves(ClientSent(s, e.w.n), e.users, false, 0); }
    } else {
      if !s.input.CanRead() { WriteMoves(s, e.users, e.connectFailed, e.failure); }
      else if e.w.Sent? { WriteMoves(ServerSent(s, e.w.n), e.users, e.connectFailed, e.failure); }
    }
  }

  lemma OtherMoves(s: State, e: Event, t: State)
    requires Inv(s) && Next(s, e, t) && !Parses(s, e)
    ensures Moves(s, t)
  {
    hide Inv, Next;
    if e.ClientRead? || e.ServerRead? { ReadMoves(s, e, t); } else { SendMoves(s, e, t); }
  }

  // ---------------------------------------------------------------- reads that feed a parser

  /** What a read that feeds a parser does to the stream and, by the result, to the state. */
  ghost predicate ReadDone(s: State, e: Event, t: State)
    requires e.ClientRead? && e.r.Received? && s.h.consumed <= |s.h.fromClient|
  {
    var given := Given(s, e.r.data);
    && t.h.fromClient == s.h.fromClient + e.r.data
    && (e.p.More? ==> t.phase == s.phase && t.h.consumed == s.h.consumed + |given| && t.login == s.login)
    && (e.p.Hello? ==> t.h.consumed == s.h.consumed + e.p.n)
    && (e.p.Auth? ==> t.h.consumed == s.h.consumed + e.p.n && t.authMethod == s.authMethod)
    && (e.p.Request? ==> t.h.consumed == s.h.consumed + e.p.n && t.authMethod == s.authMethod && t.login == s.login)
    && (!s.phase.HELLO? ==> t.authMethod == s.authMethod)
  }

  /** The verdict on a hello. */
  predicate HelloDecided(p: Parse, t: State)
    requires p.Hello?
  {
    if !p.errored && p.version == 5 && Choose(p.offered) != 0xff
    then t.phase.AUTH_METHOD_ANNOUNCEMENT? && t.authMethod == Choose(p.offered)
    else t.phase.HELLO_ERROR?
  }

  predicate AuthDecided(p: Parse, users: Users, t: State)
    requires p.Auth?
  {
    if !p.errored && p.version == 1 && p.username != [] && p.username in users
       && users[p.username].password == p.password
    then t.phase.AUTH_SUCCESSFUL? && t.login == ByPassword(users[p.username], p.username, p.password)
    else t.phase.AUTH_ERROR?
  }

  /** The reply code of a request that is refused. */
  function RefusedWith(p: Parse): byte
    requires p.Request?
  {
    if p.errored || p.version != 5 then 1
    else if p.cmd != 1 then 7
    else if p.addressType == 3 then 1
    else if p.addressType !in {1, 4} then 8
    else p.failure
  }

  lemma RefusalKept(s: State)
    requires s.phase.REQUEST?
    ensures Jump(s, REQUEST_ERROR).rep == s.rep
  {}

  predicate RequestDecided(p: Parse, t: State)
    requires p.Request?
  {
    if !p.errored && p.version == 5 && p.cmd == 1 && p.addressType in {1, 4} && !p.socketFailed
    then t.phase.IP_CONNECT? else t.phase.REQUEST_ERROR? && t.rep == RefusedWith(p)
  }

  lemma HelloReads(s: State, e: Event, t: State)
    requires Inv(s) && Next(s, e, t) && Parses(s, e) && s.phase.HELLO?
    ensures s.h.consumed <= |s.h.fromClient| && ReadDone(s, e, t) && (e.p.More? || e.p.Hello?)
    ensures e.p.Hello? ==> HelloDecided(e.p, t)
  {
    hide Jump, Streams, LoggedIn, Greeting, Choose;
    var s1 := HandleFirst(ClientGot(s, e.r.data));
    var (s', next) := HelloRead(s1, e.p);
    if !next.HELLO? { JumpSame(s', next); } else { JumpOutcome(s', next); }
    StreamBound(s);
  }

  lemma StreamBound(s: State)
    requires Inv(s)
    ensures s.h.consumed <= |s.h.fromClient|
  {}

  lemma AuthReads(s: State, e: Event, t: State)
    requires Inv(s) && Next(s, e, t) && Parses(s, e) && s.phase.AUTH_REQUEST?
    ensures s.h.consumed <= |s.h.fromClient| && ReadDone(s, e, t) && (e.p.More? || e.p.Auth?)
    ensures e.p.Auth? ==> AuthDecided(e.p, e.users, t)
  {
    hide Jump, Streams, LoggedIn, Greeting;
    var (s', next) := AuthRead(ClientGot(s, e.r.data), e.p, e.users);
    JumpSame(s', next);
    if e.p.More? { JumpOutcome(s', next); }
    StreamBound(s);
  }

  lemma RequestReads(s: State, e: Event, t: State)
    requires Inv(s) && Next(s, e, t) && Parses(s, e) && s.phase.REQUEST?
    ensures s.h.consumed <= |s.h.fromClient| && ReadDone(s, e, t) && (e.p.More? || e.p.Request?)
    ensures e.p.Request? ==> RequestDecided(e.p, t)
  {
    hide Jump, Streams, LoggedIn, Greeting;
    var (s', next) := RequestRead(ClientGot(s, e.r.data), e.p);
    JumpSame(s', next);
    if e.p.More? { JumpOutcome(s', next); }
    if next.REQUEST_ERROR? { RefusalKept(s'); }
    StreamBound(s);
  }

  /** What the parser is given is what the client sent behind the bytes taken. */
  lemma StreamSplit(s: State, data: seq<byte>)
    requires Inv(s) && ParserPhase(s.phase)
    ensures s.h.consumed <= |s.h.fromClient| && s.h.fromClient + data == Taken(s) + Given(s, data)
  {
    hide LoggedIn, Greeting;
    assert s.h.toServer == [] && [] + s.input.content == s.input.content;
  }

  lemma GivenIsRest(s: State, data: seq<byte>, n: nat)
    requires Inv(s) && ParserPhase(s.phase) && n <= |Given(s, data)|
    ensures s.h.consumed <= |s.h.fromClient| && s.h.consumed + n <= |s.h.fromClient + data|
    ensures (s.h.fromClient + data)[..s.h.consumed + n] == Taken(s) + Given(s, data)[..n]
  {
    hide Inv, Given;
    StreamSplit(s, data);
    Slices(Taken(s), Given(s, data), n, 0);
  }

  lemma Slices(xs: seq<byte>, ys: seq<byte>, n: nat, k: nat)
    requires n <= |ys| && k <= |xs|
    ensures (xs + ys)[..|xs| + n] == xs + ys[..n] && (xs + ys[..n])[..k] == xs[..k]
    ensures (xs + ys[..n])[k..] == xs[k..] + ys[..n]
  {}

  /** The parser has stopped behind the first n of all bytes since it started. */
  ghost predicate Finished(q: AnyParser, all: seq<byte>, n: nat) {
    n <= |all| && Done(q) &&
    match q
    case HelloP(h) => ByteParsers.Parse(HP.Feed, HP.Done, HP.INIT, all) == (h, n)
    case AuthP(blank, a) => AP.Fresh(blank) && ByteParsers.Parse(AP.Feed, AP.Done, blank, all) == (a, n)
    case RequestP(r) => ByteParsers.Parse(RP.Feed, RP.Done, RP.INIT, all) == (r, n)
  }

  /** Bytes for a parser that waits: it takes them all and waits on, or stops among them. */
  lemma Feeds(p: AnyParser, since: seq<byte>, given: seq<byte>)
    requires Waiting(p, since)
    ensures var (q, n) := Fed(p, given);
            && n <= |given|
            && (!Done(q) ==> n == |given| && Waiting(q, since + given))
            && (Done(q) ==> Finished(q, since + given, |since| + n))
  {
    hide HP.Feed, AP.Feed, RP.Feed, ByteParsers.Parse;
    match p
    case HelloP(h) => ByteParsers.ParseSplit(HP.Feed, HP.Done, HP.INIT, since, given);
    case AuthP(blank, a) => ByteParsers.ParseSplit(AP.Feed, AP.Done, blank, since, given);
    case RequestP(r) => ByteParsers.ParseSplit(RP.Feed, RP.Done, RP.INIT, since, given);
  }

  lemma HelloSaid(x: Tracked, e: Event, y: Tracked)
    requires TInv(x) && TNext(x, e, y) && Parses(x.s, e) && x.s.phase.HELLO?
    ensures y.s.h.consumed <= |y.s.h.fromClient| && Said(y, Taken(y.s))
  {
    hide Inv, Next, Fed, Waiting, Finished, HelloTaken, Choose, Done;
    var taken, given := Taken(x.s), Given(x.s, e.r.data);
    var (q, n) := Fed(x.parser, given);
    HelloReads(x.s, e, y.s);
    Feeds(x.parser, taken, given);
    GivenIsRest(x.s, e.r.data, n);
    Slices(taken, given, n, 0);
    if Done(q) {
      if y.s.phase.AUTH_METHOD_ANNOUNCEMENT? { HelloIs(taken + given, q, |taken| + n, e.p.offered); }
    } else {
      assert given[..n] == given && Taken(y.s) == taken + given;
      FedKind(x.parser, given);
    }
  }

  lemma FedKind(p: AnyParser, given: seq<byte>)
    ensures var (q, _) := Fed(p, given);
            (p.HelloP? <==> q.HelloP?) && (p.AuthP? <==> q.AuthP?) && (p.RequestP? <==> q.RequestP?)
  {}

  /** A parser that is done with a hello of version 5 has read the bytes of one. */
  lemma HelloIs(all: seq<byte>, q: AnyParser, n: nat, offered: seq<byte>)
    requires Finished(q, all, n) && q.HelloP? && q.h.version == SOCKS_VERSION
    requires offered == (if n >= 2 then all[..n][2..] else [])
    ensures HelloTaken(all[..n], Choose(offered))
  {
    hide ByteParsers.Parse, HP.Encode, HP.Feed, Choose;
    HP.AcceptsExactlyHellos(all);
    HelloLongEnough(all);
    assert all[..n][2..] == all[2..n];
    assert all[..n] == HP.Encode(SOCKS_VERSION, offered);
  }

  lemma HelloLongEnough(all: seq<byte>)
    requires |all| >= HP.Needed(all)
    ensures HP.Needed(all) >= 2 && |all[2..HP.Needed(all)]| <= 255
  {}

  /** What a read in AUTH_REQUEST leaves: the parser waits on, or its verdict. */
  lemma AuthLeaves(x: Tracked, e: Event, y: Tracked)
    requires TInv(x) && TNext(x, e, y) && Parses(x.s, e) && x.s.phase.AUTH_REQUEST?
    requires var (q, n) := Fed(x.parser, Given(x.s, e.r.data));
             n <= |Given(x.s, e.r.data)| && (!Done(q) ==> n == |Given(x.s, e.r.data)|)
    ensures var (q, n) := Fed(x.parser, Given(x.s, e.r.data));
            && y.s.h.consumed <= |y.s.h.fromClient| && Taken(y.s) == Taken(x.s) + Given(x.s, e.r.data)[..n]
            && y.s.authMethod == x.s.authMethod == USER_PASSWORD && q.AuthP?
            && (!Done(q) ==> y.s.phase.AUTH_REQUEST? && y.start == x.start && y.parser == q)
            && (Done(q) && !y.s.phase.AUTH_ERROR? ==>
                  && y.s.phase.AUTH_SUCCESSFUL? && !AP.Errored(q.a) && y.s.login.ByPassword?
                  && y.s.login.username == CStr(q.a.username, 0) && y.s.login.password == CStr(q.a.password, 0))
  {
    hide Inv, Next, Fed, Waiting, HelloTaken, Done, CStr, AP.Errored;
    AsksForPassword(x.s);
    AuthReads(x.s, e, y.s);
    FedKind(x.parser, Given(x.s, e.r.data));
    GivenIsRest(x.s, e.r.data, Fed(x.parser, Given(x.s, e.r.data)).1);
  }

  lemma AuthSaid(x: Tracked, e: Event, y: Tracked)
    requires TInv(x) && TNext(x, e, y) && Parses(x.s, e) && x.s.phase.AUTH_REQUEST?
    ensures y.s.h.consumed <= |y.s.h.fromClient| && Said(y, Taken(y.s))
  {
    hide Inv, TNext, Fed, Waiting, Finished, HelloTaken, AuthTaken, Greeted, Done, CStr, AP.Errored, Given;
    StreamBound(x.s);
    var taken, given := Taken(x.s), Given(x.s, e.r.data);
    var since := taken[x.start..];
    var (q, n) := Fed(x.parser, given);
    Feeds(x.parser, since, given);
    AuthLeaves(x, e, y);
    Slices(taken, given, n, x.start);
    Slices(since, given, n, 0);
    if Done(q) {
      if y.s.phase.AUTH_SUCCESSFUL? {
        AuthIs(since + given, q, |since| + n, y.s.login);
        GreetedAt(Taken(y.s), x.start, USER_PASSWORD, y.s.login);
      }
    } else {
      assert given[..n] == given;
    }
  }

  /** A parser that is done without an error has read the bytes of the pair that its strings show. */
  lemma AuthIs(all: seq<byte>, q: AnyParser, n: nat, login: Login)
    requires Finished(q, all, n) && q.AuthP? && !AP.Errored(q.a)
    requires login.ByPassword? && login.username == CStr(q.a.username, 0) && login.password == CStr(q.a.password, 0)
    ensures AuthTaken(all[..n], login)
  {
    hide ByteParsers.Parse, AP.Fresh, AP.Encode, AP.NameIn, AP.PasswordIn, AP.Needed, AP.Malformed, Cut, CStr;
    AP.AcceptsExactlyPairs(q.blank, all);
    var u, w := AP.NameIn(all), AP.PasswordIn(all);
    assert all[..n] == AP.Encode(u, w);
  }

  lemma AsksForPassword(s: State)
    requires Inv(s) && s.phase.AUTH_REQUEST?
    ensures s.authMethod == USER_PASSWORD
  {}

  lemma GreetedAt(bytes: seq<byte>, j: nat, m: byte, login: Login)
    requires j <= |bytes| && HelloTaken(bytes[..j], m) && GreetedFrom(bytes[j..], m, login)
    ensures Greeted(bytes, m, login)
  {}

  lemma RequestSaid(x: Tracked, e: Event, y: Tracked)
    requires TInv(x) && TNext(x, e, y) && Parses(x.s, e) && x.s.phase.REQUEST?
    ensures y.s.h.consumed <= |y.s.h.fromClient| && Said(y, Taken(y.s))
  {
    hide Inv, Next, Fed, Waiting, Finished, Greeted, RequestTaken, Done;
    var taken, given := Taken(x.s), Given(x.s, e.r.data);
    var since := taken[x.start..];
    var (q, n) := Fed(x.parser, given);
    RequestReads(x.s, e, y.s);
    Feeds(x.parser, since, given);
    FedKind(x.parser, given);
    GivenIsRest(x.s, e.r.data, n);
    Slices(taken, given, n, x.start);
    Slices(since, given, n, 0);
    if Done(q) {
      if y.s.phase.IP_CONNECT? {
        RequestIs(since + given, q, |since| + n);
        RequestedAt(Taken(y.s), x.start, y.s.authMethod, y.s.login);
      }
    } else {
      assert given[..n] == given && Taken(y.s) == taken + given;
    }
  }

  /** A parser that is done with a CONNECT to an address has read the bytes of one. */
  lemma RequestIs(all: seq<byte>, q: AnyParser, n: nat)
    requires Finished(q, all, n) && q.RequestP? && !q.r.currentState.REQUEST_PARSER_ERROR_UNSUPPORTED_ADD_TYPE?
    requires q.r.version == SOCKS_VERSION && q.r.cmd == COMMAND_CONNECT && q.r.addressType != ADD_TYPE_DOMAIN_NAME
    ensures RequestTaken(all[..n])
  {
    hide ByteParsers.Parse, RP.Encode, RP.Decode, RP.Needed, RP.PortInMemory;
    RP.AcceptsExactlyRequests(all);
  }

  lemma RequestedAt(bytes: seq<byte>, k: nat, m: byte, login: Login)
    requires k <= |bytes| && Greeted(bytes[..k], m, login) && RequestTaken(bytes[k..])
    ensures Requested(bytes, m, login)
  {}

  // ---------------------------------------------------------------- every step

  lemma OtherSaid(x: Tracked, e: Event, y: Tracked)
    requires TInv(x) && TNext(x, e, y) && !Parses(x.s, e)
    ensures y.s.h.consumed <= |y.s.h.fromClient| && Said(y, Taken(y.s))
  {
    hide Inv, Next, Parses, HelloTaken, Greeted, Requested, Waiting;
    OtherMoves(x.s, e, y.s);
    StreamBound(x.s);
    var taken := Taken(x.s);
    assert Taken(y.s) == taken;
    if y.s.phase == x.s.phase {
      if x.s.phase.AUTH_METHOD_ANNOUNCEMENT? || x.s.phase.HELLO? {} else {}
    } else if x.s.phase.AUTH_METHOD_ANNOUNCEMENT? {
      assert taken[..y.start] == taken && taken[y.start..] == [];
      AnnouncedMethod(x.s);
      if y.s.phase.AUTH_REQUEST? { StartsWaiting(y.parser); } else {
        StartsWaiting(y.parser);
        GreetedAt(taken, |taken|, NO_AUTHENTICATION, y.s.login);
      }
    } else if x.s.phase.AUTH_SUCCESSFUL? {
      assert taken[..y.start] == taken && taken[y.start..] == [];
      StartsWaiting(y.parser);
    }
  }

  lemma AnnouncedMethod(s: State)
    requires Inv(s) && s.phase.AUTH_METHOD_ANNOUNCEMENT?
    ensures s.authMethod in {NO_AUTHENTICATION, USER_PASSWORD}
  {}

  lemma StartsWaiting(parser: AnyParser)
    requires (parser.AuthP? && parser.a == parser.blank && AP.Fresh(parser.blank)) || parser == RequestP(RP.INIT)
    ensures Waiting(parser, [])
  {}

  lemma TStepInv(x: Tracked, e: Event, y: Tracked)
    requires TInv(x) && TNext(x, e, y)
    ensures TInv(y)
  {
    hide Inv, Step, Enabled, Said, Faithful, ParserMoves;
    StepInv(x.s, e);
    if !Parses(x.s, e) {
      OtherSaid(x, e, y);
    } else if x.s.phase.HELLO? {
      HelloSaid(x, e, y);
    } else if x.s.phase.AUTH_REQUEST? {
      AuthSaid(x, e, y);
    } else {
      RequestSaid(x, e, y);
    }
  }

  lemma {:induction false} TRunInv(x: Tracked, es: seq<Event>, y: Tracked)
    requires TInv(x) && TRun(x, es, y)
    ensures TInv(y)
    decreases |es|
  {
    hide TInv, TNext;
    if es != [] {
      var before, last := es[..|es| - 1], es[|es| - 1];
      var m :| TRun(x, before, m) && TNext(m, last, y);
      TRunInv(x, before, m);
      TStepInv(m, last, y);
    }
  }

  lemma TReachedInv(cap: nat, es: seq<Event>, y: Tracked)
    requires TReached(cap, es, y)
    ensures TInv(y)
  {
    hide TRun;
    InitInv(cap);
    TRunInv(InitTracked(cap), es, y);
  }

  // ---------------------------------------------------------------- the main results

  /** The client's handshake on the wire. */
  function HandshakeBytes(offered: seq<byte>, m: byte, u: seq<byte>, w: seq<byte>, r: RP.Request): seq<byte>
    requires |offered| <= 255 && (m == USER_PASSWORD ==> AP.ValidCredential(u) && AP.ValidCredential(w))
             && RP.ValidRequest(r)
  {
    HP.Encode(5, offered) + (if m == 2 then AP.Encode(u, w) else []) + RP.Encode(r)
  }

  lemma GreetedParts(greeting: seq<byte>, m: byte, login: Login)
    returns (offered: seq<byte>, u: seq<byte>, w: seq<byte>)
    requires Greeted(greeting, m, login)
    ensures |offered| <= 255 && m == Choose(offered)
    ensures m == USER_PASSWORD ==>
              && AP.ValidCredential(u) && AP.ValidCredential(w) && login.ByPassword?
              && login.username == Cut(u) && login.password == Cut(w)
    ensures greeting == HP.Encode(SOCKS_VERSION, offered) + (if m == USER_PASSWORD then AP.Encode(u, w) else [])
  {
    hide Choose, HP.Encode, AP.Encode, Cut;
    var j: nat :| j <= |greeting| && HelloTaken(greeting[..j], m) && GreetedFrom(greeting[j..], m, login);
    offered :| |offered| <= 255 && greeting[..j] == HP.Encode(SOCKS_VERSION, offered) && m == Choose(offered);
    u, w := [], [];
    if m == USER_PASSWORD {
      u, w :| AP.ValidCredential(u) && AP.ValidCredential(w) && greeting[j..] == AP.Encode(u, w)
              && login.username == Cut(u) && login.password == Cut(w);
    }
    assert greeting == greeting[..j] + greeting[j..];
  }

  lemma RequestedParts(taken: seq<byte>, m: byte, login: Login)
    returns (offered: seq<byte>, u: seq<byte>, w: seq<byte>, r: RP.Request)
    requires Requested(taken, m, login)
    ensures |offered| <= 255 && m == Choose(offered)
    ensures m == USER_PASSWORD ==>
              && AP.ValidCredential(u) && AP.ValidCredential(w) && login.ByPassword?
              && login.username == Cut(u) && login.password == Cut(w)
    ensures RP.ValidRequest(r) && r.version == SOCKS_VERSION && r.cmd == COMMAND_CONNECT && !r.address.Domain?
    ensures taken == HandshakeBytes(offered, m, u, w, r)
  {
    hide Choose, HP.Encode, AP.Encode, RP.Encode, RP.ValidRequest, Cut, Greeted;
    var k: nat :| k <= |taken| && Greeted(taken[..k], m, login) && RequestTaken(taken[k..]);
    r :| RP.ValidRequest(r) && taken[k..] == RP.Encode(r) && r.version == SOCKS_VERSION && r.cmd == COMMAND_CONNECT
         && !r.address.Domain?;
    offered, u, w := GreetedParts(taken[..k], m, login);
    assert taken == taken[..k] + taken[k..];
  }

  /** A session that came to its connection was sent, in whatever pieces, exactly a hello whose best method is the
      one in use, the name and password of the user logged in if that method asks for them, and a CONNECT to an
      address; and the server gets, in order, what the client sent behind them. */
  lemma ClientSaid(cap: nat, es: seq<Event>, x: Tracked)
    returns (offered: seq<byte>, u: seq<byte>, w: seq<byte>, r: RP.Request)
    requires TReached(cap, es, x) && (RelayPhase(x.s.phase) || x.s.phase.IP_CONNECT? || x.s.phase.REQUEST_SUCCESSFUL?)
    ensures |offered| <= 255 && x.s.authMethod == Choose(offered)
    ensures x.s.authMethod == USER_PASSWORD ==>
              && AP.ValidCredential(u) && AP.ValidCredential(w) && x.s.login.ByPassword?
              && x.s.login.user.username == Cut(u) && x.s.login.user.password == Cut(w)
    ensures RP.ValidRequest(r) && r.version == SOCKS_VERSION && r.cmd == COMMAND_CONNECT && !r.address.Domain?
    ensures x.s.h.fromClient == HandshakeBytes(offered, x.s.authMethod, u, w, r) + (x.s.h.toServer + x.s.input.content)
  {
    hide Run, TRun, Init, Inv, Choose, Cut, HandshakeBytes, Requested;
    TReachedInv(cap, es, x);
    TRunIsRun(InitTracked(cap), es, x);
    BytesConserved(cap, es, x.s);
    Authenticated(cap, es, x.s);
    offered, u, w, r := RequestedParts(Taken(x.s), x.s.authMethod, x.s.login);
    assert x.s.h.fromClient == Taken(x.s) + x.s.h.fromClient[x.s.h.consumed..];
  }

  // ---------------------------------------------------------------- verdicts on the bytes

  /** All bytes of the client since the parser of the state started, those of the read included. */
  function Since(x: Tracked, e: Event): seq<byte>
    requires Parses(x.s, e) && x.start <= |x.s.h.fromClient|
  {
    (x.s.h.fromClient + e.r.data)[x.start..]
  }

  /** The read as the parser sees it: it goes on with what it had, and the event carries its result. */
  lemma ParserSees(x: Tracked, e: Event)
    requires TInv(x) && Parses(x.s, e) && Faithful(x, e)
    ensures x.start <= x.s.h.consumed <= |x.s.h.fromClient|
    ensures var (q, n) := Fed(x.parser, Given(x.s, e.r.data));
            var all := Since(x, e);
            && (Done(q) ==> Finished(q, all, n + (x.s.h.consumed - x.start)))
            && (!Done(q) ==> Waiting(q, all) && e.p.More?)
            && Fitted(x.s.phase, q)
  {
    hide Inv, Fed, Waiting, Finished, HelloTaken, Greeted, Done;
    StreamBound(x.s);
    var taken, given := Taken(x.s), Given(x.s, e.r.data);
    var since := taken[x.start..];
    Feeds(x.parser, since, given);
    FedKind(x.parser, given);
    GivenIsRest(x.s, e.r.data, |given|);
    assert taken[0..] == taken;
    assert x.s.h.fromClient + e.r.data == taken + given by { StreamSplit(x.s, e.r.data); }
    Slices(taken, given, |given|, x.start);
    assert given[..|given|] == given;
  }

  /** A hello is waited for until it is whole; then it is answered with a method exactly when its version is 5 and
      it offers method 0 or 2. */
  lemma HelloVerdict(x: Tracked, e: Event, y: Tracked)
    requires TInv(x) && TNext(x, e, y) && Parses(x.s, e) && x.s.phase.HELLO?
    ensures var all := x.s.h.fromClient + e.r.data;
            && (y.s.phase.HELLO? <==> |all| < HP.Needed(all))
            && (y.s.phase.AUTH_METHOD_ANNOUNCEMENT? <==>
                  && |all| >= HP.Needed(all) && all[0] == 5
                  && (0 in all[2..HP.Needed(all)] || 2 in all[2..HP.Needed(all)]))
            && (y.s.phase.AUTH_METHOD_ANNOUNCEMENT? ==>
                  y.s.authMethod == if 2 in all[2..HP.Needed(all)] then 2 else 0)
            && (y.s.phase.HELLO? || y.s.phase.AUTH_METHOD_ANNOUNCEMENT? || y.s.phase.HELLO_ERROR?)
  {
    hide Inv, Next, Fed, ByteParsers.Parse, HP.Encode, HP.Feed, Choose;
    var all := Since(x, e);
    var (q, n) := Fed(x.parser, Given(x.s, e.r.data));
    ParserSees(x, e);
    HelloReads(x.s, e, y.s);
    HP.AcceptsExactlyHellos(all);
    if Done(q) {
      HelloLongEnough(all);
      StreamSplit(x.s, e.r.data);
      Slices(Taken(x.s), Given(x.s, e.r.data), n, 0);
      assert e.p.offered == all[..HP.Needed(all)][2..] == all[2..HP.Needed(all)];
      ChooseIsBest(e.p.offered);
    }
  }

  /** A name and password are waited for until the bytes decide; then they are accepted exactly when they are well
      formed and the strings in them are a stored user's. */
  lemma AuthVerdict(x: Tracked, e: Event, y: Tracked)
    requires TInv(x) && TNext(x, e, y) && Parses(x.s, e) && x.s.phase.AUTH_REQUEST?
    ensures x.start <= |x.s.h.fromClient|
    ensures var all := Since(x, e);
            && (y.s.phase.AUTH_REQUEST? <==> |all| < AP.Needed(all))
            && (y.s.phase.AUTH_SUCCESSFUL? <==>
                  && |all| >= AP.Needed(all) && !AP.Malformed(all)
                  && Cut(AP.NameIn(all)) != [] && Cut(AP.NameIn(all)) in e.users
                  && e.users[Cut(AP.NameIn(all))].password == Cut(AP.PasswordIn(all)))
            && (y.s.phase.AUTH_REQUEST? || y.s.phase.AUTH_SUCCESSFUL? || y.s.phase.AUTH_ERROR?)
  {
    hide Inv, Next, Fed, ByteParsers.Parse, AP.Encode, AP.Feed, AP.Fresh, AP.NameIn, AP.PasswordIn, AP.Malformed,
         AP.Needed;
    hide Cut, CStr, HelloTaken, Greeted;
    ParserSees(x, e);
    AuthReads(x.s, e, y.s);
    AP.AcceptsExactlyPairs(x.parser.blank, Since(x, e));
    KeepsBlank(x.parser, Given(x.s, e.r.data));
  }

  lemma KeepsBlank(p: AnyParser, given: seq<byte>)
    ensures p.AuthP? ==> Fed(p, given).0.blank == p.blank
  {}

  /** How a request is refused; failure is why no socket could be had for an address.  An address type that is not
      supported is a general failure: the reply made for it is never given. */
  function Refusal(all: seq<byte>, failure: byte): byte
    requires |all| >= 4
  {
    if all[3] !in {1, 3, 4} || all[0] != 5 then 1
    else if all[1] != 1 then 7
    else if all[3] == 3 then 1
    else failure
  }

  /** A request is waited for until its end, or its type if that is not supported; then a connection is tried
      exactly when it is version 5, asks to connect to an address, and a socket can be had; else it is refused. */
  lemma RequestVerdict(x: Tracked, e: Event, y: Tracked)
    requires TInv(x) && TNext(x, e, y) && Parses(x.s, e) && x.s.phase.REQUEST?
    ensures x.start <= |x.s.h.fromClient|
    ensures var all := Since(x, e);
            && (y.s.phase.REQUEST? <==> |all| < 4 || (all[3] in {1, 3, 4} && |all| < RP.Needed(all)))
            && (y.s.phase.IP_CONNECT? <==>
                  && |all| >= 4 && all[3] in {1, 4} && |all| >= RP.Needed(all)
                  && all[0] == 5 && all[1] == 1 && e.p.Request? && !e.p.socketFailed)
            && (y.s.phase.REQUEST? || y.s.phase.IP_CONNECT? || y.s.phase.REQUEST_ERROR?)
            && (y.s.phase.REQUEST_ERROR? ==> e.p.Request? && |all| >= 4 && y.s.rep == Refusal(all, e.p.failure))
  {
    hide Inv, Next, Fed, ByteParsers.Parse, RP.Encode, RP.Feed, RP.Needed, HelloTaken, Greeted, RP.PortInMemory;
    ParserSees(x, e);
    RequestReads(x.s, e, y.s);
    RP.AcceptsExactlyRequests(Since(x, e));
  }

  /** Every read that the session can make has its event, unless it completes a request that goes on to the resolver:
      a version 5 CONNECT to a domain name, with a socket to ask on. */
  lemma ReadHasItsEvent(x: Tracked, data: seq<byte>, users: Users, socketFailed: bool, failure: byte) returns (e: Event)
    requires TInv(x) && x.s.outcome.Running? && ParserPhase(x.s.phase) && Sound(users)
    requires 0 < |data| <= x.s.input.Room()
    ensures e.ClientRead? && e.r == Received(data) && e.users == users && Faithful(x, e)
    ensures e.p.Request? ==> e.p.socketFailed == socketFailed && e.p.failure == failure
    ensures Enabled(x.s, e) <==>
              !(&& e.p.Request? && !e.p.errored && e.p.version == 5 && e.p.cmd == 1 && e.p.addressType == 3
                && !socketFailed)
  {
    hide Fed, Done, Waiting, HelloTaken, Greeted, Streams, LoggedIn, Greeting, CStr;
    StreamBound(x.s);
    var given := Given(x.s, data);
    var (q, n) := Fed(x.parser, given);
    FedKind(x.parser, given);
    Feeds(x.parser, Taken(x.s)[x.start..], given);
    assert Taken(x.s)[0..] == Taken(x.s);
    var p := Outcome(q, n, Taken(x.s) + given[..n], socketFailed, failure);
    if !p.Request? { p := Outcome(q, n, Taken(x.s) + given[..n], false, 0); }
    e := ClientRead(Received(data), p, users);
  }
}
