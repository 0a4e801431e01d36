/**
  The session object and the handlers the selector calls on it: buffers, socket states and interests
  changed in place.  Every handler is proved to do exactly the step of the value model.
 */
module SessionHandlers {
  import opened Buckets
  import opened UserHandler
  import opened Buffers
  import opened Session
  import opened Sockets

  /** on_auth_method: scans the priority table for the previous and the offered method. */
  method OnAuthMethod(previous: byte, current: byte) returns (chosen: byte)
    ensures chosen == Better(previous, current)
  {
    var methodPriorityList: seq<byte> := [NO_ACCEPTABLE_METHODS, NO_AUTHENTICATION, USER_PASSWORD];
    var prev, curr := 0, 0;
    for i := 0 to |methodPriorityList|
      invariant prev == if i > 2 && previous == USER_PASSWORD then 2
                else if i > 1 && previous == NO_AUTHENTICATION then 1 else 0
      invariant curr == if i > 2 && current == USER_PASSWORD then 2
                else if i > 1 && current == NO_AUTHENTICATION then 1 else 0
    {
      if previous == methodPriorityList[i] { prev := i; }
      if current == methodPriorityList[i] { curr := i; }
    }
    chosen := if prev < curr then current else previous;
  }

  /** The hello parser's calls, one for every offered method. */
  method ChooseMethod(offered: seq<byte>) returns (chosen: byte)
    ensures chosen == Choose(offered)
  {
    chosen := NO_ACCEPTABLE_METHODS;
    for i := 0 to |offered|
      invariant chosen == Choose(offered[..i])
    {
      assert offered[..i + 1][..i] == offered[..i];
      chosen := OnAuthMethod(chosen, offered[i]);
    }
    assert offered[..|offered|] == offered;
  }

  lemma SliceOneMore(s: seq<byte>, lo: nat, hi: nat)
    requires lo <= hi < |s|
    ensures s[lo..hi + 1] == s[lo..hi] + [s[hi]]
  {}

  /** hello_marshall, auth_marshall and request_marshall: bytes counts what was written so far. */
  method MarshallInto(b: Buffer, bytes: nat, msg: seq<byte>) returns (bytes': nat)
    requires b.Valid()
    modifies b, b.data
    ensures b.Valid() && bytes' == bytes + Fitting(old(b.View()).Room(), |msg|, bytes)
    ensures b.View() == if bytes' == bytes then old(b.View()) else old(b.View()).Put(msg[bytes..bytes'])
  {
    ghost var v := b.View();
    bytes' := bytes;
    while bytes' < |msg| && b.CanWrite()
      invariant b.Valid() && bytes <= bytes' && (bytes' == bytes || bytes' <= |msg|)
      invariant b.View() == if bytes' == bytes then v else v.Put(msg[bytes..bytes'])
    {
      SliceOneMore(msg, bytes, bytes');
      b.WriteByte(msg[bytes']);
      bytes' := bytes' + 1;
    }
    assert b.View().Room() == v.Room() - (bytes' - bytes);
  }

  /** n calls of buffer_read by a parser. */
  method ReadBytes(b: Buffer, n: nat)
    requires b.Valid() && n <= |b.View().content|
    modifies b, b.data
    ensures b.Valid() && b.View() == old(b.View()).Drop(n)
  {
    ghost var v := b.View();
    assert v.content[0..] == v.content;
    var i := 0;
    while i < n
      invariant 0 <= i <= n && b.Valid() && b.View() == v.Drop(i)
    {
      DropOneMore(v, i);
      var c := b.ReadByte();
      i := i + 1;
    }
  }

  class SessionHandler {
    const input: Buffer
    const output: Buffer
    var phase: Phase
    var started: bool
    var outcome: Outcome
    var client: ConnectionState
    var server: ConnectionState
    var clientInterest: Interest
    var serverInterest: Interest
    var authMethod: byte
    var login: Login
    var bytes: nat
    var rep: byte
    ghost var h: Flow
    ghost var clientEof: bool
    ghost var serverEof: bool
    ghost var shutClient: nat
    ghost var shutServer: nat

    ghost function Repr(): set<object> {
      {this, input, output, input.data, output.data}
    }

    ghost predicate Valid()
      reads Repr()
    {
      && input.Valid() && output.Valid()
      && input != output && input.data != output.data
    }

    ghost function View(): State
      reads Repr()
      requires Valid()
    {
      State(phase, started, outcome, input.View(), output.View(), client, server, clientInterest, serverInterest,
            authMethod, login, bytes, rep, h, clientEof, serverEof, shutClient, shutServer)
    }

    constructor (bufferSize: nat)
      requires bufferSize > 0
      ensures Valid() && fresh(Repr()) && View() == Init(bufferSize)
    {
      input := new Buffer(bufferSize);
      output := new Buffer(bufferSize);
      phase, started, outcome := HELLO, false, Running;
      client, server := OPEN, INVALID;
      clientInterest, serverInterest := OP_READ, OP_NOOP;
      authMethod, login, bytes, rep := 0, NotLoggedIn, 0, 0;
      h := Flow([], [], [], [], 0, []);
      clientEof, serverEof, shutClient, shutServer := false, false, 0, 0;
    }

    // ---------------------------------------------------------------- helpers of the states

    /** shutdown(fd, SHUT_WR) */
    method ShutdownSocket(onClient: bool)
      requires Valid()
      modifies this`shutClient, this`shutServer
      ensures Valid() && View() == Shutdown(old(View()), onClient)
    {
      if onClient { shutClient := shutClient + 1; } else { shutServer := shutServer + 1; }
    }

    /** A side whose end of stream reaches the other one: a shutdown there, and nothing more from it. */
    method PassEndOn(toClient: bool)
      requires Valid()
      modifies this`client, this`server, this`shutClient, this`shutServer
      ensures Valid()
      ensures var s := Shutdown(old(View()), toClient);
              View() == if toClient then s.(server := CLOSED) else s.(client := CLOSED)
    {
      ShutdownSocket(toClient);
      if toClient { server := CLOSED; } else { client := CLOSED; }
    }

    method MarshallReply(msg: seq<byte>)
      requires Valid()
      modifies this`bytes, this`h, output, output.data
      ensures Valid() && View() == Marshall(old(View()), msg)
    {
      hide Fitting;
      ghost var first := bytes;
      bytes := MarshallInto(output, bytes, msg);
      h := h.(replies := h.replies + if bytes == first then [] else msg[first..bytes]);
      assert old(View()).h.replies + [] == old(View()).h.replies;
    }

    /** A parser reads n bytes off the input buffer. */
    method TakeInput(n: nat)
      requires Valid() && n <= |View().input.content|
      modifies this`h, input, input.data
      ensures Valid() && View() == Take(old(View()), n)
    {
      hide Buf.Drop;
      ghost var s0 := View();
      ReadBytes(input, n);
      assert input.View() == s0.input.Drop(n);
      assert output.View() == s0.output;
      assert View() == s0.(input := s0.input.Drop(n));
      h := h.(consumed := h.consumed + n);
    }

    // ---------------------------------------------------------------- forwarding and flushing

    /** forwarding_calculate_and_set_new_fd_interest */
    method SetForwardingInterests()
      requires Valid()
      modifies this`clientInterest, this`serverInterest
      ensures Valid() && View() == ForwardingInterests(old(View()))
    {
      var ofClient, ofServer := OP_NOOP, OP_NOOP;
      if input.CanWrite() { ofClient := ofClient.(read := true); }
      if input.CanRead() { ofServer := ofServer.(write := true); }
      if output.CanWrite() { ofServer := ofServer.(read := true); }
      if output.CanRead() { ofClient := ofClient.(write := true); }
      assert ofClient == Interest(input.View().CanWrite(), output.View().CanRead());
      assert ofServer == Interest(output.View().CanWrite(), input.View().CanRead());
      clientInterest, serverInterest := ofClient, ofServer;
    }

    method FlushCloserOnWrite()
      requires Valid()
      modifies this`client, this`server, this`clientInterest, this`serverInterest, this`shutClient, this`shutServer
      ensures Valid() && View() == FlushCloserWrite(old(View()))
    {
      hide Shutdown;
      ghost var s0 := View();
      var clientIsClosy := client.OPEN?;
      var closyBuffer, closerBuffer := if clientIsClosy then input else output, if clientIsClosy then output else input;
      var closer := if clientIsClosy then server else client;
      var closyInterest, closerInterest := OP_NOOP, OP_NOOP;
      if closyBuffer.CanWrite() { closyInterest := closyInterest.(read := true); }
      if closyBuffer.CanRead() { closerInterest := closerInterest.(write := true); }
      assert closyInterest.read == (if clientIsClosy then s0.input else s0.output).CanWrite();
      if closerBuffer.CanRead() {
        closyInterest := closyInterest.(write := true);
      } else if closer.CLOSING? {
        PassEndOn(clientIsClosy);
      }
      clientInterest := if clientIsClosy then closyInterest else closerInterest;
      serverInterest := if clientIsClosy then closerInterest else closyInterest;
      assert input.View() == s0.input && output.View() == s0.output;
    }

    method FlushCloserOnRead(onClient: bool) returns (next: Phase)
      requires Valid()
      modifies this`client, this`server, this`clientInterest, this`serverInterest, this`shutClient, this`shutServer
      ensures Valid() && (View(), next) == FlushCloserRead(old(View()), onClient)
    {
      var closyBuffer := if onClient then input else output;
      var closy, closer := if onClient then client else server, if onClient then server else client;
      if closy.CLOSING? {
        if closer.CLOSED? && !closyBuffer.CanRead() {
          PassEndOn(!onClient);
          return FINISH;
        }
        return FLUSH_CLOSY;
      }
      if closyBuffer.CanWrite() {
        if onClient { clientInterest := clientInterest.(read := true); }
        else { serverInterest := serverInterest.(read := true); }
      }
      if closyBuffer.CanRead() {
        if onClient { serverInterest := OP_WRITE; } else { clientInterest := OP_WRITE; }
      }
      next := phase;
    }

    method FlushClosyOnWrite() returns (next: Phase)
      requires Valid()
      modifies this`client, this`server, this`clientInterest, this`serverInterest, this`shutClient, this`shutServer
      ensures Valid() && (View(), next) == FlushClosyWrite(old(View()))
    {
      hide DrainToServer, DrainToClient;
      DrainServerSide();
      DrainClientSide();
      next := if client.CLOSED? && server.CLOSED? then FINISH else phase;
    }

    method DrainServerSide()
      requires Valid()
      modifies this`client, this`serverInterest, this`shutClient, this`shutServer
      ensures Valid() && View() == DrainToServer(old(View()))
    {
      if input.CanRead() {
        serverInterest := OP_WRITE;
      } else {
        if client.CLOSING? {
          ShutdownSocket(false);
          client := CLOSED;
        }
        serverInterest := OP_NOOP;
      }
    }

    method DrainClientSide()
      requires Valid()
      modifies this`server, this`clientInterest, this`shutClient, this`shutServer
      ensures Valid() && View() == DrainToClient(old(View()))
    {
      if output.CanRead() {
        clientInterest := OP_WRITE;
      } else {
        if server.CLOSING? {
          ShutdownSocket(true);
          server := CLOSED;
        }
        clientInterest := OP_NOOP;
      }
    }

    method ForwardingOnRead() returns (next: Phase)
      requires Valid()
      modifies this`clientInterest, this`serverInterest
      ensures Valid() && (View(), next) == ForwardingRead(old(View()))
    {
      if !client.OPEN? || !server.OPEN? { return FLUSH_CLOSER; }
      SetForwardingInterests();
      next := phase;
    }

    // ---------------------------------------------------------------- the state machine

    /** The on_arrival function of the current state. */
    method OnArrival()
      requires Valid()
      modifies this, output, output.data
      ensures Valid() && View() == Arrive(old(View()))
    {
      hide Marshall, FlushCloserWrite, FlushClosyWrite, ForwardingInterests, HelloReply, AuthReply, RequestReply;
      match phase
      case HELLO => authMethod, clientInterest := NO_ACCEPTABLE_METHODS, OP_READ;
      case HELLO_ERROR => ArriveReplying(HelloReply(NO_ACCEPTABLE_METHODS));
      case AUTH_METHOD_ANNOUNCEMENT => ArriveReplying(HelloReply(authMethod));
      case AUTH_REQUEST => clientInterest := OP_READ;
      case AUTH_ERROR => ArriveReplying(AuthReply(false));
      case AUTH_SUCCESSFUL => ArriveReplying(AuthReply(true));
      case REQUEST => rep, clientInterest := SUCCESSFUL, OP_READ;
      case REQUEST_ERROR => ArriveReplying(RequestReply(rep));
      case IP_CONNECT => clientInterest, serverInterest := OP_NOOP, OP_WRITE;
      case REQUEST_SUCCESSFUL =>
        ArriveSuccessful();
      case FORWARDING => SetForwardingInterests();
      case FLUSH_CLOSER => FlushCloserOnWrite();
      case FLUSH_CLOSY => var ignored := FlushClosyOnWrite();
      case FINISH =>
    }

    method ArriveReplying(msg: seq<byte>)
      requires Valid()
      modifies this`bytes, this`h, this`clientInterest, output, output.data
      ensures Valid() && View() == Marshall(old(View()).(bytes := 0), msg).(clientInterest := OP_WRITE)
    {
      hide Marshall;
      bytes := 0;
      MarshallReply(msg);
      clientInterest := OP_WRITE;
    }

    method ArriveSuccessful()
      requires Valid()
      modifies this`rep, this`bytes, this`h, this`clientInterest, this`serverInterest, output, output.data
      ensures Valid()
      ensures View() == Marshall(old(View()).(bytes := 0, rep := SUCCESSFUL), RequestReply(SUCCESSFUL))
                        .(clientInterest := OP_WRITE, serverInterest := OP_NOOP)
    {
      hide Marshall, RequestReply;
      rep := SUCCESSFUL;
      ArriveReplying(RequestReply(rep));
      serverInterest := OP_NOOP;
    }

    /** handle_first */
    method Start()
      requires Valid()
      modifies this, output, output.data
      ensures Valid() && View() == HandleFirst(old(View()))
    {
      hide Arrive;
      if !started {
        started := true;
        OnArrival();
      }
    }

    /** jump, and what the socket handler does when it is told FINISH. */
    method JumpTo(next: Phase)
      requires Valid()
      modifies this, output, output.data
      ensures Valid() && View() == Jump(old(View()), next)
    {
      hide Arrive;
      if phase != next {
        phase := next;
        OnArrival();
      }
      if next.FINISH? { outcome := Finished; }
    }

    method HelloOnRead(p: Parse) returns (next: Phase)
      requires Valid() && phase.HELLO? && ParseFits(phase, View().input, p)
      modifies this, input, input.data
      ensures Valid() && (View(), next) == HelloRead(old(View()), p)
    {
      if p.More? {
        TakeInput(input.write - input.read);
        return phase;
      }
      TakeInput(p.n);
      authMethod := ChooseMethod(p.offered);
      if p.errored { return HELLO_ERROR; }
      if p.version != SOCKS_VERSION { return HELLO_ERROR; }
      if authMethod == NO_ACCEPTABLE_METHODS { return HELLO_ERROR; }
      next := AUTH_METHOD_ANNOUNCEMENT;
    }

    method AuthOnRead(p: Parse, users: Users) returns (next: Phase)
      requires Valid() && phase.AUTH_REQUEST? && ParseFits(phase, View().input, p)
      modifies this, input, input.data
      ensures Valid() && (View(), next) == AuthRead(old(View()), p, users)
    {
      if p.More? {
        TakeInput(input.write - input.read);
        return phase;
      }
      TakeInput(p.n);
      if p.errored { return AUTH_ERROR; }
      if p.version != AUTH_VERSION { return AUTH_ERROR; }
      if p.username == [] || p.username !in users { return AUTH_ERROR; }
      var user := users[p.username];
      if user.password != p.password { return AUTH_ERROR; }
      login := ByPassword(user, p.username, p.password);
      next := AUTH_SUCCESSFUL;
    }

    method DecideRequest(p: Parse) returns (next: Phase)
      requires Valid() && p.Request?
      modifies this`rep, this`server, this`serverInterest
      ensures Valid() && (View(), next) == Decide(old(View()), p)
    {
      next := REQUEST_ERROR;
      if p.errored || p.version != SOCKS_VERSION {
        rep := GENERAL_FAILURE;
      } else if p.cmd != COMMAND_CONNECT {
        rep := COMMAND_NOT_SUPPORTED;
      } else if p.addressType == ADD_TYPE_DOMAIN_NAME {
        rep := GENERAL_FAILURE;
      } else if p.addressType != ADD_TYPE_IP4 && p.addressType != ADD_TYPE_IP6 {
        rep := ADDRESS_TYPE_NOT_SUPPORTED;
      } else if p.socketFailed {
        rep := p.failure;
      } else {
        server, serverInterest := OPEN, OP_WRITE;
        next := IP_CONNECT;
      }
    }

    method RequestOnRead(p: Parse) returns (next: Phase)
      requires Valid() && phase.REQUEST? && ParseFits(phase, View().input, p)
      modifies this, input, input.data
      ensures Valid() && (View(), next) == RequestRead(old(View()), p)
    {
      hide Decide, Take, Resolves;
      if p.More? {
        TakeInput(input.write - input.read);
        return phase;
      }
      TakeInput(p.n);
      next := DecideRequest(p);
    }

    method ProcessReadEvent(onClient: bool, p: Parse, users: Users)
      requires Valid() && ParseFits(phase, View().input, p)
      modifies Repr()
      ensures Valid() && View() == ProcessRead(old(View()), onClient, p, users)
    {
      hide Arrive, Jump, HelloRead, AuthRead, RequestRead, FlushCloserRead, ForwardingRead;
      StartKeepsPhase(View());
      Start();
      var next;
      match phase {
        case HELLO => next := HelloOnRead(p);
        case AUTH_REQUEST => next := AuthOnRead(p, users);
        case REQUEST => next := RequestOnRead(p);
        case FORWARDING => next := ForwardingOnRead();
        case FLUSH_CLOSER => next := FlushCloserOnRead(onClient);
        case _ => return;
      }
      JumpTo(next);
    }

    method AnnouncementOnWrite(users: Users) returns (next: Phase)
      requires Valid()
      modifies this, output, output.data
      ensures Valid() && (View(), next) == AnnouncementWrite(old(View()), users)
    {
      if bytes == 2 && !output.CanRead() {
        if authMethod == NO_AUTHENTICATION {
          if ANONYMOUS !in users {
            outcome := Crashed;
            return phase;
          }
          login := Anonymous(users[ANONYMOUS]);
          return REQUEST;
        } else {
          return AUTH_REQUEST;
        }
      }
      MarshallReply(HelloReply(authMethod));
      next := phase;
    }

    method TwoByteOnWrite(msg: seq<byte>, after: Phase) returns (next: Phase)
      requires Valid()
      modifies this, output, output.data
      ensures Valid() && (View(), next) == TwoByteWrite(old(View()), msg, after)
    {
      hide Marshall;
      if bytes == 2 && !output.CanRead() { return after; }
      MarshallReply(msg);
      MarshallKeepsPhase(old(View()), msg);
      next := phase;
    }

    method ReplyOnWrite(after: Phase) returns (next: Phase)
      requires Valid()
      modifies this, output, output.data
      ensures Valid() && (View(), next) == ReplyWrite(old(View()), after)
    {
      hide Marshall;
      MarshallReply(RequestReply(rep));
      MarshallKeepsPhase(old(View()), RequestReply(old(rep)));
      next := if bytes >= 10 then after else phase;
    }

    method ConnectOnWrite(connectFailed: bool, failure: byte) returns (next: Phase)
      requires Valid()
      modifies this
      ensures Valid() && (View(), next) == ConnectWrite(old(View()), connectFailed, failure)
    {
      if connectFailed {
        rep := failure;
        server, serverInterest := INVALID, OP_NOOP;
        return REQUEST_ERROR;
      }
      next := REQUEST_SUCCESSFUL;
    }

    method ProcessWriteEvent(users: Users, connectFailed: bool, failure: byte)
      requires Valid()
      modifies Repr()
      ensures Valid() && View() == ProcessWrite(old(View()), users, connectFailed, failure)
    {
      hide Arrive, Jump, AnnouncementWrite, TwoByteWrite, ReplyWrite, ConnectWrite, FlushCloserWrite, FlushClosyWrite;
      Start();
      var next;
      match phase {
        case HELLO_ERROR => next := TwoByteOnWrite(HelloReply(NO_ACCEPTABLE_METHODS), FINISH);
        case AUTH_METHOD_ANNOUNCEMENT => next := AnnouncementOnWrite(users);
        case AUTH_ERROR => next := TwoByteOnWrite(AuthReply(false), FINISH);
        case AUTH_SUCCESSFUL => next := TwoByteOnWrite(AuthReply(true), REQUEST);
        case REQUEST_ERROR => next := ReplyOnWrite(FINISH);
        case IP_CONNECT => next := ConnectOnWrite(connectFailed, failure);
        case REQUEST_SUCCESSFUL => next := ReplyOnWrite(FORWARDING);
        case FORWARDING => SetForwardingInterests(); return;
        case FLUSH_CLOSER => FlushCloserOnWrite(); return;
        case FLUSH_CLOSY => next := FlushClosyOnWrite();
        case _ => return;
      }
      JumpTo(next);
    }

    // ---------------------------------------------------------------- the socket handlers

    /** What recv delivered; nothing is the end of the stream. */
    method ReceiveFromClient(data: seq<byte>)
      requires Valid() && |data| <= View().input.Room()
      modifies this`client, this`clientEof, this`h, input, input.data
      ensures Valid() && View() == ClientGot(old(View()), data)
    {
      input.Receive(data);
      h := h.(fromClient := h.fromClient + data);
      if data == [] { client, clientEof := CLOSING, true; }
    }

    method ReceiveFromServer(data: seq<byte>)
      requires Valid() && |data| <= View().output.Room()
      modifies this`server, this`serverEof, this`h, output, output.data
      ensures Valid() && View() == ServerGot(old(View()), data)
    {
      output.Receive(data);
      h := h.(fromServer := h.fromServer + data);
      if data == [] { server, serverEof := CLOSING, true; }
    }

    /** socks5_client_read */
    method ClientReadHandler(r: Recv, p: Parse, users: Users)
      requires Valid()
      requires input.CanWrite() ==> RecvFits(View().input, r) && ParseFits(phase, AfterRecv(View().input, r), p)
      modifies Repr()
      ensures Valid() && View() == ClientRecv(old(View()), r, p, users)
    {
      hide ProcessRead, ClientGot;
      if !input.CanWrite() {
        outcome := Aborted;
        return;
      }
      match r
      case Received(data) =>
        if data == [] && BeforeForwarding(phase) {
          outcome := Aborted;
          return;
        }
        GotIntoInput(View(), data);
        ReceiveFromClient(data);
        ProcessReadEvent(true, p, users);
      case RecvFailed => outcome := Aborted;
      case RecvInterrupted =>
    }

    /** socks5_server_read */
    method ServerReadHandler(r: Recv)
      requires Valid() && (output.CanWrite() ==> RecvFits(View().output, r))
      modifies Repr()
      ensures Valid() && View() == ServerRecv(old(View()), r)
    {
      hide ProcessRead, ServerGot;
      if !output.CanWrite() {
        outcome := Aborted;
        return;
      }
      match r
      case Received(data) =>
        if data == [] && BeforeForwarding(phase) {
          outcome := Aborted;
          return;
        }
        ReceiveFromServer(data);
        ProcessReadEvent(false, More, map[]);
      case RecvFailed => outcome := Aborted;
      case RecvInterrupted =>
    }

    /** socks5_client_write */
    method ClientWriteHandler(w: Send, users: Users)
      requires Valid() && (output.CanRead() ==> SendFits(View().output, w))
      modifies Repr()
      ensures Valid() && View() == ClientSend(old(View()), w, users)
    {
      hide ProcessWrite;
      if !output.CanRead() {
        ProcessWriteEvent(users, false, 0);
        return;
      }
      match w
      case Sent(n) =>
        output.FrontOfContent(n);
        h := h.(toClient := h.toClient + output.data[output.read..output.read + n]);
        output.ReadAdv(n);
        assert View() == ClientSent(old(View()), n);
        ProcessWriteEvent(users, false, 0);
      case SendFailed => outcome := Aborted;
      case SendInterrupted =>
    }

    /** socks5_server_write */
    method ServerWriteHandler(w: Send, users: Users, connectFailed: bool, failure: byte)
      requires Valid() && (input.CanRead() ==> SendFits(View().input, w))
      modifies Repr()
      ensures Valid() && View() == ServerSend(old(View()), w, users, connectFailed, failure)
    {
      hide ProcessWrite;
      if !input.CanRead() {
        ProcessWriteEvent(users, connectFailed, failure);
        return;
      }
      match w
      case Sent(n) =>
        input.FrontOfContent(n);
        h := h.(toServer := h.toServer + input.data[input.read..input.read + n]);
        input.ReadAdv(n);
        assert View() == ServerSent(old(View()), n);
        ProcessWriteEvent(users, connectFailed, failure);
      case SendFailed => outcome := Aborted;
      case SendInterrupted =>
    }
  }

  lemma GotIntoInput(s: State, data: seq<byte>)
    ensures ClientGot(s, data).input == AfterRecv(s.input, Received(data))
  {}

  lemma StartKeepsPhase(s: State)
    ensures HandleFirst(s).phase == s.phase && HandleFirst(s).input == s.input
  {}

  lemma MarshallKeepsPhase(s: State, msg: seq<byte>)
    ensures Marshall(s, msg).phase == s.phase
  {}
}
