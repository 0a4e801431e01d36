/**
  A session together with its credential observer: what FORWARDING feeds to it is the two streams of the
  relay, interleaved as they arrived, so that what it captures was said on the wire.
 */
module SessionObservers {
  import opened Buckets
  import opened Buffers
  import opened Session
  import opened SessionSafety
  import opened SessionTheorems
  import opened Handshakes
  import SP = Spoofing
  import SpoofingHttpSound
  import SpoofingPop

  /** The header that the session keeps for the observer. */
  datatype Observer = Observer(spoofingEnabled: bool, bytesRead: nat, parser: SP.Spoofer)

  /** The history of a session's observer: how it started, how many bytes the client had sent by then, and what
      was received from either side since. */
  datatype Watched = Watched(s: State, o: Observer, initial: SP.Spoofer, clientAt: nat, received: seq<SP.Sent>)

  // ---------------------------------------------------------------- what the handlers do

  /** forwarding_on_arrival: whether credentials are looked for is asked for now. */
  ghost predicate ObserverStarts(w: Watched, v: Watched) {
    && (v.o.spoofingEnabled ==> v.o.bytesRead == 0 && SP.Initial(v.o.parser))
    && v.initial == v.o.parser && v.clientAt == |v.s.h.fromClient| && v.received == []
  }

  /** A recv, successful or at the end of a stream, while forwarding. */
  predicate Receives(s: State, e: Event) {
    s.phase.FORWARDING? &&
    match e
    case ClientRead(r, _, _) => s.input.CanWrite() && r.Received?
    case ServerRead(r) => s.output.CanWrite() && r.Received?
    case _ => false
  }

  function SenderOf(e: Event): SP.Sender { if e.ClientRead? then SP.SPOOF_CLIENT else SP.SPOOF_SERVER }

  /** The n bytes in front of the write pointer. */
  function BeforeWritePointer(b: Buf, n: nat): seq<byte>
    requires n <= |b.content|
  {
    b.content[|b.content| - n..]
  }

  /** The buffer that the sender's bytes go to. */
  function BufferOf(s: State, sender: SP.Sender): Buf { if sender.SPOOF_CLIENT? then s.input else s.output }

  /** forwarding_on_read, as far as the observer is concerned, after the socket handler noted the size of the recv;
      nothing is fed once a side has ended, nor to a parser that is done. */
  ghost predicate ObserverReads(w: Watched, e: Event, v: Watched)
    requires Receives(w.s, e)
  {
    var n := |e.r.data|;
    && n <= |BufferOf(v.s, SenderOf(e)).content|
    && v.o == w.o.(bytesRead := n,
                   parser := if n == 0 || !w.o.spoofingEnabled || w.o.parser.currentState.SP_FINISH? then w.o.parser
                             else SP.Run(w.o.parser,
                                         SP.From(SenderOf(e), BeforeWritePointer(BufferOf(v.s, SenderOf(e)), n))))
    && v.initial == w.initial && v.clientAt == w.clientAt
    && v.received == w.received + SP.From(SenderOf(e), e.r.data)
  }

  ghost predicate WNext(w: Watched, e: Event, v: Watched) {
    Next(w.s, e, v.s) &&
    if v.s.phase.FORWARDING? && !w.s.phase.FORWARDING? then ObserverStarts(w, v)
    else if Receives(w.s, e) then ObserverReads(w, e, v)
    else v == w.(s := v.s)
  }

  ghost predicate WRun(w: Watched, es: seq<Event>, v: Watched) {
    if es == [] then w == v
    else
      var before, last := es[..|es| - 1], es[|es| - 1];
      exists m :: WRun(w, before, m) && WNext(m, last, v)
  }

  /** v is where the events es take a new session and its observer. */
  ghost predicate WReached(cap: nat, es: seq<Event>, v: Watched) {
    cap > 0 && exists w: Watched :: w.s == Init(cap) && WRun(w, es, v)
  }

  // ---------------------------------------------------------------- what the observer was shown

  /** The bytes of one side, in order. */
  function Of(sender: SP.Sender, t: seq<SP.Sent>): seq<byte>
    decreases |t|
  {
    if t == [] then []
    else Of(sender, t[..|t| - 1]) + if t[|t| - 1].sender == sender then [t[|t| - 1].byte] else []
  }

  lemma {:induction false} OfAppend(sender: SP.Sender, t: seq<SP.Sent>, from: SP.Sender, bytes: seq<byte>)
    ensures Of(sender, t + SP.From(from, bytes)) == Of(sender, t) + if from == sender then bytes else []
    decreases |bytes|
  {
    if bytes == [] {
      assert t + SP.From(from, bytes) == t;
    } else {
      var init, last := bytes[..|bytes| - 1], bytes[|bytes| - 1];
      var all := t + SP.From(from, bytes);
      assert all[..|all| - 1] == t + SP.From(from, init);
      assert all[|all| - 1] == SP.Sent(from, last);
      OfAppend(sender, t, from, init);
      assert bytes == init + [last];
    }
  }

  /** The observer has run over everything received while forwarding, which is all that came from the server and
      all that came from the client after the relay began. */
  ghost predicate Shown(w: Watched) {
    && (w.o.spoofingEnabled ==> SP.Initial(w.initial) && w.o.parser == SP.Run(w.initial, w.received))
    && w.s.h.consumed <= w.clientAt <= |w.s.h.fromClient|
    && Of(SP.SPOOF_CLIENT, w.received) <= w.s.h.fromClient[w.clientAt..]
    && Of(SP.SPOOF_SERVER, w.received) <= w.s.h.fromServer
    && (w.s.phase.FORWARDING? ==>
          && Of(SP.SPOOF_CLIENT, w.received) == w.s.h.fromClient[w.clientAt..]
          && Of(SP.SPOOF_SERVER, w.received) == w.s.h.fromServer)
  }

  ghost predicate WInv(w: Watched) {
    Inv(w.s) && (RelayPhase(w.s.phase) ==> Shown(w))
  }

  /** A recv while forwarding appends to its buffer, and the session forwards on unless the stream has ended. */
  lemma ForwardedRead(s: State, e: Event, t: State)
    requires Inv(s) && Next(s, e, t) && Receives(s, e)
    ensures BufferOf(t, SenderOf(e)).content == BufferOf(s, SenderOf(e)).content + e.r.data
    ensures t.phase == if e.r.data == [] then FLUSH_CLOSER else FORWARDING
  {
    hide Streams, LoggedIn, Greeting, Jump;
    if e.ClientRead? {
      var (s', next) := ForwardingRead(ClientGot(s, e.r.data));
      FlushCloserJump(s', next);
    } else {
      var (s', next) := ForwardingRead(ServerGot(s, e.r.data));
      FlushCloserJump(s', next);
    }
  }

  /** Every step of a session can be watched, with any parser just initialised when the relay begins. */
  lemma StepIsWatched(w: Watched, e: Event, t: State, enabled: bool, parser: SP.Spoofer) returns (v: Watched)
    requires WInv(w) && Next(w.s, e, t) && (enabled ==> SP.Initial(parser))
    ensures WNext(w, e, v) && v.s == t
    ensures t.phase.FORWARDING? && !w.s.phase.FORWARDING? ==> v.o.spoofingEnabled == enabled && v.o.parser == parser
  {
    hide Inv, Next, Shown, SP.Run, SP.Initial, SP.From;
    if t.phase.FORWARDING? && !w.s.phase.FORWARDING? {
      v := Watched(t, Observer(enabled, 0, parser), parser, |t.h.fromClient|, []);
    } else if Receives(w.s, e) {
      ForwardedRead(w.s, e, t);
      var n, sender := |e.r.data|, SenderOf(e);
      var fed := SP.From(sender, BeforeWritePointer(BufferOf(t, sender), n));
      v := Watched(t, w.o.(bytesRead := n, parser := if n == 0 || !w.o.spoofingEnabled
                                                        || w.o.parser.currentState.SP_FINISH? then w.o.parser
                                                     else SP.Run(w.o.parser, fed)),
                   w.initial, w.clientAt, w.received + SP.From(sender, e.r.data));
    } else {
      v := w.(s := t);
    }
  }

  lemma FlushCloserJump(s: State, next: Phase)
    requires s.phase.FORWARDING?
    ensures next.FLUSH_CLOSER? || next == s.phase ==>
              Jump(s, next).phase == next && Jump(s, next).input == s.input && Jump(s, next).output == s.output
  {
    CloserKeeps(s.(phase := FLUSH_CLOSER));
  }

  lemma RunsOver(w: Watched, e: Event, v: Watched)
    requires WInv(w) && WNext(w, e, v) && Receives(w.s, e) && w.o.spoofingEnabled
    ensures v.o.spoofingEnabled && v.o.parser == SP.Run(w.initial, v.received)
  {
    hide Inv, Next, SP.Run, SP.Initial, SP.InBounds, Of, SP.From;
    var data := e.r.data;
    ForwardedRead(w.s, e, v.s);
    assert BeforeWritePointer(BufferOf(v.s, SenderOf(e)), |data|) == data;
    var piece := SP.From(SenderOf(e), data);
    SP.RunSplit(w.initial, w.received, piece);
    RunOnNothing(w.o.parser, piece);
  }

  lemma ShowsMore(w: Watched, e: Event, v: Watched)
    requires WInv(w) && WNext(w, e, v) && Receives(w.s, e)
    ensures Shown(v)
  {
    hide Inv, Next, SP.Run, SP.Initial, SP.InBounds, Of, SP.From;
    if w.o.spoofingEnabled { RunsOver(w, e, v); }
    NoParserForwards(w.s, e);
    OtherMoves(w.s, e, v.s);
    ReadMoves(w.s, e, v.s);
    OfAppend(SP.SPOOF_CLIENT, w.received, SenderOf(e), e.r.data);
    OfAppend(SP.SPOOF_SERVER, w.received, SenderOf(e), e.r.data);
    assert v.s.h.fromClient[w.clientAt..] == w.s.h.fromClient[w.clientAt..] + Heard(w.s, e, true);
  }

  lemma NoParserForwards(s: State, e: Event)
    requires Receives(s, e)
    ensures !Parses(s, e)
  {}

  lemma RunOnNothing(s: SP.Spoofer, piece: seq<SP.Sent>)
    ensures piece == [] || s.currentState.SP_FINISH? ==> SP.Run(s, piece) == s
  {}

  lemma StillShown(w: Watched, e: Event, v: Watched)
    requires WInv(w) && WNext(w, e, v) && !Receives(w.s, e) && RelayPhase(v.s.phase)
    ensures Shown(v)
  {
    hide Inv, Next, SP.Run, SP.Initial;
    NoParserRelays(w.s, e, v.s);
    OtherMoves(w.s, e, v.s);
    StreamBound(w.s);
    if v.s.phase.FORWARDING? && !w.s.phase.FORWARDING? {
      NothingFromServer(w.s);
      EnteredByWrite(w.s, e, v.s);
      SendMoves(w.s, e, v.s);
      RunOnNothing(v.initial, []);
    } else if e.ClientRead? || e.ServerRead? {
      ReadMoves(w.s, e, v.s);
      assert w.s.phase.FORWARDING? ==> Heard(w.s, e, true) == [] && Heard(w.s, e, false) == [];
      assert v.s.h.fromClient[w.clientAt..] == w.s.h.fromClient[w.clientAt..] + Heard(w.s, e, true);
    } else {
      SendMoves(w.s, e, v.s);
    }
  }

  lemma NoParserRelays(s: State, e: Event, t: State)
    requires Inv(s) && Next(s, e, t) && RelayPhase(t.phase)
    ensures !Parses(s, e)
  {
    hide Inv, Next;
    if Parses(s, e) {
      match s.phase
      case HELLO => HelloReads(s, e, t);
      case AUTH_REQUEST => AuthReads(s, e, t);
      case REQUEST => RequestReads(s, e, t);
    }
  }

  lemma NothingFromServer(s: State)
    requires Inv(s) && s.phase.REQUEST_SUCCESSFUL?
    ensures s.h.fromServer == []
  {}

  lemma EnteredByWrite(s: State, e: Event, t: State)
    requires Inv(s) && Next(s, e, t) && s.phase.REQUEST_SUCCESSFUL?
    ensures e.ClientWrite? || e.ServerWrite?
  {
    hide Streams, LoggedIn, Greeting;
  }

  lemma WStepInv(w: Watched, e: Event, v: Watched)
    requires WInv(w) && WNext(w, e, v)
    ensures WInv(v)
  {
    hide Inv, Step, Enabled, Shown;
    StepInv(w.s, e);
    if RelayPhase(v.s.phase) {
      if Receives(w.s, e) { ShowsMore(w, e, v); } else { StillShown(w, e, v); }
    }
  }

  lemma {:induction false} WRunInv(w: Watched, es: seq<Event>, v: Watched)
    requires WInv(w) && WRun(w, es, v)
    ensures WInv(v)
    decreases |es|
  {
    hide WInv, WNext;
    if es != [] {
      var before, last := es[..|es| - 1], es[|es| - 1];
      var m :| WRun(w, before, m) && WNext(m, last, v);
      WRunInv(w, before, m);
      WStepInv(m, last, v);
    }
  }

  // ---------------------------------------------------------------- the main results

  /** The observer is fed what either side sent while the relay was open, each byte once and in the order of
      arrival, whatever the sizes of the reads; what the client had sent before the relay began, and what comes
      once a side has ended, it never sees. */
  lemma ObserverSeesTheRelay(cap: nat, es: seq<Event>, w: Watched)
    requires WReached(cap, es, w) && RelayPhase(w.s.phase)
    ensures Shown(w)
  {
    hide Inv, Shown, WRun, Init;
    var w0: Watched :| w0.s == Init(cap) && WRun(w0, es, w);
    InitInv(cap);
    StartsBeforeRelay(cap);
    WRunInv(w0, es, w);
  }

  lemma StartsBeforeRelay(cap: nat)
    ensures !RelayPhase(Init(cap).phase)
  {}

  /** So a POP3 capture of a session was said on its wire: the bytes that its sides exchanged while it forwarded
      hold a login that the server accepted, and the captured name and password are that login's. */
  lemma SessionCaptureIsSound(cap: nat, es: seq<Event>, w: Watched) returns (m: SpoofingPop.Marks)
    requires WReached(cap, es, w) && RelayPhase(w.s.phase) && w.o.spoofingEnabled
    requires SP.InBounds(w.initial, w.received) && w.o.parser.success && w.o.parser.protocol.SPOOF_POP?
    ensures SpoofingPop.Captured(w.received[..SpoofingPop.Taken(w.initial, w.received)], m, w.o.parser)
    ensures Shown(w)
  {
    hide WReached, SP.Run, SP.InBounds, SpoofingPop.Captured;
    ObserverSeesTheRelay(cap, es, w);
    m := SpoofingPop.PopCaptureIsSound(w.initial, w.received);
  }

  /** An HTTP login is captured from a session, within the arrays, if and only if what its sides exchanged while it
      forwarded starts with one, and then it is that login's name and password. */
  lemma SessionCapturesHttpExactlyWhen(cap: nat, es: seq<Event>, w: Watched)
    requires WReached(cap, es, w) && RelayPhase(w.s.phase) && w.o.spoofingEnabled
    ensures SP.InBounds(w.initial, w.received) && w.o.parser.success && w.o.parser.protocol.SPOOF_HTTP?
            <==> SpoofingHttpSound.StartsWithLogin(w.received)
    ensures Shown(w)
  {
    hide WReached, SP.Run, SP.InBounds, SpoofingHttpSound.StartsWithLogin;
    ObserverSeesTheRelay(cap, es, w);
    SpoofingHttpSound.HttpCapturedExactlyWhen(w.initial, w.received);
  }
}
