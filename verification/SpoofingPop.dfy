/**
  What a captured POP3 login means (section 7 of RFC 1939): an invariant over every transcript.
 */
module SpoofingPop {
  import opened Buckets
  import opened StringMatcher
  import opened Spoofing
  import ByteParsers

  // ---------------------------------------------------------------- transcripts

  /** The bytes from one position up to another were all sent by the given side. */
  predicate AllBy(t: seq<Sent>, from: nat, end: nat, sender: Sender) {
    from <= end <= |t| && forall i :: from <= i < end ==> t[i].sender == sender
  }

  /** A client word at position i, agreeing with the first k bytes of a pattern. */
  predicate Says(t: seq<Sent>, i: nat, k: nat, word: seq<byte>) {
    && k <= |word| && AllBy(t, i, i + k, SPOOF_CLIENT)
    && forall j :: 0 <= j < k ==> Same(t[i + j].byte, word[j])
  }

  /** The client starts to speak at i: the byte before is the server's. */
  predicate Turn(t: seq<Sent>, i: nat) { 0 < i <= |t| && t[i - 1].sender.SPOOF_SERVER? }

  /** The server greeted with +OK, in any case. */
  predicate Greeted(t: seq<Sent>) {
    |t| >= 3 && AllBy(t, 0, 3, SPOOF_SERVER) && forall j :: 0 <= j < 3 ==> Same(t[j].byte, PLUS_OK[j])
  }

  /** The bytes of an argument, carriage returns left out. */
  function Argument(t: seq<Sent>, from: nat, end: nat): (text: seq<byte>)
    requires end <= |t|
    ensures |text| + from <= end || text == []
    decreases end
  {
    if end <= from then []
    else Argument(t, from, end - 1) + if t[end - 1].byte == CR then [] else [t[end - 1].byte]
  }

  /** A turn of the client starts at i with the word, and goes on to position end without a line feed. */
  predicate Line(t: seq<Sent>, i: nat, end: nat, word: seq<byte>) {
    && Turn(t, i) && Says(t, i, |word|, word) && AllBy(t, i + |word|, end, SPOOF_CLIENT)
    && forall j :: i + |word| <= j < end ==> t[j].byte != LF
  }

  /** The same, ended by a line feed at position end. */
  predicate WholeLine(t: seq<Sent>, i: nat, end: nat, word: seq<byte>) {
    Line(t, i, end, word) && end < |t| && t[end] == Sent(SPOOF_CLIENT, LF)
  }

  predicate Answered(t: seq<Sent>, at: nat, b: byte) { at < |t| && t[at] == Sent(SPOOF_SERVER, b) }

  /** No turn that starts in the range begins with the word. */
  predicate NoTurnSays(t: seq<Sent>, from: nat, word: seq<byte>) {
    forall i :: from <= i && i + |word| <= |t| ==> !(Turn(t, i) && Says(t, i, |word|, word))
  }

  /** Where the last USER line starts and ends, and the last PASS line. */
  datatype Marks = Marks(u: nat, v: nat, p: nat, q: nat)

  /** The server accepted the USER line, and the client has not started a turn with another. */
  predicate UserAccepted(t: seq<Sent>, m: Marks) {
    && WholeLine(t, m.u, m.v, USER) && Answered(t, m.v + 1, PLUS)
    && NoTurnSays(t, m.v + 2, USER)
  }

  predicate UserStored(t: seq<Sent>, m: Marks, s: Spoofer) {
    m.v <= |t| && Holds(s.username, Argument(t, m.u + |USER|, m.v))
  }

  /**
    A login captured from the transcript: a greeting, a USER line answered with a plus, after it a PASS line
    answered with a plus at the very end, no other USER line in between, and the two arguments.
   */
  predicate Captured(t: seq<Sent>, m: Marks, s: Spoofer) {
    && Greeted(t)
    && WholeLine(t, m.u, m.v, USER) && Answered(t, m.v + 1, PLUS)
    && NoTurnSays(t, m.v + 2, USER)
    && m.v + 1 < m.p && WholeLine(t, m.p, m.q, PASS)
    && m.q + 2 == |t| && Answered(t, m.q + 1, PLUS)
    && Holds(s.username, Argument(t, m.u + |USER|, m.v))
    && Holds(s.password, Argument(t, m.p + |PASS|, m.q))
  }

  // ---------------------------------------------------------------- the invariant

  /** What holds after every byte of a POP3 session that has greeted. */
  predicate Session(t: seq<Sent>, s: Spoofer) {
    && Greeted(t) && !s.success && s.protocol.SPOOF_POP?
    && |s.username| == CREDENTIAL_ROOM && |s.password| == CREDENTIAL_ROOM
  }

  /** The array holds the first bytes of an argument that is still arriving. */
  predicate Arriving(room: seq<byte>, n: nat, t: seq<Sent>, from: nat) {
    n <= |room| && room[..n] == Argument(t, from, |t|)
  }

  /** A USER line was accepted, its argument is stored, and no later turn of the client is another. */
  predicate HasUser(t: seq<Sent>, m: Marks, s: Spoofer) { UserAccepted(t, m) && UserStored(t, m, s) }

  /** State of a comparison with a word that a turn started k bytes ago. */
  predicate Comparing(t: seq<Sent>, i: nat, word: seq<byte>, c: Matcher) {
    i <= |t| && c == Matcher(word, if |t| - i <= |word| && Says(t, i, |t| - i, word) then |t| - i else |word| + 1)
  }

  predicate UserWord(t: seq<Sent>, s: Spoofer, k: nat) {
    && k < |USER| && k <= |t| && s.credentialIter == 0 && Turn(t, |t| - k) && Says(t, |t| - k, k, USER)
    && s.initialized == (k > 0) && (k > 0 ==> s.primary == Matcher(USER, k))
  }

  predicate PassWord(t: seq<Sent>, m: Marks, s: Spoofer) {
    && HasUser(t, m, s) && m.v + 1 < m.p <= |t| < m.p + |PASS| && s.credentialIter == 0
    && Turn(t, m.p) && AllBy(t, m.p, |t|, SPOOF_CLIENT)
    && s.initialized == (m.p < |t|)
    && (m.p < |t| ==> Comparing(t, m.p, PASS, s.primary) && Comparing(t, m.p, USER, s.secondary))
  }

  predicate Idle(s: Spoofer) { !s.initialized && s.credentialIter == 0 }

  /** The invariant of a state after the transcript t. */
  ghost predicate StateInv(t: seq<Sent>, s: Spoofer, m: Marks) {
    match s.currentState
    case SP_INIT => t == [] && Idle(s) && !s.success
    case SP_CONFIRM_POP =>
      && 0 < |t| < 3 && !s.success && s.credentialIter == 0 && s.initialized && s.primary == Matcher(PLUS_OK, |t|)
      && AllBy(t, 0, |t|, SPOOF_SERVER) && forall j :: 0 <= j < |t| ==> Same(t[j].byte, PLUS_OK[j])
    case SP_POP_USER_SERVER_CONSUME => Session(t, s) && Idle(s) && Turn(t, |t|)
    case SP_POP_USER_CLIENT_CONSUME => Session(t, s) && Idle(s)
    case SP_POP_CHECKING_USER => Session(t, s) && exists k: nat :: 0 < k && UserWord(t, s, k)
    case SP_POP_EXTRACTING_USER =>
      Session(t, s) && !s.initialized && Line(t, m.u, |t|, USER)
      && Arriving(s.username, s.credentialIter, t, m.u + |USER|)
    case SP_POP_CHECKING_USER_RESPONSE =>
      Session(t, s) && Idle(s) && WholeLine(t, m.u, m.v, USER) && m.v + 1 == |t| && UserStored(t, m, s)
    case SP_POP_PASS_SERVER_CONSUME => Session(t, s) && Idle(s) && HasUser(t, m, s) && Turn(t, |t|)
    case SP_POP_PASS_CLIENT_CONSUME =>
      && Session(t, s) && Idle(s) && HasUser(t, m, s) && m.p < |t| && Turn(t, m.p) && AllBy(t, m.p, |t|, SPOOF_CLIENT)
      && exists j :: 0 <= j < |USER| && m.p + j < |t| && !Same(t[m.p + j].byte, USER[j])
    case SP_POP_CHECKING_PASS => Session(t, s) && s.initialized && PassWord(t, m, s)
    case SP_POP_EXTRACTING_PASS =>
      && Session(t, s) && !s.initialized && HasUser(t, m, s) && m.v + 1 < m.p && Line(t, m.p, |t|, PASS)
      && Arriving(s.password, s.credentialIter, t, m.p + |PASS|)
    case SP_POP_CHECKING_PASS_RESPONSE =>
      && Session(t, s) && Idle(s) && HasUser(t, m, s) && m.v + 1 < m.p && WholeLine(t, m.p, m.q, PASS) && m.q + 1 == |t|
      && Holds(s.password, Argument(t, m.p + |PASS|, m.q))
    case SP_FINISH => s.success && s.protocol.SPOOF_POP? ==> Captured(t, m, s)
    case _ => !s.success && (!s.currentState.SP_CONFIRM_HTTP? ==> s.protocol.SPOOF_HTTP?)
  }

  ghost predicate Inv(t: seq<Sent>, s: Spoofer, m: Marks) {
    |s.username| == CREDENTIAL_ROOM && |s.password| == CREDENTIAL_ROOM && StateInv(t, s, m)
  }

  // ---------------------------------------------------------------- what a further byte leaves as it is

  lemma {:induction false} ArgumentKept(t: seq<Sent>, e: Sent, from: nat, end: nat)
    requires end <= |t|
    ensures Argument(t + [e], from, end) == Argument(t, from, end)
    decreases end
  {
    if from < end { ArgumentKept(t, e, from, end - 1); }
  }

  lemma NextOfArgument(t: seq<Sent>, e: Sent, from: nat)
    requires from <= |t|
    ensures Argument(t + [e], from, |t| + 1) == Argument(t, from, |t|) + if e.byte == CR then [] else [e.byte]
  {
    ArgumentKept(t, e, from, |t|);
  }

  /** Another turn that says USER could only end with the new byte. */
  lemma NoTurnGrows(t: seq<Sent>, e: Sent, from: nat)
    requires NoTurnSays(t, from, USER)
    requires var i := |t| + 1 - |USER|; i < 0 || i < from || !(Turn(t + [e], i) && Says(t + [e], i, |USER|, USER))
    ensures NoTurnSays(t + [e], from, USER)
  {
    var t' := t + [e];
    forall i | from <= i && i + |USER| <= |t'|
      ensures !(Turn(t', i) && Says(t', i, |USER|, USER))
    {
      if i + |USER| <= |t| {
        assert forall j :: 0 <= j < |t| ==> t'[j] == t[j];
        assert Turn(t, i) <==> Turn(t', i);
        assert Says(t, i, |USER|, USER) <==> Says(t', i, |USER|, USER);
      }
    }
  }

  lemma HasUserKept(t: seq<Sent>, e: Sent, m: Marks, s: Spoofer)
    requires HasUser(t, m, s) && NoTurnSays(t + [e], m.v + 2, USER)
    ensures HasUser(t + [e], m, s)
  {
    ArgumentKept(t, e, m.u + |USER|, m.v);
  }

  // ---------------------------------------------------------------- one step

  lemma WordGrows(t: seq<Sent>, i: nat, k: nat, word: seq<byte>, e: Sent)
    requires i + k == |t| && Says(t, i, k, word) && k < |word| && e.sender.SPOOF_CLIENT?
    ensures Says(t + [e], i, k + 1, word) <==> Same(e.byte, word[k])
  {
    assert (t + [e])[i + k] == e;
    assert forall j :: 0 <= j < |t| ==> (t + [e])[j] == t[j];
  }

  lemma GreetedKept(t: seq<Sent>, e: Sent)
    requires Greeted(t)
    ensures Greeted(t + [e])
  {}

  lemma ConfirmPopKeeps(t: seq<Sent>, s: Spoofer, m: Marks, e: Sent)
    requires |s.username| == CREDENTIAL_ROOM && |s.password| == CREDENTIAL_ROOM && !s.success && s.credentialIter == 0
    requires |t| < 3 && s.currentState.SP_CONFIRM_POP? && s.initialized == (t != [])
    requires t != [] ==> s.primary == Matcher(PLUS_OK, |t|)
    requires AllBy(t, 0, |t|, SPOOF_SERVER) && forall j :: 0 <= j < |t| ==> Same(t[j].byte, PLUS_OK[j])
    ensures Inv(t + [e], ConfirmPop(s, e), m)
  {
    hide Same, Captured;
    var s' := ConfirmPop(s, e);
    assert !s'.success;
    if e.sender.SPOOF_SERVER? && IsAscii(e.byte) {
      assert Armed1(s, PLUS_OK).primary == Matcher(PLUS_OK, |t|);
    }
  }

  lemma CheckingUserKeeps(t: seq<Sent>, s: Spoofer, m: Marks, e: Sent, k: nat)
    requires Session(t, s) && UserWord(t, s, k) && s.currentState.SP_POP_CHECKING_USER?
    ensures Inv(t + [e], CheckingUser(s, e), m.(u := |t| - k))
  {
    hide Says, Same, Captured, Greeted;
    var t', s' := t + [e], CheckingUser(s, e);
    GreetedKept(t, e);
    if e.sender.SPOOF_CLIENT? && IsAscii(e.byte) {
      assert Armed1(s, USER).primary == Matcher(USER, k);
      WordGrows(t, |t| - k, k, USER, e);
      assert Turn(t', |t| - k);
      if Same(e.byte, USER[k]) && k + 1 < |USER| { assert UserWord(t', s', k + 1); }
    }
  }

  /** A byte of an argument is stored behind the earlier ones; a carriage return is not, a line feed ends it. */
  lemma ArgumentGrows(t: seq<Sent>, room: seq<byte>, n: nat, from: nat, e: Sent)
    requires Arriving(room, n, t, from) && from <= |t|
    ensures e.byte == CR ==> Arriving(room, n, t + [e], from)
    ensures n < |room| && e.byte != CR ==> Arriving(ByteParsers.Put(room, n, e.byte), n + 1, t + [e], from)
    ensures n < |room| ==> Holds(ByteParsers.Put(room, n, 0), Argument(t + [e], from, |t|))
  {
    NextOfArgument(t, e, from);
    ArgumentKept(t, e, from, |t|);
    if n < |room| {
      assert ByteParsers.Put(room, n, 0)[..n] == room[..n];
      assert ByteParsers.Put(room, n, e.byte)[..n + 1] == room[..n] + [e.byte];
    }
  }

  lemma LineGrows(t: seq<Sent>, i: nat, word: seq<byte>, e: Sent)
    requires Line(t, i, |t|, word)
    ensures e.sender.SPOOF_CLIENT? && e.byte == LF ==> WholeLine(t + [e], i, |t|, word)
    ensures e.sender.SPOOF_CLIENT? && e.byte != LF ==> Line(t + [e], i, |t| + 1, word)
  {}

  lemma ExtractingUserKeeps(t: seq<Sent>, s: Spoofer, m: Marks, e: Sent)
    requires Inv(t, s, m) && s.currentState.SP_POP_EXTRACTING_USER? && Fits(s, e)
    ensures Inv(t + [e], ExtractingUser(s, e), m.(v := |t|))
  {
    hide Line, WholeLine, Argument, ByteParsers.Put, Arriving, Holds;
    if e.sender.SPOOF_CLIENT? && IsAscii(e.byte) {
      assert Line(t, m.u, |t|, USER);
      LineReaches(t, m.u, |t|, USER);
      LineGrows(t, m.u, USER, e);
      ArgumentGrows(t, s.username, s.credentialIter, m.u + |USER|, e);
    }
  }

  lemma LineReaches(t: seq<Sent>, i: nat, end: nat, word: seq<byte>)
    requires Line(t, i, end, word)
    ensures i + |word| <= end <= |t|
  {}

  lemma CheckingUserResponseKeeps(t: seq<Sent>, s: Spoofer, m: Marks, e: Sent)
    requires Inv(t, s, m) && s.currentState.SP_POP_CHECKING_USER_RESPONSE?
    ensures Inv(t + [e], CheckingUserResponse(s, e), m)
  {
    hide Argument, Holds;
    ArgumentKept(t, e, m.u + |USER|, m.v);
  }

  /** After the server speaks, or inside a turn that says something else, no turn says USER anew. */
  lemma NoUserTurn(t: seq<Sent>, e: Sent, m: Marks, s: Spoofer)
    requires HasUser(t, m, s)
    requires
      || e.sender.SPOOF_SERVER?
      || (m.p <= |t| && Turn(t, m.p) && AllBy(t, m.p, |t|, SPOOF_CLIENT)
          && (m.p + |USER| <= |t| + 1 ==> !Says(t + [e], m.p, |USER|, USER)))
    ensures HasUser(t + [e], m, s)
  {
    hide Same;
    var t' := t + [e];
    assert t'[|t|] == e && forall j :: 0 <= j < |t| ==> t'[j] == t[j];
    if e.sender.SPOOF_CLIENT? { assert t'[m.p - 1].sender.SPOOF_SERVER?; }
    NoTurnGrows(t, e, m.v + 2);
    HasUserKept(t, e, m, s);
  }

  /** The two words differ in their first byte. */
  lemma PassIsNotUser(t: seq<Sent>, i: nat, k: nat)
    requires 0 < k && Says(t, i, k, PASS)
    ensures !Says(t, i, |USER|, USER)
  {
    assert Same(t[i + 0].byte, PASS[0]) && !Same(t[i + 0].byte, USER[0]);
  }

  lemma ComparingGrows(t: seq<Sent>, i: nat, word: seq<byte>, c: Matcher, e: Sent)
    requires i <= |t| && Comparing(t, i, word, c) && AllBy(t, i, |t|, SPOOF_CLIENT) && e.sender.SPOOF_CLIENT?
    requires |t| - i < |word|
    ensures var (d, event) := Feed(c, e.byte); var k := |t| + 1 - i;
            && Comparing(t + [e], i, word, d)
            && (event.STRING_CMP_EQ? <==> k == |word| && Says(t + [e], i, k, word))
            && (event.STRING_CMP_NEQ? <==> !Says(t + [e], i, k, word))
  {
    hide Same;
    var k := |t| - i;
    if Says(t, i, k, word) {
      WordGrows(t, i, k, word, e);
    } else if Says(t + [e], i, k + 1, word) {
      SaysEarlier(t, e, i, k, word);
    }
  }

  lemma SaysEarlier(t: seq<Sent>, e: Sent, i: nat, k: nat, word: seq<byte>)
    requires i + k == |t| && Says(t + [e], i, k + 1, word)
    ensures Says(t, i, k, word)
  {
    hide Same;
    assert forall j :: 0 <= j < |t| ==> (t + [e])[j] == t[j];
    forall j | 0 <= j < k
      ensures Same(t[i + j].byte, word[j])
    {
      assert (t + [e])[i + j] == t[i + j];
    }
  }

  /** A client byte of the first word of a turn. */
  lemma FirstWordKeeps(t: seq<Sent>, s: Spoofer, m: Marks, e: Sent)
    requires Session(t, s) && PassWord(t, m, s) && s.currentState.SP_POP_CHECKING_PASS?
    requires e.sender.SPOOF_CLIENT? && IsAscii(e.byte)
    ensures var s' := CheckingPass(s, e);
            Inv(t + [e], s', if s'.currentState.SP_POP_EXTRACTING_USER? then m.(u := m.p) else m)
  {
    hide Says, Same, Captured, Greeted, HasUser;
    var t', s', k := t + [e], CheckingPass(s, e), |t| + 1 - m.p;
    var armed := Armed2(s, PASS, USER);
    GreetedKept(t, e);
    EmptyWord(t, m.p);
    ComparingGrows(t, m.p, PASS, armed.primary, e);
    ComparingGrows(t, m.p, USER, armed.secondary, e);
    if s'.currentState.SP_POP_EXTRACTING_USER? {
      assert Line(t', m.p, |t'|, USER);
    } else {
      if Says(t', m.p, k, PASS) { PassIsNotUser(t', m.p, k); }
      NoUserTurn(t, e, m, s);
      SameUser(t', m, s, s');
      if s'.currentState.SP_POP_PASS_CLIENT_CONSUME? { Mismatch(t', m.p, k, USER); }
    }
  }

  lemma EmptyWord(t: seq<Sent>, i: nat)
    requires i <= |t|
    ensures Says(t, i, 0, PASS) && Says(t, i, 0, USER)
  {}

  lemma SameUser(t: seq<Sent>, m: Marks, s: Spoofer, s': Spoofer)
    requires HasUser(t, m, s) && s'.username == s.username
    ensures HasUser(t, m, s')
  {}

  lemma Mismatch(t: seq<Sent>, i: nat, k: nat, word: seq<byte>)
    requires AllBy(t, i, |t|, SPOOF_CLIENT) && i + k == |t| && k <= |word| && !Says(t, i, k, word)
    ensures exists j :: 0 <= j < |word| && i + j < |t| && !Same(t[i + j].byte, word[j])
  {
    hide Same;
  }

  lemma CheckingPassKeeps(t: seq<Sent>, s: Spoofer, m: Marks, e: Sent)
    requires Session(t, s) && PassWord(t, m, s) && s.currentState.SP_POP_CHECKING_PASS?
    ensures var s' := CheckingPass(s, e);
            Inv(t + [e], s', if s'.currentState.SP_POP_EXTRACTING_USER? then m.(u := m.p) else m)
  {
    hide Says, Same, Captured, Greeted, HasUser;
    if e.sender.SPOOF_CLIENT? && IsAscii(e.byte) {
      FirstWordKeeps(t, s, m, e);
    } else if e.sender.SPOOF_SERVER? {
      GreetedKept(t, e);
      NoUserTurn(t, e, m, s);
      if IsAscii(e.byte) { SameUser(t + [e], m, s, CheckingPass(s, e)); }
    }
  }

  lemma PassServerConsumeKeeps(t: seq<Sent>, s: Spoofer, m: Marks, e: Sent)
    requires Session(t, s) && Idle(s) && HasUser(t, m, s) && Turn(t, |t|) && s.currentState.SP_POP_PASS_SERVER_CONSUME?
    ensures var s' := PassServerConsume(s, e);
            Inv(t + [e], s', if e.sender.SPOOF_SERVER? then m
                else if s'.currentState.SP_POP_EXTRACTING_USER? then m.(u := |t|, p := |t|) else m.(p := |t|))
  {
    hide Captured, Greeted, Same, CheckingPass;
    if e.sender.SPOOF_SERVER? {
      GreetedKept(t, e);
      NoUserTurn(t, e, m, s);
    } else {
      CheckingPassKeeps(t, Goto(s, SP_POP_CHECKING_PASS), m.(p := |t|), e);
    }
  }

  lemma PassClientConsumeKeeps(t: seq<Sent>, s: Spoofer, m: Marks, e: Sent) returns (m': Marks)
    requires Inv(t, s, m) && s.currentState.SP_POP_PASS_CLIENT_CONSUME?
    ensures Inv(t + [e], PassClientConsume(s, e), m')
  {
    hide Captured, Greeted, Same, Says, Argument, Holds;
    m' := m;
    GreetedKept(t, e);
    if e.sender.SPOOF_CLIENT? {
      var j :| 0 <= j < |USER| && m.p + j < |t| && !Same(t[m.p + j].byte, USER[j]);
      SaysNot(t + [e], m.p, j);
      NoUserTurn(t, e, m, s);
      assert (t + [e])[m.p + j] == t[m.p + j];
    } else {
      NoUserTurn(t, e, m, s);
    }
  }

  lemma SaysNot(t: seq<Sent>, i: nat, j: nat)
    requires j < |USER| && i + j < |t| && !Same(t[i + j].byte, USER[j])
    ensures !Says(t, i, |USER|, USER)
  {
    hide Same;
  }

  lemma LineIsNotUser(t: seq<Sent>, i: nat, e: Sent)
    requires Line(t, i, |t|, PASS)
    ensures !Says(t + [e], i, |USER|, USER)
  {
    assert Same(t[i + 0].byte, PASS[0]) && (t + [e])[i + 0] == t[i + 0];
    SaysNot(t + [e], i, 0);
  }

  lemma ExtractingPassKeeps(t: seq<Sent>, s: Spoofer, m: Marks, e: Sent)
    requires Inv(t, s, m) && s.currentState.SP_POP_EXTRACTING_PASS? && Fits(s, e)
    ensures Inv(t + [e], ExtractingPass(s, e), m.(q := |t|))
  {
    hide WholeLine, Argument, ByteParsers.Put, Arriving, Holds, Greeted, Same, Captured;
    if e.sender.SPOOF_CLIENT? && IsAscii(e.byte) {
      GreetedKept(t, e);
      LineIsNotUser(t, m.p, e);
      NoUserTurn(t, e, m, s);
      LineGrows(t, m.p, PASS, e);
      ArgumentGrows(t, s.password, s.credentialIter, m.p + |PASS|, e);
      SameUser(t + [e], m, s, ExtractingPass(s, e));
    }
  }

  lemma CheckingPassResponseKeeps(t: seq<Sent>, s: Spoofer, m: Marks, e: Sent)
    requires Inv(t, s, m) && s.currentState.SP_POP_CHECKING_PASS_RESPONSE?
    ensures Inv(t + [e], CheckingPassResponse(s, e), m)
  {
    hide Greeted, Same, Argument, Holds;
    if e.sender.SPOOF_SERVER? && IsAscii(e.byte) {
      GreetedKept(t, e);
      NoUserTurn(t, e, m, s);
      ArgumentKept(t, e, m.p + |PASS|, m.q);
      SameUser(t + [e], m, s, CheckingPassResponse(s, e));
    }
  }

  lemma UserConsumeKeeps(t: seq<Sent>, s: Spoofer, m: Marks, e: Sent) returns (m': Marks)
    requires Session(t, s) && Idle(s) && s.currentState in {SP_POP_USER_SERVER_CONSUME, SP_POP_USER_CLIENT_CONSUME}
    requires s.currentState.SP_POP_USER_SERVER_CONSUME? ==> Turn(t, |t|)
    ensures Inv(t + [e], Step(s, e), m')
  {
    hide Greeted, Same, Captured, CheckingUser;
    GreetedKept(t, e);
    m' := m;
    if s.currentState.SP_POP_USER_SERVER_CONSUME? && e.sender.SPOOF_CLIENT? {
      CheckingUserKeeps(t, Goto(s, SP_POP_CHECKING_USER), m, e, 0);
      m' := m.(u := |t| - 0);
    }
  }

  /** Every step of every state keeps the invariant. */
  lemma StepKeeps(t: seq<Sent>, s: Spoofer, m: Marks, e: Sent) returns (m': Marks)
    requires Inv(t, s, m) && !s.currentState.SP_FINISH? && Fits(s, e)
    ensures Inv(t + [e], Step(s, e), m')
  {
    hide Captured, Session, Line, WholeLine, HasUser, PassWord, Holds, Argument, Arriving, Same, Fits, ConfirmPop,
         UserServerConsume, UserClientConsume, CheckingUser, ExtractingUser, CheckingUserResponse, PassServerConsume,
         PassClientConsume, CheckingPass, ExtractingPass, CheckingPassResponse, Http;
    m' := m;
    match s.currentState
    case SP_INIT =>
      if e.sender.SPOOF_SERVER? { ConfirmPopKeeps(t, Goto(s, SP_CONFIRM_POP), m, e); } else { HttpKeeps(t, s, m, e); }
    case SP_CONFIRM_POP => ConfirmPopKeeps(t, s, m, e);
    case SP_POP_USER_SERVER_CONSUME => m' := UserConsumeKeeps(t, s, m, e);
    case SP_POP_USER_CLIENT_CONSUME => m' := UserConsumeKeeps(t, s, m, e);
    case SP_POP_CHECKING_USER =>
      var k: nat :| 0 < k && UserWord(t, s, k);
      CheckingUserKeeps(t, s, m, e, k);
      m' := m.(u := |t| - k);
    case SP_POP_EXTRACTING_USER =>
      ExtractingUserKeeps(t, s, m, e);
      m' := m.(v := |t|);
    case SP_POP_CHECKING_USER_RESPONSE => CheckingUserResponseKeeps(t, s, m, e);
    case SP_POP_PASS_SERVER_CONSUME =>
      PassServerConsumeKeeps(t, s, m, e);
      m' := if e.sender.SPOOF_SERVER? then m
            else if Step(s, e).currentState.SP_POP_EXTRACTING_USER? then m.(u := |t|, p := |t|) else m.(p := |t|);
    case SP_POP_PASS_CLIENT_CONSUME => m' := PassClientConsumeKeeps(t, s, m, e);
    case SP_POP_CHECKING_PASS =>
      CheckingPassKeeps(t, s, m, e);
      m' := if Step(s, e).currentState.SP_POP_EXTRACTING_USER? then m.(u := m.p) else m;
    case SP_POP_EXTRACTING_PASS =>
      ExtractingPassKeeps(t, s, m, e);
      m' := m.(q := |t|);
    case SP_POP_CHECKING_PASS_RESPONSE => CheckingPassResponseKeeps(t, s, m, e);
    case _ => HttpKeeps(t, s, m, e);
  }

  predicate IsHttp(s: SpoofingParserState) {
    s in {SP_CONFIRM_HTTP, SP_HTTP_SEARCHING_AUTH, SP_HTTP_CONFIRM_BASIC_SCHEME, SP_HTTP_EXTRACTING_CREDENTIALS,
          SP_HTTP_CLIENT_CONFIRMATION_CONSUME, SP_HTTP_CREDENTIAL_CONFIRMATION}
  }

  /** An HTTP session, or its end. */
  predicate Http(s: Spoofer) {
    && |s.username| == CREDENTIAL_ROOM && |s.password| == CREDENTIAL_ROOM
    && (IsHttp(s.currentState) || s.currentState.SP_FINISH?)
    && (s.success ==> s.currentState.SP_FINISH?)
    && (s.success || (IsHttp(s.currentState) && !s.currentState.SP_CONFIRM_HTTP?) ==> s.protocol.SPOOF_HTTP?)
  }

  lemma HttpStart(s: Spoofer, e: Sent)
    requires Http(s) && s.currentState in {SP_CONFIRM_HTTP, SP_HTTP_SEARCHING_AUTH, SP_HTTP_CONFIRM_BASIC_SCHEME}
    ensures Http(Step(s, e))
  {
    hide Feed, Restarted, IsBlank;
  }

  lemma HttpEnd(s: Spoofer, e: Sent)
    requires Http(s)
    requires s.currentState in {SP_HTTP_EXTRACTING_CREDENTIALS, SP_HTTP_CLIENT_CONFIRMATION_CONSUME,
                                SP_HTTP_CREDENTIAL_CONFIRMATION}
    ensures Http(Step(s, e))
  {
    hide Feed, Decoded, Collected, FindColon, IsBlank, IsBase64Char, EndsValue, CredentialsFit, Stored;
  }

  /** An HTTP session never turns into a POP3 one. */
  lemma HttpKeeps(t: seq<Sent>, s: Spoofer, m: Marks, e: Sent)
    requires Inv(t, s, m)
    requires (s.currentState.SP_INIT? && e.sender.SPOOF_CLIENT?) || IsHttp(s.currentState)
    ensures Inv(t + [e], Step(s, e), m)
  {
    hide ConfirmHttp, SearchingAuth, ConfirmBasicScheme, ExtractingCredentials, ClientConfirmationConsume,
         CredentialConfirmation, Captured;
    if s.currentState.SP_INIT? {
      HttpStart(Goto(s, SP_CONFIRM_HTTP), e);
    } else if s.currentState in {SP_CONFIRM_HTTP, SP_HTTP_SEARCHING_AUTH, SP_HTTP_CONFIRM_BASIC_SCHEME} {
      HttpStart(s, e);
    } else {
      HttpEnd(s, e);
    }
  }

  /** How far a transcript is read. */
  function Taken(s: Spoofer, sent: seq<Sent>): (n: nat)
    ensures n <= |sent|
    decreases |sent|
  {
    if sent == [] || s.currentState.SP_FINISH? then 0 else 1 + Taken(Step(s, sent[0]), sent[1..])
  }

  lemma {:induction false} RunKeeps(t: seq<Sent>, s: Spoofer, m: Marks, sent: seq<Sent>) returns (m': Marks)
    requires Inv(t, s, m) && InBounds(s, sent)
    ensures Inv(t + sent[..Taken(s, sent)], Run(s, sent), m')
    decreases |sent|
  {
    hide Inv, Step, Fits;
    if sent == [] || s.currentState.SP_FINISH? {
      assert t + sent[..0] == t;
      m' := m;
    } else {
      var m1 := StepKeeps(t, s, m, sent[0]);
      m' := RunKeeps(t + [sent[0]], Step(s, sent[0]), m1, sent[1..]);
      var n := Taken(Step(s, sent[0]), sent[1..]);
      assert t + [sent[0]] + sent[1..][..n] == t + sent[..n + 1];
    }
  }

  /**
    POP3 capture is sound, for every transcript: success means that the bytes read are a greeting, a USER line
    that the server answered with a plus, later a PASS line that it answered with a plus as the very last byte,
    and that the arrays hold the arguments of the last such lines.
   */
  lemma PopCaptureIsSound(s: Spoofer, sent: seq<Sent>) returns (m: Marks)
    requires Initial(s) && InBounds(s, sent)
    ensures var r := Run(s, sent);
            r.success && r.protocol.SPOOF_POP? ==> Captured(sent[..Taken(s, sent)], m, r)
  {
    var none := Marks(0, 0, 0, 0);
    m := RunKeeps([], s, none, sent);
    assert [] + sent[..Taken(s, sent)] == sent[..Taken(s, sent)];
  }

  // ---------------------------------------------------------------- when the arrays suffice

  /** Among the 256 bytes from i on there is one of the server's or a line feed. */
  predicate Broken(t: seq<Sent>, i: nat)
    requires i + 256 <= |t|
  {
    exists j :: i <= j < i + 256 && (t[j].sender.SPOOF_SERVER? || t[j].byte == LF)
  }

  predicate ShortLines(t: seq<Sent>) { forall i :: 0 <= i && i + 256 <= |t| ==> Broken(t, i) }

  lemma LineIsUnbroken(t: seq<Sent>, i: nat, k: nat, word: seq<byte>, rest: seq<Sent>)
    requires Line(t, i, |t|, word) && i + |word| <= k && k + CREDENTIAL_ROOM == |t|
    ensures !Broken(t + rest, k)
  {
    hide Same;
    assert forall j :: 0 <= j < |t| ==> (t + rest)[j] == t[j];
  }

  lemma LineIsShort(t: seq<Sent>, i: nat, word: seq<byte>, room: seq<byte>, n: nat, rest: seq<Sent>)
    requires Line(t, i, |t|, word) && Arriving(room, n, t, i + |word|) && ShortLines(t + rest)
    ensures n < CREDENTIAL_ROOM
  {
    hide Line, Broken;
    if n >= CREDENTIAL_ROOM {
      LineIsUnbroken(t, i, |t| - CREDENTIAL_ROOM, word, rest);
    }
  }

  /** A session that the server opens is not an HTTP one. */
  predicate IsPop(s: Spoofer, e: Sent) {
    !IsHttp(s.currentState) && !s.currentState.SP_FINISH? && (s.currentState.SP_INIT? ==> e.sender.SPOOF_SERVER?)
  }

  lemma PopStays(s: Spoofer, e: Sent)
    requires IsPop(s, e)
    ensures !IsHttp(Step(s, e).currentState) && !Step(s, e).currentState.SP_INIT?
  {
    hide ConfirmPop, CheckingUser, ExtractingUser, CheckingUserResponse, CheckingPass, ExtractingPass,
         CheckingPassResponse;
  }

  lemma FitsWhenShort(t: seq<Sent>, s: Spoofer, m: Marks, e: Sent, rest: seq<Sent>)
    requires Inv(t, s, m) && !IsHttp(s.currentState) && ShortLines(t + rest)
    ensures Fits(s, e)
  {
    hide Line, Arriving, Session, HasUser, ShortLines, CredentialsFit, Captured;
    if s.currentState.SP_POP_EXTRACTING_USER? { LineIsShort(t, m.u, USER, s.username, s.credentialIter, rest); }
    if s.currentState.SP_POP_EXTRACTING_PASS? { LineIsShort(t, m.p, PASS, s.password, s.credentialIter, rest); }
  }

  /** A session that the server opens stays within the arrays if no line of the client is longer than they are. */
  lemma {:induction false} ShortLinesStayInBounds(t: seq<Sent>, s: Spoofer, m: Marks, sent: seq<Sent>)
    requires Inv(t, s, m) && !IsHttp(s.currentState)
             && (s.currentState.SP_INIT? && sent != [] ==> sent[0].sender.SPOOF_SERVER?)
    requires ShortLines(t + sent)
    ensures InBounds(s, sent)
    decreases |sent|
  {
    hide Inv, Step, Fits, ShortLines;
    if sent != [] && !s.currentState.SP_FINISH? {
      var e := sent[0];
      FitsWhenShort(t, s, m, e, sent);
      var m1 := StepKeeps(t, s, m, e);
      PopStays(s, e);
      assert t + [e] + sent[1..] == t + sent;
      ShortLinesStayInBounds(t + [e], Step(s, e), m1, sent[1..]);
    }
  }

  /** The soundness of the capture, from what a caller can see of the transcript. */
  lemma PopCaptureOfShortLines(s: Spoofer, sent: seq<Sent>) returns (m: Marks)
    requires Initial(s) && sent != [] && sent[0].sender.SPOOF_SERVER? && ShortLines(sent)
    ensures var r := Run(s, sent); r.success ==> r.protocol.SPOOF_POP? && Captured(sent[..Taken(s, sent)], m, r)
  {
    var none := Marks(0, 0, 0, 0);
    assert [] + sent == sent;
    ShortLinesStayInBounds([], s, none, sent);
    m := PopCaptureIsSound(s, sent);
    PopOnly([], s, none, sent);
  }

  lemma {:induction false} PopOnly(t: seq<Sent>, s: Spoofer, m: Marks, sent: seq<Sent>)
    requires Inv(t, s, m) && InBounds(s, sent) && !IsHttp(s.currentState)
    requires s.currentState.SP_INIT? && sent != [] ==> sent[0].sender.SPOOF_SERVER?
    requires s.success ==> s.protocol.SPOOF_POP?
    ensures Run(s, sent).success ==> Run(s, sent).protocol.SPOOF_POP?
    decreases |sent|
  {
    hide Inv, Step, Fits;
    if sent != [] && !s.currentState.SP_FINISH? {
      var m1 := StepKeeps(t, s, m, sent[0]);
      PopStays(s, sent[0]);
      PopSuccess(t, s, m, sent[0]);
      PopOnly(t + [sent[0]], Step(s, sent[0]), m1, sent[1..]);
    }
  }

  lemma PopSuccess(t: seq<Sent>, s: Spoofer, m: Marks, e: Sent)
    requires Inv(t, s, m) && !IsHttp(s.currentState) && !s.currentState.SP_FINISH?
             && (s.currentState.SP_INIT? ==> e.sender.SPOOF_SERVER?)
    requires s.success ==> s.protocol.SPOOF_POP?
    ensures Step(s, e).success ==> Step(s, e).protocol.SPOOF_POP?
  {
    hide Feed, Captured, HasUser, Line, WholeLine, Arriving, Holds, UserWord, PassWord, Says;
  }
}
