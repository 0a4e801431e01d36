/**
  The POP3 observer against a reference: on every dialogue of one line and one reply at a time it captures exactly
  the login that the dialogue contains.
 */
module SpoofingDialogue {
  import opened Buckets
  import opened StringMatcher
  import opened Spoofing

  // ---------------------------------------------------------------- the reference

  /** A line of the client, without its line feed, and the server's reply. */
  datatype Exchange = Exchange(line: seq<byte>, reply: seq<byte>)

  datatype Login = NeedUser | NeedPass(user: seq<byte>) | LoggedIn(user: seq<byte>, pass: seq<byte>)

  predicate Command(line: seq<byte>, word: seq<byte>) { |line| >= |word| && SameText(line[..|word|], word) }

  function WithoutCR(text: seq<byte>): (r: seq<byte>)
    ensures |r| <= |text|
  {
    if text == [] then [] else (if text[0] == CR then [] else [text[0]]) + WithoutCR(text[1..])
  }

  function ArgumentOf(line: seq<byte>): seq<byte> { if |line| < 5 then [] else WithoutCR(line[5..]) }

  predicate Accepted(x: Exchange) { x.reply != [] && x.reply[0] == PLUS }

  /** What an exchange means for the login. */
  function LoginStep(l: Login, x: Exchange): Login {
    match l
    case LoggedIn(_, _) => l
    case NeedUser => if Command(x.line, USER) && Accepted(x) then NeedPass(ArgumentOf(x.line)) else NeedUser
    case NeedPass(user) =>
      if Command(x.line, PASS) then (if Accepted(x) then LoggedIn(user, ArgumentOf(x.line)) else NeedUser)
      else if Command(x.line, USER) then (if Accepted(x) then NeedPass(ArgumentOf(x.line)) else NeedUser)
      else l
  }

  function LoginAll(l: Login, xs: seq<Exchange>): Login
    decreases |xs|
  {
    if xs == [] then l else LoginAll(LoginStep(l, xs[0]), xs[1..])
  }

  /** The argument that a line gives. */
  datatype Argument = UserName | PassWord

  /** A USER command, or a PASS command after an accepted name. */
  predicate Gives(l: Login, line: seq<byte>) {
    (l.NeedPass? && Command(line, PASS)) || (!l.LoggedIn? && Command(line, USER))
  }

  function Given(l: Login, line: seq<byte>): Argument {
    if l.NeedPass? && Command(line, PASS) then PassWord else UserName
  }

  /** None of the arguments given up to the login is longer than the arrays hold. */
  predicate ArgumentsFit(l: Login, xs: seq<Exchange>)
    decreases |xs|
  {
    xs == [] || l.LoggedIn?
    || ((Gives(l, xs[0].line) ==> |ArgumentOf(xs[0].line)| <= 255)
        && ArgumentsFit(LoginStep(l, xs[0]), xs[1..]))
  }

  predicate Line(bytes: seq<byte>) { forall i :: 0 <= i < |bytes| ==> IsAscii(bytes[i]) && bytes[i] != LF }

  /** An ASCII line, and a reply with a status indicator. */
  predicate ValidExchange(x: Exchange) {
    && Line(x.line) && x.reply != [] && (x.reply[0] == PLUS || x.reply[0] == MINUS)
  }

  function Transcript(xs: seq<Exchange>): seq<Sent>
    decreases |xs|
  {
    if xs == [] then []
    else From(SPOOF_CLIENT, xs[0].line + [LF]) + From(SPOOF_SERVER, xs[0].reply) + Transcript(xs[1..])
  }

  // ---------------------------------------------------------------- runs

  lemma FinishedStays(s: Spoofer, sent: seq<Sent>)
    requires s.currentState.SP_FINISH?
    ensures Leads(s, sent, s)
  {}

  /** Between two bytes of a POP3 session, nothing captured yet. */
  predicate Waiting(s: Spoofer, at: SpoofingParserState) {
    && s.currentState == at && !s.success && s.protocol.SPOOF_POP? && !s.initialized && s.credentialIter == 0
    && |s.username| == CREDENTIAL_ROOM && |s.password| == CREDENTIAL_ROOM
  }

  // ---------------------------------------------------------------- the server speaks

  predicate Consumes(s: SpoofingParserState, sender: Sender) {
    if sender.SPOOF_SERVER? then s in {SP_POP_USER_SERVER_CONSUME, SP_POP_PASS_SERVER_CONSUME}
    else s in {SP_POP_USER_CLIENT_CONSUME, SP_POP_PASS_CLIENT_CONSUME}
  }

  lemma {:induction false} ConsumesAll(s: Spoofer, sender: Sender, bytes: seq<byte>)
    requires Consumes(s.currentState, sender)
    ensures Leads(s, From(sender, bytes), s)
    decreases |bytes|
  {
    hide Leads;
    if bytes == [] {
      LeadsNothing(s);
    } else {
      ConsumesAll(s, sender, bytes[1..]);
      FromFirst(sender, bytes);
      LeadsFirst(s, From(sender, bytes), s);
    }
  }

  /** A reply: its first byte decides, and the rest is passed over. */
  lemma Reply(s: Spoofer, reply: seq<byte>) returns (r: Spoofer)
    requires reply != [] && (reply[0] == PLUS || reply[0] == MINUS)
    requires s.currentState in {SP_POP_USER_CLIENT_CONSUME, SP_POP_PASS_CLIENT_CONSUME, SP_POP_CHECKING_USER_RESPONSE,
                                SP_POP_CHECKING_PASS_RESPONSE}
    ensures Leads(s, From(SPOOF_SERVER, reply), r) && r == Step(s, Sent(SPOOF_SERVER, reply[0]))
  {
    hide Leads;
    FromFirst(SPOOF_SERVER, reply);
    r := Step(s, Sent(SPOOF_SERVER, reply[0]));
    if r.currentState.SP_FINISH? {
      FinishedStays(r, From(SPOOF_SERVER, reply[1..]));
    } else {
      ConsumesAll(r, SPOOF_SERVER, reply[1..]);
    }
    LeadsFirst(s, From(SPOOF_SERVER, reply), r);
  }

  // ---------------------------------------------------------------- the client's argument

  /** The first bytes of a line, taken one at a time. */
  lemma LeadsOnByte(s: Spoofer, rest: seq<byte>, r: Spoofer)
    requires rest != [] && !s.currentState.SP_FINISH? && Fits(s, Sent(SPOOF_CLIENT, rest[0]))
    requires Leads(Step(s, Sent(SPOOF_CLIENT, rest[0])), From(SPOOF_CLIENT, rest[1..]), r)
    ensures Leads(s, From(SPOOF_CLIENT, rest), r)
  {
    hide Step, Fits, Leads;
    FromFirst(SPOOF_CLIENT, rest);
    LeadsFirst(s, From(SPOOF_CLIENT, rest), r);
  }

  /** Where an argument is stored, the state that stores it and the one that waits for the reply. */
  function RoomOf(s: Spoofer, a: Argument): seq<byte> { if a.UserName? then s.username else s.password }

  function WithRoom(s: Spoofer, a: Argument, room: seq<byte>): Spoofer {
    if a.UserName? then s.(username := room) else s.(password := room)
  }

  function Extracting(a: Argument): SpoofingParserState {
    if a.UserName? then SP_POP_EXTRACTING_USER else SP_POP_EXTRACTING_PASS
  }

  function Answering(a: Argument): SpoofingParserState {
    if a.UserName? then SP_POP_CHECKING_USER_RESPONSE else SP_POP_CHECKING_PASS_RESPONSE
  }

  /** An argument of which the first bytes are stored. */
  predicate Storing(s: Spoofer, a: Argument, before: seq<byte>) {
    && s.currentState == Extracting(a) && |RoomOf(s, a)| == CREDENTIAL_ROOM
    && s.credentialIter == |before| <= CREDENTIAL_ROOM && RoomOf(s, a)[..|before|] == before
  }

  /** One byte of it, if there is room. */
  lemma StoresByte(s: Spoofer, a: Argument, before: seq<byte>, b: byte)
    requires Storing(s, a, before) && IsAscii(b)
    ensures var e := Sent(SPOOF_CLIENT, b); var r := Step(s, e);
            && (Fits(s, e) <==> b == CR || |before| < CREDENTIAL_ROOM)
            && (b == CR ==> r == s)
            && (Fits(s, e) && b != CR && b != LF ==>
                  Storing(r, a, before + [b])
                  && r == WithRoom(s, a, RoomOf(r, a)).(credentialIter := s.credentialIter + 1))
            && (Fits(s, e) && b == LF ==>
                  Holds(RoomOf(r, a), before) && |RoomOf(r, a)| == CREDENTIAL_ROOM
                  && r == WithRoom(s, a, RoomOf(r, a)).(credentialIter := 0, currentState := Answering(a)))
  {
    var e := Sent(SPOOF_CLIENT, b);
    if Fits(s, e) && b != CR {
      var n, stored := |before|, RoomOf(Step(s, e), a);
      assert stored == RoomOf(s, a)[n := if b == LF then 0 else b];
      assert stored[..n] == before && stored[..n + 1] == stored[..n] + [stored[n]];
    }
  }

  lemma {:induction false} ExtractsArgument(s: Spoofer, a: Argument, text: seq<byte>, before: seq<byte>)
      returns (r: Spoofer)
    requires Storing(s, a, before) && Line(text) && |before| + |WithoutCR(text)| <= MAX_CREDENTIAL_SIZE
    ensures Leads(s, From(SPOOF_CLIENT, text + [LF]), r)
    ensures r == WithRoom(s, a, RoomOf(r, a)).(credentialIter := 0, currentState := Answering(a))
    ensures |RoomOf(r, a)| == CREDENTIAL_ROOM && Holds(RoomOf(r, a), before + WithoutCR(text))
    decreases |text|
  {
    hide Leads, Step, Fits, Holds;
    var bytes := text + [LF];
    r := Step(s, Sent(SPOOF_CLIENT, bytes[0]));
    StoresByte(s, a, before, bytes[0]);
    if text == [] {
      assert bytes[1..] == [] && before + [] == before;
      LeadsNothing(r);
    } else {
      assert bytes[1..] == text[1..] + [LF];
      var more := if text[0] == CR then before else before + [text[0]];
      assert more + WithoutCR(text[1..]) == before + WithoutCR(text);
      r := ExtractsArgument(r, a, text[1..], more);
    }
    LeadsOnByte(s, bytes, r);
  }

  /** An argument that is too long is stored past its array. */
  lemma {:induction false} ArgumentOverruns(s: Spoofer, a: Argument, text: seq<byte>, before: seq<byte>)
    requires Storing(s, a, before) && Line(text) && |before| + |WithoutCR(text)| > MAX_CREDENTIAL_SIZE
    ensures !InBounds(s, From(SPOOF_CLIENT, text + [LF]))
    decreases |text|
  {
    hide Step, Fits;
    var bytes := text + [LF];
    FromFirst(SPOOF_CLIENT, bytes);
    StoresByte(s, a, before, bytes[0]);
    if text != [] && Fits(s, Sent(SPOOF_CLIENT, bytes[0])) {
      assert bytes[1..] == text[1..] + [LF];
      ArgumentOverruns(Step(s, Sent(SPOOF_CLIENT, bytes[0])), a, text[1..],
                       if text[0] == CR then before else before + [text[0]]);
    }
  }

  // ---------------------------------------------------------------- the client's command

  /** The rest of a line completes a word of which k bytes have been seen. */
  predicate Completes(rest: seq<byte>, k: nat, word: seq<byte>) {
    k <= |word| && |rest| >= |word| - k && forall j :: 0 <= j < |word| - k ==> Same(rest[j], word[k + j])
  }

  lemma CommandCompletes(line: seq<byte>, word: seq<byte>)
    ensures Command(line, word) <==> Completes(line, 0, word)
  {}

  lemma CompletesNext(rest: seq<byte>, k: nat, word: seq<byte>)
    requires rest != [] && k < |word|
    ensures Completes(rest, k, word) <==> Same(rest[0], word[k]) && Completes(rest[1..], k + 1, word)
  {
    hide Same;
    if Same(rest[0], word[k]) && Completes(rest[1..], k + 1, word) {
      forall j | 0 <= j < |word| - k
        ensures Same(rest[j], word[k + j])
      {
        if j > 0 { assert rest[1..][j - 1] == rest[j]; }
      }
    }
    if Completes(rest, k, word) {
      assert Same(rest[0], word[k + 0]);
      forall j | 0 <= j < |word| - (k + 1)
        ensures Same(rest[1..][j], word[k + 1 + j])
      {
        assert Same(rest[j + 1], word[k + (j + 1)]);
      }
    }
  }

  predicate Comparing(s: Spoofer, at: SpoofingParserState) {
    s.initialized && Waiting(s.(initialized := false), at)
  }

  lemma NoLineFeed(p: byte)
    requires p in USER || p in PASS
    ensures !Same(LF, p)
  {}

  lemma ShortDoesNotComplete(k: nat, word: seq<byte>)
    requires k < |word|
    ensures !Completes([], k, word)
  {}

  lemma AllCompleted(rest: seq<byte>, word: seq<byte>)
    ensures Completes(rest, |word|, word)
  {}

  lemma CompletesLength(rest: seq<byte>, k: nat, word: seq<byte>)
    requires Completes(rest, k, word)
    ensures k <= |word| && |rest| >= |word| - k
  {}

  /** The comparisons of a command word: USER at first, later PASS, or USER once more beside a failed PASS. */
  datatype Comparison = FirstUser | Pass | SecondUser

  function WordOf(c: Comparison): seq<byte> { if c.Pass? then PASS else USER }

  function Matched(c: Comparison): SpoofingParserState {
    if c.Pass? then SP_POP_EXTRACTING_PASS else SP_POP_EXTRACTING_USER
  }

  function Mismatched(c: Comparison): SpoofingParserState {
    if c.FirstUser? then SP_POP_USER_CLIENT_CONSUME else SP_POP_PASS_CLIENT_CONSUME
  }

  /** k bytes of the word were seen, and the other comparison, if there is one, has failed. */
  predicate Seen(s: Spoofer, c: Comparison, k: nat) {
    && Comparing(s, if c.FirstUser? then SP_POP_CHECKING_USER else SP_POP_CHECKING_PASS)
    && match c
       case FirstUser => s.primary == Matcher(USER, k)
       case Pass => s.primary == Matcher(PASS, k) && s.secondary == Matcher(USER, |USER| + 1)
       case SecondUser => s.secondary == Matcher(USER, k) && s.primary == Matcher(PASS, |PASS| + 1)
  }

  lemma WordStep(s: Spoofer, c: Comparison, k: nat, b: byte)
    requires Seen(s, c, k) && k < |WordOf(c)| && IsAscii(b)
    ensures Fits(s, Sent(SPOOF_CLIENT, b))
    ensures var s1 := Step(s, Sent(SPOOF_CLIENT, b));
            && s1.username == s.username
            && if !Same(b, WordOf(c)[k]) then Waiting(s1, Mismatched(c))
               else if k + 1 == |WordOf(c)| then Waiting(s1, Matched(c))
               else Seen(s1, c, k + 1)
  {
    hide Same;
  }

  lemma {:induction false} WordRead(s: Spoofer, c: Comparison, k: nat, rest: seq<byte>) returns (r: Spoofer)
    requires Seen(s, c, k) && k < |WordOf(c)| && Line(rest)
    ensures r.username == s.username
    ensures Completes(rest, k, WordOf(c)) ==>
              Leads(s, From(SPOOF_CLIENT, rest[..|WordOf(c)| - k]), r) && Waiting(r, Matched(c))
    ensures !Completes(rest, k, WordOf(c)) ==>
              Leads(s, From(SPOOF_CLIENT, rest + [LF]), r) && Waiting(r, Mismatched(c))
    decreases |rest|
  {
    hide Leads, Same, Completes, Step, Fits;
    var word := WordOf(c);
    var bytes := rest + [LF];
    var s1 := Step(s, Sent(SPOOF_CLIENT, bytes[0]));
    WordStep(s, c, k, bytes[0]);
    if rest == [] {
      NoLineFeed(word[k]);
      ShortDoesNotComplete(k, word);
      r := s1;
      ConsumesAll(r, SPOOF_CLIENT, bytes[1..]);
      LeadsOnByte(s, bytes, r);
    } else {
      CompletesNext(rest, k, word);
      assert bytes[1..] == rest[1..] + [LF];
      if !Same(rest[0], word[k]) {
        r := s1;
        ConsumesAll(r, SPOOF_CLIENT, bytes[1..]);
        LeadsOnByte(s, bytes, r);
      } else if k + 1 == |word| {
        AllCompleted(rest[1..], word);
        r := s1;
        assert rest[..1][1..] == [];
        LeadsNothing(r);
        LeadsOnByte(s, rest[..1], r);
      } else {
        r := WordRead(s1, c, k + 1, rest[1..]);
        if Completes(rest, k, word) {
          CompletesLength(rest, k, word);
          assert rest[..|word| - k][1..] == rest[1..][..|word| - (k + 1)];
          LeadsOnByte(s, rest[..|word| - k], r);
        } else {
          LeadsOnByte(s, bytes, r);
        }
      }
    }
  }

  /** A parser that differs from another only until the first byte. */
  lemma LeadsAlike(s: Spoofer, t: Spoofer, bytes: seq<byte>, r: Spoofer)
    requires bytes != [] && Leads(t, From(SPOOF_CLIENT, bytes), r) && !s.currentState.SP_FINISH?
             && !t.currentState.SP_FINISH?
    requires Step(s, Sent(SPOOF_CLIENT, bytes[0])) == Step(t, Sent(SPOOF_CLIENT, bytes[0]))
    requires Fits(s, Sent(SPOOF_CLIENT, bytes[0]))
    ensures Leads(s, From(SPOOF_CLIENT, bytes), r)
  {
    hide Step, Fits;
  }

  /** A word, then its argument up to the line feed. */
  lemma LeadsLine(s: Spoofer, line: seq<byte>, p: Spoofer, r: Spoofer)
    requires |line| >= 5 && Leads(s, From(SPOOF_CLIENT, line[..5]), p)
             && Leads(p, From(SPOOF_CLIENT, line[5..] + [LF]), r)
    ensures Leads(s, From(SPOOF_CLIENT, line + [LF]), r)
  {
    hide Leads;
    FromAppend(SPOOF_CLIENT, line[..5], line[5..] + [LF]);
    assert line[..5] + (line[5..] + [LF]) == line + [LF];
    LeadsThrough(s, From(SPOOF_CLIENT, line[..5]), p, From(SPOOF_CLIENT, line[5..] + [LF]), r);
  }

  /** What a line is read as while a USER command is awaited: the word of a command, or the whole line. */
  lemma UserTurn(s: Spoofer, line: seq<byte>) returns (p: Spoofer)
    requires Waiting(s, SP_POP_USER_SERVER_CONSUME) && Line(line)
    ensures if Command(line, USER) then Leads(s, From(SPOOF_CLIENT, line[..5]), p) && Waiting(p, SP_POP_EXTRACTING_USER)
            else Leads(s, From(SPOOF_CLIENT, line + [LF]), p) && Waiting(p, SP_POP_USER_CLIENT_CONSUME)
  {
    hide Leads, Completes, Command;
    var t := Armed1(Goto(s, SP_POP_CHECKING_USER), USER);
    CommandCompletes(line, USER);
    p := WordRead(t, FirstUser, 0, line);
    if Command(line, USER) { CompletesLength(line, 0, USER); }
    StepsAlike(s, t, Sent(SPOOF_CLIENT, (line + [LF])[0]));
    LeadsAlike(s, t, if Command(line, USER) then line[..5] else line + [LF], p);
  }

  lemma StepsAlike(s: Spoofer, t: Spoofer, e: Sent)
    requires e.sender.SPOOF_CLIENT? && IsAscii(e.byte) && !s.initialized
    requires
      || (s.currentState.SP_POP_USER_SERVER_CONSUME? && t == Armed1(Goto(s, SP_POP_CHECKING_USER), USER))
      || (s.currentState.SP_POP_PASS_SERVER_CONSUME? && t == Armed2(Goto(s, SP_POP_CHECKING_PASS), PASS, USER))
    ensures Step(s, e) == Step(t, e) && Fits(s, e)
  {
    hide Feed;
  }

  /** The commands that may come after an accepted user name differ in their first letter. */
  lemma FirstLetters(b: byte)
    ensures !(Same(b, PASS[0]) && Same(b, USER[0])) && !Same(LF, PASS[0]) && !Same(LF, USER[0])
  {}

  /** What the first byte of a line leaves of the two comparisons. */
  lemma FirstByte(t: Spoofer, b: byte)
    requires Comparing(t, SP_POP_CHECKING_PASS) && t.primary == Start(PASS) && t.secondary == Start(USER) && IsAscii(b)
    ensures var s1 := Step(t, Sent(SPOOF_CLIENT, b));
            && s1.username == t.username && Fits(t, Sent(SPOOF_CLIENT, b))
            && (Same(b, PASS[0]) ==>
                Comparing(s1, SP_POP_CHECKING_PASS) && s1.primary == Matcher(PASS, 1)
                && s1.secondary == Matcher(USER, 6))
            && (Same(b, USER[0]) ==>
                Comparing(s1, SP_POP_CHECKING_PASS) && s1.secondary == Matcher(USER, 1)
                && s1.primary == Matcher(PASS, 6))
            && (!Same(b, PASS[0]) && !Same(b, USER[0]) ==> Waiting(s1, SP_POP_PASS_CLIENT_CONSUME))
  {
    FirstLetters(b);
    hide Same;
  }

  lemma CommandFirst(line: seq<byte>, word: seq<byte>)
    requires line != [] && word != []
    ensures Command(line, word) <==> Same(line[0], word[0]) && Completes(line[1..], 1, word)
  {
    hide Completes, Command;
    CommandCompletes(line, word);
    CompletesNext(line, 0, word);
  }

  /** The word of a line from its second byte on, or all of the line. */
  lemma AfterFirstByte(t: Spoofer, line: seq<byte>, s1: Spoofer, word: seq<byte>, p: Spoofer)
    requires line != [] && |word| == 5 && s1 == Step(t, Sent(SPOOF_CLIENT, line[0])) && !t.currentState.SP_FINISH?
             && Fits(t, Sent(SPOOF_CLIENT, line[0]))
    requires Completes(line[1..], 1, word) ==> Leads(s1, From(SPOOF_CLIENT, line[1..][..4]), p)
    requires !Completes(line[1..], 1, word) ==> Leads(s1, From(SPOOF_CLIENT, line[1..] + [LF]), p)
    ensures if Completes(line[1..], 1, word) then |line| >= 5 && Leads(t, From(SPOOF_CLIENT, line[..5]), p)
            else Leads(t, From(SPOOF_CLIENT, line + [LF]), p)
  {
    hide Leads, Step, Fits, Completes;
    if Completes(line[1..], 1, word) {
      CompletesLength(line[1..], 1, word);
      assert line[..5][1..] == line[1..][..4];
      LeadsOnByte(t, line[..5], p);
    } else {
      assert (line + [LF])[1..] == line[1..] + [LF];
      LeadsOnByte(t, line + [LF], p);
    }
  }

  /** The same while a PASS command is awaited; both words are compared. */
  lemma PassTurn(s: Spoofer, line: seq<byte>) returns (p: Spoofer)
    requires Waiting(s, SP_POP_PASS_SERVER_CONSUME) && Line(line)
    ensures p.username == s.username
    ensures if Command(line, PASS) then Leads(s, From(SPOOF_CLIENT, line[..5]), p) && Waiting(p, SP_POP_EXTRACTING_PASS)
            else if Command(line, USER) then
              Leads(s, From(SPOOF_CLIENT, line[..5]), p) && Waiting(p, SP_POP_EXTRACTING_USER)
            else Leads(s, From(SPOOF_CLIENT, line + [LF]), p) && Waiting(p, SP_POP_PASS_CLIENT_CONSUME)
  {
    hide Leads, Completes, Command, Same, Step, Fits;
    var t := Armed2(Goto(s, SP_POP_CHECKING_PASS), PASS, USER);
    var bytes := line + [LF];
    FirstByte(t, bytes[0]);
    FirstLetters(bytes[0]);
    var s1 := Step(t, Sent(SPOOF_CLIENT, bytes[0]));
    if line == [] {
      EmptyIsNoCommand();
      p := s1;
      ConsumesAll(p, SPOOF_CLIENT, bytes[1..]);
      LeadsOnByte(t, bytes, p);
    } else {
      assert bytes[1..] == line[1..] + [LF];
      CommandFirst(line, PASS);
      CommandFirst(line, USER);
      if Same(line[0], PASS[0]) {
        p := WordRead(s1, Pass, 1, line[1..]);
        AfterFirstByte(t, line, s1, PASS, p);
      } else if Same(line[0], USER[0]) {
        p := WordRead(s1, SecondUser, 1, line[1..]);
        AfterFirstByte(t, line, s1, USER, p);
      } else {
        p := s1;
        ConsumesAll(p, SPOOF_CLIENT, bytes[1..]);
        LeadsOnByte(t, bytes, p);
      }
    }
    StepsAlike(s, t, Sent(SPOOF_CLIENT, bytes[0]));
    LeadsAlike(s, t, if Command(line, PASS) || Command(line, USER) then line[..5] else bytes, p);
  }

  lemma EmptyIsNoCommand()
    ensures !Command([], PASS) && !Command([], USER)
  {}

  // ---------------------------------------------------------------- the dialogue

  /** The observer's state says what the reference says. */
  predicate Agrees(l: Login, s: Spoofer) {
    match l
    case NeedUser => Waiting(s, SP_POP_USER_SERVER_CONSUME)
    case NeedPass(user) => Waiting(s, SP_POP_PASS_SERVER_CONSUME) && Holds(s.username, user)
    case LoggedIn(user, pass) =>
      s.currentState.SP_FINISH? && s.success && s.protocol.SPOOF_POP? && Holds(s.username, user)
      && Holds(s.password, pass)
  }

  lemma ReplyStep(s: Spoofer, b: byte)
    requires b == PLUS || b == MINUS
    requires Waiting(s, s.currentState)
    ensures var r := Step(s, Sent(SPOOF_SERVER, b));
            && (s.currentState.SP_POP_USER_CLIENT_CONSUME? ==> r == Goto(s, SP_POP_USER_SERVER_CONSUME))
            && (s.currentState.SP_POP_PASS_CLIENT_CONSUME? ==> r == Goto(s, SP_POP_PASS_SERVER_CONSUME))
            && (s.currentState.SP_POP_CHECKING_USER_RESPONSE? ==>
                  r == Goto(s, if b == PLUS then SP_POP_PASS_SERVER_CONSUME else SP_POP_USER_SERVER_CONSUME))
            && (s.currentState.SP_POP_CHECKING_PASS_RESPONSE? ==>
                  r == if b == PLUS then Stop(s.(success := true)) else Goto(s, SP_POP_USER_SERVER_CONSUME))
  {}

  /** A line up to its argument, or the whole line if it gives none. */
  lemma CommandTurn(l: Login, s: Spoofer, line: seq<byte>) returns (p: Spoofer)
    requires Agrees(l, s) && !l.LoggedIn? && Line(line)
    ensures l.NeedPass? ==> p.username == s.username
    ensures if Gives(l, line) then
              |line| >= 5 && Leads(s, From(SPOOF_CLIENT, line[..5]), p) && Waiting(p, Extracting(Given(l, line)))
            else
              Leads(s, From(SPOOF_CLIENT, line + [LF]), p)
              && Waiting(p, if l.NeedUser? then SP_POP_USER_CLIENT_CONSUME else SP_POP_PASS_CLIENT_CONSUME)
  {
    hide Leads, Holds, SameText;
    if l.NeedUser? { p := UserTurn(s, line); } else { p := PassTurn(s, line); }
  }

  lemma StartsStoring(p: Spoofer, a: Argument)
    requires Waiting(p, Extracting(a))
    ensures Storing(p, a, [])
  {}

  /** A line whose argument fits. */
  lemma LineTurn(l: Login, s: Spoofer, line: seq<byte>) returns (r: Spoofer)
    requires Agrees(l, s) && !l.LoggedIn? && Line(line)
    requires Gives(l, line) ==> |ArgumentOf(line)| <= MAX_CREDENTIAL_SIZE
    ensures Leads(s, From(SPOOF_CLIENT, line + [LF]), r)
    ensures if Gives(l, line) then
              var a := Given(l, line);
              && Waiting(r, Answering(a)) && Holds(RoomOf(r, a), ArgumentOf(line))
              && (a.PassWord? ==> r.username == s.username)
            else
              && Waiting(r, if l.NeedUser? then SP_POP_USER_CLIENT_CONSUME else SP_POP_PASS_CLIENT_CONSUME)
              && (l.NeedPass? ==> r.username == s.username)
  {
    hide Leads, Command, Holds, Agrees, WithoutCR;
    var p := CommandTurn(l, s, line);
    r := p;
    if Gives(l, line) {
      var a := Given(l, line);
      StartsStoring(p, a);
      assert [] + WithoutCR(line[5..]) == ArgumentOf(line);
      r := ExtractsArgument(p, a, line[5..], []);
      LeadsLine(s, line, p, r);
    }
  }

  /** A line whose argument does not. */
  lemma LineOverruns(l: Login, s: Spoofer, line: seq<byte>)
    requires Agrees(l, s) && Line(line) && Gives(l, line) && |ArgumentOf(line)| > MAX_CREDENTIAL_SIZE
    ensures !InBounds(s, From(SPOOF_CLIENT, line + [LF]))
  {
    hide Command, Agrees, WithoutCR, InBounds, Run;
    var p := CommandTurn(l, s, line);
    StartsStoring(p, Given(l, line));
    assert ArgumentOf(line) == WithoutCR(line[5..]);
    ArgumentOverruns(p, Given(l, line), line[5..], []);
    FromAppend(SPOOF_CLIENT, line[..5], line[5..] + [LF]);
    assert line[..5] + (line[5..] + [LF]) == line + [LF];
    RunSplit(s, From(SPOOF_CLIENT, line[..5]), From(SPOOF_CLIENT, line[5..] + [LF]));
  }

  /** One exchange moves both alike. */
  lemma ExchangeAgrees(l: Login, s: Spoofer, x: Exchange) returns (r: Spoofer)
    requires Agrees(l, s) && !l.LoggedIn? && ValidExchange(x)
    requires Gives(l, x.line) ==> |ArgumentOf(x.line)| <= MAX_CREDENTIAL_SIZE
    ensures Leads(s, From(SPOOF_CLIENT, x.line + [LF]) + From(SPOOF_SERVER, x.reply), r) && Agrees(LoginStep(l, x), r)
  {
    hide Leads, Command, Holds, Step, ArgumentOf;
    var p := LineTurn(l, s, x.line);
    r := Reply(p, x.reply);
    ReplyStep(p, x.reply[0]);
    LeadsThrough(s, From(SPOOF_CLIENT, x.line + [LF]), p, From(SPOOF_SERVER, x.reply), r);
  }

  lemma {:induction false} DialogueAgrees(l: Login, s: Spoofer, xs: seq<Exchange>) returns (r: Spoofer)
    requires Agrees(l, s) && (forall i :: 0 <= i < |xs| ==> ValidExchange(xs[i])) && ArgumentsFit(l, xs)
    ensures Leads(s, Transcript(xs), r) && Agrees(LoginAll(l, xs), r)
    decreases |xs|
  {
    hide Leads, LoginStep, ValidExchange, Holds, Gives;
    r := s;
    if l.LoggedIn? {
      FinishedStays(s, Transcript(xs));
      LoggedInStays(l, xs);
    } else if xs == [] {
      LeadsNothing(s);
    } else {
      var p := ExchangeAgrees(l, s, xs[0]);
      r := DialogueAgrees(LoginStep(l, xs[0]), p, xs[1..]);
      LeadsThrough(s, From(SPOOF_CLIENT, xs[0].line + [LF]) + From(SPOOF_SERVER, xs[0].reply), p, Transcript(xs[1..]),
                   r);
    }
  }

  lemma {:induction false} DialogueOverruns(l: Login, s: Spoofer, xs: seq<Exchange>)
    requires Agrees(l, s) && (forall i :: 0 <= i < |xs| ==> ValidExchange(xs[i])) && !ArgumentsFit(l, xs)
    ensures !InBounds(s, Transcript(xs))
    decreases |xs|
  {
    hide Agrees, LoginStep, Gives, InBounds, Run;
    var asked, answer := From(SPOOF_CLIENT, xs[0].line + [LF]), From(SPOOF_SERVER, xs[0].reply);
    var rest := Transcript(xs[1..]);
    RunSplit(s, asked + answer, rest);
    if Gives(l, xs[0].line) && |ArgumentOf(xs[0].line)| > MAX_CREDENTIAL_SIZE {
      LineOverruns(l, s, xs[0].line);
      RunSplit(s, asked, answer);
    } else {
      var p := ExchangeAgrees(l, s, xs[0]);
      DialogueOverruns(LoginStep(l, xs[0]), p, xs[1..]);
    }
  }

  lemma {:induction false} LoggedInStays(l: Login, xs: seq<Exchange>)
    requires l.LoggedIn?
    ensures LoginAll(l, xs) == l
    decreases |xs|
  {
    if xs != [] { LoggedInStays(l, xs[1..]); }
  }

  lemma GreetingByte(s: Spoofer, k: nat, b: byte)
    requires k < 3 && Same(b, PLUS_OK[k]) && s.credentialIter == 0 && !s.success
    requires |s.username| == CREDENTIAL_ROOM && |s.password| == CREDENTIAL_ROOM
    requires if k == 0 then s.currentState.SP_INIT? && !s.initialized
             else s.currentState.SP_CONFIRM_POP? && s.initialized && s.primary == Matcher(PLUS_OK, k)
    ensures var r := Step(s, Sent(SPOOF_SERVER, b));
            Fits(s, Sent(SPOOF_SERVER, b))
            && if k == 2 then Waiting(r, SP_POP_USER_SERVER_CONSUME)
               else r.currentState.SP_CONFIRM_POP? && r.initialized && r.primary == Matcher(PLUS_OK, k + 1)
                    && r.credentialIter == 0 && !r.success && |r.username| == CREDENTIAL_ROOM
                    && |r.password| == CREDENTIAL_ROOM
  {}

  lemma Greeting(s: Spoofer, greeting: seq<byte>) returns (r: Spoofer)
    requires Initial(s) && |greeting| >= 3 && SameText(greeting[..3], PLUS_OK)
    ensures Leads(s, From(SPOOF_SERVER, greeting), r) && Waiting(r, SP_POP_USER_SERVER_CONSUME)
  {
    hide Leads, Same, Step, Fits;
    assert forall k :: 0 <= k < 3 ==> greeting[..3][k] == greeting[k];
    var all, two, one := greeting, greeting[1..], greeting[2..];
    GreetingByte(s, 0, greeting[0]);
    var s1 := Step(s, Sent(SPOOF_SERVER, greeting[0]));
    GreetingByte(s1, 1, greeting[1]);
    var s2 := Step(s1, Sent(SPOOF_SERVER, greeting[1]));
    GreetingByte(s2, 2, greeting[2]);
    r := Step(s2, Sent(SPOOF_SERVER, greeting[2]));
    ConsumesAll(r, SPOOF_SERVER, greeting[3..]);
    FromFirst(SPOOF_SERVER, one);
    assert one[1..] == greeting[3..];
    LeadsFirst(s2, From(SPOOF_SERVER, one), r);
    FromFirst(SPOOF_SERVER, two);
    assert two[1..] == one;
    LeadsFirst(s1, From(SPOOF_SERVER, two), r);
    FromFirst(SPOOF_SERVER, all);
    LeadsFirst(s, From(SPOOF_SERVER, all), r);
  }

  /**
    The observer refines the reference: whatever the dialogue of a POP3 session without pipelining, with any number
    of other commands, refused names and failed attempts, the credential arrays suffice if and only if no argument
    given before the login is longer than they are; and then a login is captured if and only if the dialogue
    contains one, and it is the first, with its name and password.
   */
  lemma CapturesExactlyTheLogin(s: Spoofer, greeting: seq<byte>, xs: seq<Exchange>)
    requires Initial(s) && |greeting| >= 3 && SameText(greeting[..3], PLUS_OK)
    requires forall i :: 0 <= i < |xs| ==> ValidExchange(xs[i])
    ensures InBounds(s, From(SPOOF_SERVER, greeting) + Transcript(xs)) <==> ArgumentsFit(NeedUser, xs)
    ensures var r := Run(s, From(SPOOF_SERVER, greeting) + Transcript(xs)); var l := LoginAll(NeedUser, xs);
            ArgumentsFit(NeedUser, xs) ==>
              && (r.success <==> l.LoggedIn?)
              && (l.LoggedIn? ==> r.protocol.SPOOF_POP? && Holds(r.username, l.user) && Holds(r.password, l.pass))
  {
    hide Holds, ValidExchange, Run, InBounds;
    var p := Greeting(s, greeting);
    if ArgumentsFit(NeedUser, xs) {
      var r := DialogueAgrees(NeedUser, p, xs);
      LeadsThrough(s, From(SPOOF_SERVER, greeting), p, Transcript(xs), r);
    } else {
      DialogueOverruns(NeedUser, p, xs);
      RunSplit(s, From(SPOOF_SERVER, greeting), Transcript(xs));
    }
  }
}
