/**
  The credential observer: an automaton over the interleaved bytes of a client and a server.
 */
module Spoofing {
  import opened Buckets
  import opened StringMatcher
  import Base64
  import ByteParsers

  datatype SpoofingParserState =
    | SP_INIT
    | SP_CONFIRM_HTTP | SP_HTTP_SEARCHING_AUTH | SP_HTTP_CONFIRM_BASIC_SCHEME | SP_HTTP_EXTRACTING_CREDENTIALS
    | SP_HTTP_CLIENT_CONFIRMATION_CONSUME | SP_HTTP_CREDENTIAL_CONFIRMATION
    | SP_CONFIRM_POP
    | SP_POP_USER_SERVER_CONSUME | SP_POP_USER_CLIENT_CONSUME | SP_POP_CHECKING_USER | SP_POP_EXTRACTING_USER
    | SP_POP_CHECKING_USER_RESPONSE
    | SP_POP_PASS_SERVER_CONSUME | SP_POP_PASS_CLIENT_CONSUME | SP_POP_CHECKING_PASS | SP_POP_EXTRACTING_PASS
    | SP_POP_CHECKING_PASS_RESPONSE
    | SP_FINISH

  datatype Sender = SPOOF_CLIENT | SPOOF_SERVER

  datatype Protocol = SPOOF_POP | SPOOF_HTTP

  /** A byte and who sent it. */
  datatype Sent = Sent(sender: Sender, byte: byte)

  const MAX_CREDENTIAL_SIZE: nat := 255
  const CREDENTIAL_ROOM: nat := MAX_CREDENTIAL_SIZE + 1
  const BASE64_ROOM: nat := Base64.EncodeSize(2 * CREDENTIAL_ROOM)

  /** The parser; the three arrays are whole, with whatever lies behind their terminators. */
  datatype Spoofer = Spoofer(
    currentState: SpoofingParserState, success: bool, protocol: Protocol,
    username: seq<byte>, password: seq<byte>, base64Credentials: seq<byte>,
    initialized: bool, primary: Matcher, secondary: Matcher,
    credentialIter: nat, ignoreSpaces: bool)

  const CR: byte := 13
  const LF: byte := 10
  const TAB: byte := 9
  const SPACE: byte := 32
  const PLUS: byte := 43
  const MINUS: byte := 45
  const COLON: byte := 58

  const PLUS_OK: seq<byte> := [43, 79, 75]
  const USER: seq<byte> := [85, 83, 69, 82, 32]
  const PASS: seq<byte> := [80, 65, 83, 83, 32]
  const HTTP_1: seq<byte> := [72, 84, 84, 80, 47, 49, 46]
  /** "Authorization: " */
  const AUTHORIZATION: seq<byte> := [65, 117, 116, 104, 111, 114, 105, 122, 97, 116, 105, 111, 110, 58, 32]
  const BASIC: seq<byte> := [66, 97, 115, 105, 99, 32]
  /** "HTTP/1.1 2" and "HTTP/1.0 2" */
  const HTTP_11_2: seq<byte> := [72, 84, 84, 80, 47, 49, 46, 49, 32, 50]
  const HTTP_10_2: seq<byte> := [72, 84, 84, 80, 47, 49, 46, 48, 32, 50]

  predicate IsAscii(b: byte) { b < 128 }

  predicate IsBlank(b: byte) { b == SPACE || b == TAB }

  predicate IsBase64Char(b: byte) {
    48 <= b <= 57 || 65 <= b <= 90 || 97 <= b <= 122 || b == 43 || b == 47 || b == 61
  }

  /** The words that the observer compares with, ignoring case. */
  lemma WordsRead(xs: seq<byte>)
    ensures SameText(xs, PLUS_OK) <==> EqualIgnoringCase(xs, Base64.Ascii("+OK"))
    ensures SameText(xs, USER) <==> EqualIgnoringCase(xs, Base64.Ascii("USER "))
    ensures SameText(xs, PASS) <==> EqualIgnoringCase(xs, Base64.Ascii("PASS "))
    ensures SameText(xs, HTTP_1) <==> EqualIgnoringCase(xs, Base64.Ascii("HTTP/1."))
    ensures SameText(xs, AUTHORIZATION) <==> EqualIgnoringCase(xs, Base64.Ascii("Authorization: "))
    ensures SameText(xs, BASIC) <==> EqualIgnoringCase(xs, Base64.Ascii("Basic "))
    ensures SameText(xs, HTTP_11_2) <==> EqualIgnoringCase(xs, Base64.Ascii("HTTP/1.1 2"))
    ensures SameText(xs, HTTP_10_2) <==> EqualIgnoringCase(xs, Base64.Ascii("HTTP/1.0 2"))
    ensures SameText(xs, CRLFCRLF) <==> EqualIgnoringCase(xs, Base64.Ascii("\r\n\r\n"))
  {
    hide SameText, EqualIgnoringCase;
    WordsAre();
    SameTextIgnoresCase(xs, PLUS_OK);
    SameTextIgnoresCase(xs, USER);
    SameTextIgnoresCase(xs, PASS);
    SameTextIgnoresCase(xs, HTTP_1);
    SameTextIgnoresCase(xs, AUTHORIZATION);
    SameTextIgnoresCase(xs, BASIC);
    SameTextIgnoresCase(xs, HTTP_11_2);
    SameTextIgnoresCase(xs, HTTP_10_2);
    SameTextIgnoresCase(xs, CRLFCRLF);
  }

  lemma WordsAre()
    ensures PLUS_OK == Base64.Ascii("+OK") && USER == Base64.Ascii("USER ") && PASS == Base64.Ascii("PASS ")
    ensures HTTP_1 == Base64.Ascii("HTTP/1.") && AUTHORIZATION == Base64.Ascii("Authorization: ")
    ensures BASIC == Base64.Ascii("Basic ") && CRLFCRLF == Base64.Ascii("\r\n\r\n")
    ensures HTTP_11_2 == Base64.Ascii("HTTP/1.1 2") && HTTP_10_2 == Base64.Ascii("HTTP/1.0 2")
  {}

  /** The single bytes that it looks for. */
  lemma BytesRead(b: byte)
    ensures IsAscii(b) <==> b <= 127
    ensures IsBlank(b) <==> b as char in " \t"
    ensures EndsValue(b) <==> b as char in " \t\r\n"
    ensures IsBase64Char(b) <==>
              'A' as int <= b <= 'Z' as int || 'a' as int <= b <= 'z' as int || '0' as int <= b <= '9' as int
              || b as char in "+/="
    ensures (b == CR <==> b as char == '\r') && (b == LF <==> b as char == '\n') && (b == COLON <==> b as char == ':')
    ensures (b == PLUS <==> b as char == '+') && (b == MINUS <==> b as char == '-')
  {}

  function Stop(s: Spoofer): Spoofer { s.(currentState := SP_FINISH) }

  function Goto(s: Spoofer, t: SpoofingParserState): Spoofer { s.(currentState := t) }

  /** The comparison is over: the string parsers are set up afresh the next time. */
  function Compared(s: Spoofer, t: SpoofingParserState): Spoofer { s.(initialized := false, currentState := t) }

  /** spoofing_parser_init_string_parsers, unless done already; one pattern leaves the second parser alone. */
  function Armed1(s: Spoofer, pattern: seq<byte>): Spoofer {
    if s.initialized then s else s.(initialized := true, primary := Start(pattern))
  }

  function Armed2(s: Spoofer, first: seq<byte>, second: seq<byte>): Spoofer {
    if s.initialized then s else s.(initialized := true, primary := Start(first), secondary := Start(second))
  }

  /** Both string parsers take the byte; their events are those of Feed before it. */
  function Fed1(s: Spoofer, b: byte): Spoofer { s.(primary := Feed(s.primary, b).0) }

  function Fed2(s: Spoofer, b: byte): Spoofer {
    s.(primary := Feed(s.primary, b).0, secondary := Feed(s.secondary, b).0)
  }

  // ---------------------------------------------------------------- POP3

  function ConfirmPop(s: Spoofer, e: Sent): (r: Spoofer)
    ensures r.currentState in {SP_FINISH, s.currentState, SP_POP_USER_SERVER_CONSUME}
  {
    if e.sender.SPOOF_CLIENT? || !IsAscii(e.byte) then Stop(s)
    else
      var t := Armed1(s, PLUS_OK);
      var u := Fed1(t, e.byte);
      match Feed(t.primary, e.byte).1
      case STRING_CMP_EQ => Compared(u.(protocol := SPOOF_POP), SP_POP_USER_SERVER_CONSUME)
      case STRING_CMP_NEQ => Stop(u)
      case STRING_CMP_MAYEQ => u
  }

  function CheckingUser(s: Spoofer, e: Sent): (r: Spoofer)
    ensures r.currentState in {SP_FINISH, s.currentState, SP_POP_USER_SERVER_CONSUME, SP_POP_EXTRACTING_USER,
                               SP_POP_USER_CLIENT_CONSUME}
  {
    if !IsAscii(e.byte) then Stop(s)
    else if e.sender.SPOOF_SERVER? then Compared(s, SP_POP_USER_SERVER_CONSUME)
    else
      var t := Armed1(s, USER);
      var u := Fed1(t, e.byte);
      match Feed(t.primary, e.byte).1
      case STRING_CMP_EQ => Compared(u, SP_POP_EXTRACTING_USER)
      case STRING_CMP_NEQ => Compared(u, SP_POP_USER_CLIENT_CONSUME)
      case STRING_CMP_MAYEQ => u
  }

  function UserServerConsume(s: Spoofer, e: Sent): Spoofer {
    if e.sender.SPOOF_SERVER? then s else CheckingUser(Goto(s, SP_POP_CHECKING_USER), e)
  }

  function UserClientConsume(s: Spoofer, e: Sent): Spoofer {
    if e.sender.SPOOF_CLIENT? then s else UserServerConsume(Goto(s, SP_POP_USER_SERVER_CONSUME), e)
  }

  function ExtractingUser(s: Spoofer, e: Sent): (r: Spoofer)
    ensures r.currentState in {SP_FINISH, s.currentState, SP_POP_CHECKING_USER_RESPONSE}
  {
    if e.sender.SPOOF_SERVER? || !IsAscii(e.byte) then Stop(s)
    else if e.byte == CR then s
    else if e.byte == LF then
      s.(username := ByteParsers.Put(s.username, s.credentialIter, 0), credentialIter := 0,
         currentState := SP_POP_CHECKING_USER_RESPONSE)
    else
      s.(username := ByteParsers.Put(s.username, s.credentialIter, e.byte), credentialIter := s.credentialIter + 1)
  }

  function CheckingUserResponse(s: Spoofer, e: Sent): (r: Spoofer)
    ensures r.currentState in {SP_FINISH, SP_POP_PASS_SERVER_CONSUME, SP_POP_USER_SERVER_CONSUME}
  {
    if e.sender.SPOOF_CLIENT? || !IsAscii(e.byte) then Stop(s)
    else if e.byte == PLUS then Goto(s, SP_POP_PASS_SERVER_CONSUME)
    else if e.byte == MINUS then Goto(s, SP_POP_USER_SERVER_CONSUME)
    else Stop(s)
  }

  function CheckingPass(s: Spoofer, e: Sent): (r: Spoofer)
    ensures r.currentState in {SP_FINISH, s.currentState, SP_POP_PASS_SERVER_CONSUME, SP_POP_EXTRACTING_PASS,
                               SP_POP_EXTRACTING_USER, SP_POP_PASS_CLIENT_CONSUME}
  {
    if !IsAscii(e.byte) then Stop(s)
    else if e.sender.SPOOF_SERVER? then Compared(s, SP_POP_PASS_SERVER_CONSUME)
    else
      var t := Armed2(s, PASS, USER);
      var u := Fed2(t, e.byte);
      var passEvent, userEvent := Feed(t.primary, e.byte).1, Feed(t.secondary, e.byte).1;
      if passEvent.STRING_CMP_EQ? then Compared(u, SP_POP_EXTRACTING_PASS)
      else if userEvent.STRING_CMP_EQ? then Compared(u, SP_POP_EXTRACTING_USER)
      else if passEvent.STRING_CMP_NEQ? && userEvent.STRING_CMP_NEQ? then Compared(u, SP_POP_PASS_CLIENT_CONSUME)
      else u
  }

  function PassServerConsume(s: Spoofer, e: Sent): Spoofer {
    if e.sender.SPOOF_SERVER? then s else CheckingPass(Goto(s, SP_POP_CHECKING_PASS), e)
  }

  function PassClientConsume(s: Spoofer, e: Sent): Spoofer {
    if e.sender.SPOOF_CLIENT? then s else PassServerConsume(Goto(s, SP_POP_PASS_SERVER_CONSUME), e)
  }

  function ExtractingPass(s: Spoofer, e: Sent): (r: Spoofer)
    ensures r.currentState in {SP_FINISH, s.currentState, SP_POP_CHECKING_PASS_RESPONSE}
  {
    if e.sender.SPOOF_SERVER? || !IsAscii(e.byte) then Stop(s)
    else if e.byte == CR then s
    else if e.byte == LF then
      s.(password := ByteParsers.Put(s.password, s.credentialIter, 0), credentialIter := 0,
         currentState := SP_POP_CHECKING_PASS_RESPONSE)
    else
      s.(password := ByteParsers.Put(s.password, s.credentialIter, e.byte), credentialIter := s.credentialIter + 1)
  }

  function CheckingPassResponse(s: Spoofer, e: Sent): (r: Spoofer)
    ensures r.currentState in {SP_FINISH, SP_POP_USER_SERVER_CONSUME}
  {
    if e.sender.SPOOF_CLIENT? || !IsAscii(e.byte) then Stop(s)
    else if e.byte == PLUS then Stop(s.(success := true))
    else if e.byte == MINUS then Goto(s, SP_POP_USER_SERVER_CONSUME)
    else Stop(s)
  }

  // ---------------------------------------------------------------- HTTP

  /** A comparison that failed starts again from the next byte. */
  function Restarted(m: Matcher, b: byte): Matcher {
    if Feed(m, b).1.STRING_CMP_NEQ? then Start(m.pattern) else Feed(m, b).0
  }

  function ConfirmHttp(s: Spoofer, e: Sent): Spoofer {
    if e.sender.SPOOF_SERVER? || !IsAscii(e.byte) then Stop(s)
    else
      var t := Armed1(s, HTTP_1);
      if e.byte == LF then Stop(t)
      else if Feed(t.primary, e.byte).1.STRING_CMP_EQ? then
        Compared(Fed1(t, e.byte).(protocol := SPOOF_HTTP), SP_HTTP_SEARCHING_AUTH)
      else t.(primary := Restarted(t.primary, e.byte))
  }

  function SearchingAuth(s: Spoofer, e: Sent): Spoofer {
    if e.sender.SPOOF_SERVER? || !IsAscii(e.byte) then Stop(s)
    else
      var t := Armed2(s, AUTHORIZATION, CRLFCRLF);
      if Feed(t.primary, e.byte).1.STRING_CMP_EQ? then
        Compared(Fed2(t, e.byte).(ignoreSpaces := true), SP_HTTP_CONFIRM_BASIC_SCHEME)
      else if Feed(t.secondary, e.byte).1.STRING_CMP_EQ? then Stop(Fed2(t, e.byte))
      else t.(primary := Restarted(t.primary, e.byte), secondary := Restarted(t.secondary, e.byte))
  }

  /** A byte of the scheme, past the leading blanks. */
  function SchemeByte(s: Spoofer, b: byte): Spoofer {
    var t := Armed1(s, BASIC);
    var u := Fed1(t, b);
    match Feed(t.primary, b).1
    case STRING_CMP_EQ => Compared(u.(ignoreSpaces := true), SP_HTTP_EXTRACTING_CREDENTIALS)
    case STRING_CMP_NEQ => Stop(u)
    case STRING_CMP_MAYEQ => u
  }

  function ConfirmBasicScheme(s: Spoofer, e: Sent): Spoofer {
    if e.sender.SPOOF_SERVER? || !IsAscii(e.byte) then Stop(s)
    else if s.ignoreSpaces && IsBlank(e.byte) then s
    else SchemeByte(s.(ignoreSpaces := false), e.byte)
  }

  /** The first colon, or the length. */
  function FindColon(text: seq<byte>): (i: nat)
    ensures i <= |text| && (i < |text| ==> text[i] == COLON)
    ensures forall k :: 0 <= k < i ==> text[k] != COLON
    decreases |text|
  {
    if text == [] || text[0] == COLON then 0 else 1 + FindColon(text[1..])
  }

  /** A string at the start of an array, with its terminator. */
  function Stored(room: seq<byte>, text: seq<byte>): (r: seq<byte>)
    requires |text| < |room|
    ensures |r| == |room|
  {
    text + [0] + room[|text| + 1..]
  }

  /** The base64 text collected so far, terminated. */
  function Collected(s: Spoofer): seq<byte> { ByteParsers.Put(s.base64Credentials, s.credentialIter, 0) }

  function Decoded(s: Spoofer): seq<byte> { Base64.Decode(Base64.Text(Collected(s))) }

  /** What the arrays must hold for the header value to be decoded and split within them. */
  predicate CredentialsFit(s: Spoofer) {
    var d := Decoded(s);
    && s.credentialIter < |s.base64Credentials| && |d| <= |s.base64Credentials|
    && (forall i :: 0 <= i < |Base64.Text(Collected(s))| ==> IsAscii(Base64.Text(Collected(s))[i]))
    && FindColon(d) < |d| && FindColon(d) < |s.username| && |d| - FindColon(d) - 1 < |s.password|
  }

  /** The end of the header value: decoded in place, split at the first colon. */
  function Extracted(s: Spoofer): Spoofer
    requires CredentialsFit(s)
  {
    var d := Decoded(s);
    var i := FindColon(d);
    s.(base64Credentials := d + Collected(s)[|d|..], username := Stored(s.username, d[..i]),
       password := Stored(s.password, d[i + 1..]), ignoreSpaces := false, credentialIter := 0,
       currentState := SP_HTTP_CLIENT_CONFIRMATION_CONSUME)
  }

  predicate EndsValue(b: byte) { b == SPACE || b == TAB || b == LF || b == CR }

  function ExtractingCredentials(s: Spoofer, e: Sent): Spoofer {
    if e.sender.SPOOF_SERVER? || !IsAscii(e.byte) then Stop(s)
    else if s.ignoreSpaces && IsBlank(e.byte) then s
    else
      var t := s.(ignoreSpaces := false);
      if EndsValue(e.byte) then (if CredentialsFit(t) then Extracted(t) else Stop(t))
      else if IsBase64Char(e.byte) then
        t.(base64Credentials := ByteParsers.Put(t.base64Credentials, t.credentialIter, e.byte),
           credentialIter := t.credentialIter + 1)
      else Stop(t)
  }

  function CredentialConfirmation(s: Spoofer, e: Sent): Spoofer {
    if e.sender.SPOOF_CLIENT? || !IsAscii(e.byte) then Stop(s)
    else
      var t := Armed2(s, HTTP_11_2, HTTP_10_2);
      var u := Fed2(t, e.byte);
      var event1, event0 := Feed(t.primary, e.byte).1, Feed(t.secondary, e.byte).1;
      if event1.STRING_CMP_EQ? || event0.STRING_CMP_EQ? then Compared(u.(success := true), SP_FINISH)
      else if event1.STRING_CMP_NEQ? && event0.STRING_CMP_NEQ? then Stop(u)
      else u
  }

  function ClientConfirmationConsume(s: Spoofer, e: Sent): Spoofer {
    if e.sender.SPOOF_CLIENT? then s else CredentialConfirmation(Goto(s, SP_HTTP_CREDENTIAL_CONFIRMATION), e)
  }

  // ---------------------------------------------------------------- the automaton

  function Initially(s: Spoofer, e: Sent): Spoofer {
    if e.sender.SPOOF_CLIENT? then ConfirmHttp(Goto(s, SP_CONFIRM_HTTP), e) else ConfirmPop(Goto(s, SP_CONFIRM_POP), e)
  }

  /** spoofing_parser_spoof_byte: the function of the current state. */
  function Step(s: Spoofer, e: Sent): Spoofer {
    match s.currentState
    case SP_INIT => Initially(s, e)
    case SP_CONFIRM_HTTP => ConfirmHttp(s, e)
    case SP_HTTP_SEARCHING_AUTH => SearchingAuth(s, e)
    case SP_HTTP_CONFIRM_BASIC_SCHEME => ConfirmBasicScheme(s, e)
    case SP_HTTP_EXTRACTING_CREDENTIALS => ExtractingCredentials(s, e)
    case SP_HTTP_CLIENT_CONFIRMATION_CONSUME => ClientConfirmationConsume(s, e)
    case SP_HTTP_CREDENTIAL_CONFIRMATION => CredentialConfirmation(s, e)
    case SP_CONFIRM_POP => ConfirmPop(s, e)
    case SP_POP_USER_SERVER_CONSUME => UserServerConsume(s, e)
    case SP_POP_USER_CLIENT_CONSUME => UserClientConsume(s, e)
    case SP_POP_CHECKING_USER => CheckingUser(s, e)
    case SP_POP_EXTRACTING_USER => ExtractingUser(s, e)
    case SP_POP_CHECKING_USER_RESPONSE => CheckingUserResponse(s, e)
    case SP_POP_PASS_SERVER_CONSUME => PassServerConsume(s, e)
    case SP_POP_PASS_CLIENT_CONSUME => PassClientConsume(s, e)
    case SP_POP_CHECKING_PASS => CheckingPass(s, e)
    case SP_POP_EXTRACTING_PASS => ExtractingPass(s, e)
    case SP_POP_CHECKING_PASS_RESPONSE => CheckingPassResponse(s, e)
    case SP_FINISH => s
  }

  /** The byte is stored, or the credentials split, within the arrays; the source relies on it without a check. */
  predicate Fits(s: Spoofer, e: Sent) {
    e.sender.SPOOF_CLIENT? && IsAscii(e.byte) ==>
      && (s.currentState in {SP_POP_EXTRACTING_USER, SP_POP_EXTRACTING_PASS} && e.byte != CR ==>
          s.credentialIter < CREDENTIAL_ROOM)
      && (s.currentState.SP_HTTP_EXTRACTING_CREDENTIALS? && !(s.ignoreSpaces && IsBlank(e.byte)) ==>
            && (EndsValue(e.byte) ==> CredentialsFit(s))
            && (IsBase64Char(e.byte) ==> s.credentialIter < BASE64_ROOM))
  }

  /** The sizes of the arrays, and string parsers whose state is one of their table's. */
  predicate Valid(s: Spoofer) {
    && |s.username| == CREDENTIAL_ROOM && |s.password| == CREDENTIAL_ROOM && |s.base64Credentials| == BASE64_ROOM
    && s.primary.Valid() && s.secondary.Valid()
  }

  /** Every byte of a run is stored within the arrays. */
  predicate InBounds(s: Spoofer, sent: seq<Sent>)
    decreases |sent|
  {
    sent == [] || s.currentState.SP_FINISH? || (Fits(s, sent[0]) && InBounds(Step(s, sent[0]), sent[1..]))
  }

  /** spoofing_parser_spoof, byte after byte of a transcript; nothing is read once finished. */
  function Run(s: Spoofer, sent: seq<Sent>): Spoofer
    decreases |sent|
  {
    if sent == [] || s.currentState.SP_FINISH? then s else Run(Step(s, sent[0]), sent[1..])
  }

  /** The pieces in which the bytes of the transcript arrive make no difference. */
  lemma {:induction false} RunSplit(s: Spoofer, xs: seq<Sent>, ys: seq<Sent>)
    ensures Run(s, xs + ys) == Run(Run(s, xs), ys)
    ensures InBounds(s, xs + ys) <==> InBounds(s, xs) && InBounds(Run(s, xs), ys)
    decreases |xs|
  {
    hide Step, Fits;
    if xs == [] {
      assert xs + ys == ys;
    } else {
      assert (xs + ys)[0] == xs[0] && (xs + ys)[1..] == xs[1..] + ys;
      if !s.currentState.SP_FINISH? { RunSplit(Step(s, xs[0]), xs[1..], ys); }
    }
  }

  /** spoofing_parser_init: the other fields keep what they held. */
  predicate Initial(s: Spoofer) {
    Valid(s) && s.currentState.SP_INIT? && !s.success && !s.initialized && s.credentialIter == 0 && !s.ignoreSpaces
  }

  /** The array holds the string, with its terminator. */
  predicate Holds(room: seq<byte>, text: seq<byte>) {
    |text| < |room| && room[..|text|] == text && room[|text|] == 0
  }

  /** The bytes of one sender. */
  function From(sender: Sender, bytes: seq<byte>): (sent: seq<Sent>)
    ensures |sent| == |bytes| && forall i :: 0 <= i < |bytes| ==> sent[i] == Sent(sender, bytes[i])
  {
    seq(|bytes|, i requires 0 <= i < |bytes| => Sent(sender, bytes[i]))
  }

  // ---------------------------------------------------------------- from one state to another

  /** The bytes lead from s to r, within the arrays. */
  ghost predicate Leads(s: Spoofer, sent: seq<Sent>, r: Spoofer) { Run(s, sent) == r && InBounds(s, sent) }

  lemma LeadsNothing(s: Spoofer)
    ensures Leads(s, [], s)
  {}

  lemma LeadsThrough(s: Spoofer, xs: seq<Sent>, r: Spoofer, ys: seq<Sent>, q: Spoofer)
    requires Leads(s, xs, r) && Leads(r, ys, q)
    ensures Leads(s, xs + ys, q)
  {
    hide Run, InBounds;
    RunSplit(s, xs, ys);
  }

  lemma LeadsFirst(s: Spoofer, sent: seq<Sent>, r: Spoofer)
    requires sent != [] && !s.currentState.SP_FINISH? && Fits(s, sent[0]) && Leads(Step(s, sent[0]), sent[1..], r)
    ensures Leads(s, sent, r)
  {
    hide Step, Fits;
  }

  lemma FromFirst(sender: Sender, bytes: seq<byte>)
    requires bytes != []
    ensures From(sender, bytes)[0] == Sent(sender, bytes[0]) && From(sender, bytes)[1..] == From(sender, bytes[1..])
  {}

  lemma FromAppend(sender: Sender, xs: seq<byte>, ys: seq<byte>)
    ensures From(sender, xs + ys) == From(sender, xs) + From(sender, ys)
  {}
}
