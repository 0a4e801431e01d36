/**
  Which HTTP sessions are captured, and which leave the credential arrays: an invariant over every transcript that
  a client opens, and its converse.
 */
module SpoofingHttpSound {
  import opened Buckets
  import opened StringMatcher
  import opened Spoofing
  import opened SpoofingHttp
  import Base64
  import SpoofingPop

  // ---------------------------------------------------------------- what a captured login is

  /** A request up to and with its credentials, cut where the observer changes its state. */
  datatype Opening = Opening(line: seq<byte>, scan: seq<byte>, blanks1: seq<byte>, scheme: seq<byte>,
                             blanks2: seq<byte>, value: seq<byte>)

  /** The end of the value, the rest of the request and the start of the server's answer. */
  datatype Login = Login(opening: Opening, term: byte, rest: seq<byte>, answer: seq<byte>)

  function OpeningBytes(o: Opening): seq<byte> { o.line + o.scan + o.blanks1 + o.scheme + o.blanks2 + o.value }

  function Asked(l: Login): seq<byte> { OpeningBytes(l.opening) + [l.term] + l.rest }

  function LoginBytes(l: Login): seq<Sent> { From(SPOOF_CLIENT, Asked(l)) + From(SPOOF_SERVER, l.answer) }

  /** Up to the first HTTP/1. that is found, on the first line. */
  predicate FindsVersionIn(line: seq<byte>) {
    AllAscii(line) && LF !in line && FirstMatch(Start(HTTP_1), line) == |line|
  }

  /** Up to the first header that is found, the end of the headers not found before. */
  predicate FindsHeaderIn(scan: seq<byte>) {
    && AllAscii(scan) && FirstMatch(Start(AUTHORIZATION), scan) == |scan|
    && FirstMatch(Start(CRLFCRLF), scan) == |scan| + 1
  }

  predicate AllBase64(value: seq<byte>) { forall i :: 0 <= i < |value| ==> IsBase64Char(value[i]) }

  predicate ValidOpening(o: Opening) {
    && FindsVersionIn(o.line) && FindsHeaderIn(o.scan) && AllBlank(o.blanks1) && SameText(o.scheme, BASIC)
    && AllBlank(o.blanks2) && AllBase64(o.value)
  }

  function Plain(value: seq<byte>): seq<byte> { Base64.Decode(Base64.Text(value)) }

  function UserOf(value: seq<byte>): seq<byte> { Plain(value)[..FindColon(Plain(value))] }

  function PassOf(value: seq<byte>): seq<byte>
    requires FindColon(Plain(value)) < |Plain(value)|
  {
    Plain(value)[FindColon(Plain(value)) + 1..]
  }

  /** The value and its two parts fit the three arrays. */
  predicate FitsArrays(value: seq<byte>) {
    && |value| < 686 && FindColon(Plain(value)) < |Plain(value)|
    && |UserOf(value)| <= 255 && |PassOf(value)| <= 255
  }

  /** The byte after the blanks in front of the value ends it, or is part of it. */
  predicate EndsAt(o: Opening, b: byte) { EndsValue(b) && (o.value == [] ==> !IsBlank(b)) }

  predicate ValidLogin(l: Login) {
    && ValidOpening(l.opening) && EndsAt(l.opening, l.term) && FitsArrays(l.opening.value)
    && (SameText(l.answer, HTTP_11_2) || SameText(l.answer, HTTP_10_2))
  }

  // ---------------------------------------------------------------- the invariant

  predicate Sizes(s: Spoofer) {
    |s.username| == CREDENTIAL_ROOM && |s.password| == CREDENTIAL_ROOM && |s.base64Credentials| == BASE64_ROOM
  }

  predicate SameArrays(r: Spoofer, s: Spoofer) {
    r.username == s.username && r.password == s.password && r.base64Credentials == s.base64Credentials
  }

  predicate InLine(s: Spoofer, line: seq<byte>) {
    && s.credentialIter == 0 && AllAscii(line) && LF !in line && FirstMatch(Start(HTTP_1), line) == |line| + 1
    && s.initialized == (line != []) && (s.initialized ==> s.primary == ScanAll(Start(HTTP_1), line))
  }

  predicate InHeader(s: Spoofer, scan: seq<byte>) {
    && s.credentialIter == 0 && s.protocol.SPOOF_HTTP?
    && AllAscii(scan) && FirstMatch(Start(AUTHORIZATION), scan) == |scan| + 1
    && FirstMatch(Start(CRLFCRLF), scan) == |scan| + 1
    && s.initialized == (scan != [])
    && (s.initialized ==>
          s.primary == ScanAll(Start(AUTHORIZATION), scan) && s.secondary == ScanAll(Start(CRLFCRLF), scan))
  }

  predicate InScheme(s: Spoofer, scheme: seq<byte>) {
    && s.credentialIter == 0 && s.protocol.SPOOF_HTTP?
    && StringMatcher.Agrees(scheme, BASIC) && |scheme| < |BASIC|
    && s.ignoreSpaces == (scheme == []) && s.initialized == (scheme != [])
    && (s.initialized ==> s.primary == Matcher(BASIC, |scheme|))
  }

  predicate InValue(s: Spoofer, value: seq<byte>) {
    && s.protocol.SPOOF_HTTP? && !s.initialized
    && AllBase64(value) && s.ignoreSpaces == (value == [])
    && s.credentialIter == |value| <= |s.base64Credentials| && s.base64Credentials[..|value|] == value
  }

  predicate HasLogin(s: Spoofer, value: seq<byte>) {
    FitsArrays(value) && HasPair(s, UserOf(value), PassOf(value))
  }

  predicate InAnswer(s: Spoofer, answer: seq<byte>) {
    && s.initialized && answer != []
    && s.primary == FeedAll(Start(HTTP_11_2), answer) && s.secondary == FeedAll(Start(HTTP_10_2), answer)
  }

  /** What holds after every byte of a session that the client opened. */
  predicate Inv(t: seq<Sent>, s: Spoofer, l: Login) {
    var o := l.opening;
    && Sizes(s) && (s.success ==> s.currentState.SP_FINISH?)
    && match s.currentState
       case SP_CONFIRM_HTTP => InLine(s, o.line) && t == From(SPOOF_CLIENT, o.line)
       case SP_HTTP_SEARCHING_AUTH =>
         FindsVersionIn(o.line) && InHeader(s, o.scan) && t == From(SPOOF_CLIENT, o.line + o.scan)
       case SP_HTTP_CONFIRM_BASIC_SCHEME =>
         && FindsVersionIn(o.line) && FindsHeaderIn(o.scan) && AllBlank(o.blanks1) && InScheme(s, o.scheme)
         && t == From(SPOOF_CLIENT, o.line + o.scan + o.blanks1 + o.scheme)
       case SP_HTTP_EXTRACTING_CREDENTIALS =>
         ValidOpening(o) && InValue(s, o.value) && t == From(SPOOF_CLIENT, OpeningBytes(o))
       case SP_HTTP_CLIENT_CONFIRMATION_CONSUME =>
         && ValidOpening(o) && EndsAt(o, l.term) && HasLogin(s, o.value) && !s.initialized
         && t == From(SPOOF_CLIENT, Asked(l))
       case SP_HTTP_CREDENTIAL_CONFIRMATION =>
         && ValidOpening(o) && EndsAt(o, l.term) && HasLogin(s, o.value) && InAnswer(s, l.answer)
         && t == LoginBytes(l)
       case SP_FINISH => s.success ==> ValidLogin(l) && HasLogin(s, o.value) && t == LoginBytes(l)
       case _ => false
  }

  lemma FromGrows(sender: Sender, xs: seq<byte>, b: byte)
    ensures From(sender, xs) + [Sent(sender, b)] == From(sender, xs + [b])
  {}

  lemma LineKeeps(s: Spoofer, line: seq<byte>, e: Sent)
    requires s.currentState.SP_CONFIRM_HTTP? && InLine(s, line) && !s.success
    ensures var r := ConfirmHttp(s, e);
            && !r.success && SameArrays(r, s)
            && (r.currentState.SP_FINISH?
                || (e.sender.SPOOF_CLIENT? && r.currentState.SP_CONFIRM_HTTP? && InLine(r, line + [e.byte]))
                || (e.sender.SPOOF_CLIENT? && r.currentState.SP_HTTP_SEARCHING_AUTH?
                    && FindsVersionIn(line + [e.byte]) && InHeader(r, [])))
  {
    hide FirstMatch, ScanAll, Same;
    if e.sender.SPOOF_CLIENT? && IsAscii(e.byte) {
      StartsScan(HTTP_1);
      StartsScan(AUTHORIZATION);
      StartsScan(CRLFCRLF);
      ScansNext(Start(HTTP_1), line, e.byte);
    }
  }

  lemma StartsScan(pattern: seq<byte>)
    ensures ScanAll(Start(pattern), []) == Start(pattern) && FirstMatch(Start(pattern), []) == 1
  {}

  /** The header ends with a space, and the end of the headers with a line feed. */
  lemma NotBoth(b: byte)
    ensures !(Same(b, AUTHORIZATION[|AUTHORIZATION| - 1]) && Same(b, CRLFCRLF[|CRLFCRLF| - 1]))
  {}

  lemma HeaderKeeps(s: Spoofer, scan: seq<byte>, e: Sent)
    requires s.currentState.SP_HTTP_SEARCHING_AUTH? && InHeader(s, scan) && !s.success
    ensures var r := SearchingAuth(s, e);
            && !r.success && SameArrays(r, s)
            && (r.currentState.SP_FINISH?
                || (e.sender.SPOOF_CLIENT? && r.currentState.SP_HTTP_SEARCHING_AUTH? && InHeader(r, scan + [e.byte]))
                || (e.sender.SPOOF_CLIENT? && r.currentState.SP_HTTP_CONFIRM_BASIC_SCHEME?
                    && FindsHeaderIn(scan + [e.byte]) && InScheme(r, [])))
  {
    hide FirstMatch, ScanAll, Same;
    if e.sender.SPOOF_CLIENT? && IsAscii(e.byte) {
      StartsScan(AUTHORIZATION);
      StartsScan(CRLFCRLF);
      ScansOn(Start(AUTHORIZATION), scan, []);
      ScansOn(Start(CRLFCRLF), scan, []);
      ScansNext(Start(AUTHORIZATION), scan, e.byte);
      ScansNext(Start(CRLFCRLF), scan, e.byte);
      NotBoth(e.byte);
    }
  }

  lemma SchemeKeeps(s: Spoofer, scheme: seq<byte>, e: Sent)
    requires s.currentState.SP_HTTP_CONFIRM_BASIC_SCHEME? && InScheme(s, scheme) && !s.success
    ensures var r := ConfirmBasicScheme(s, e);
            && !r.success && SameArrays(r, s)
            && (r.currentState.SP_FINISH?
                || (e.sender.SPOOF_CLIENT? && scheme == [] && IsBlank(e.byte) && r == s)
                || (e.sender.SPOOF_CLIENT? && !(scheme == [] && IsBlank(e.byte))
                    && r.currentState.SP_HTTP_CONFIRM_BASIC_SCHEME? && InScheme(r, scheme + [e.byte]))
                || (e.sender.SPOOF_CLIENT? && !(scheme == [] && IsBlank(e.byte))
                    && r.currentState.SP_HTTP_EXTRACTING_CREDENTIALS?
                    && SameText(scheme + [e.byte], BASIC) && InValue(r, [])))
  {
    hide Same;
  }

  // ---------------------------------------------------------------- the value

  lemma {:induction false} DecodeIsShorter(text: seq<byte>)
    ensures |Base64.Decode(text)| <= |text|
    decreases |text|
  {
    hide Base64.High, Base64.Middle, Base64.Low, Base64.Value;
    if |text| > 3 { DecodeIsShorter(text[4..]); }
  }

  /** The terminator that the parser writes ends the text where it ended already. */
  lemma CollectedText(s: Spoofer, value: seq<byte>)
    requires InValue(s, value) && |value| < |s.base64Credentials|
    ensures Base64.Text(Collected(s)) == Base64.Text(value) && Decoded(s) == Plain(value)
    ensures forall i :: 0 <= i < |Base64.Text(value)| ==> IsAscii(Base64.Text(value)[i])
  {
    hide Base64.Decode;
    var text := Base64.Text(value);
    var rest := s.base64Credentials[|value| + 1..];
    assert Collected(s) == value + [0] + rest;
    assert value + [0] + rest == text + (value[|text|..] + [0] + rest);
    Base64.TextEnds(text, value[|text|..] + [0] + rest);
  }

  lemma FitsExactly(s: Spoofer, value: seq<byte>)
    requires InValue(s, value) && Sizes(s)
    ensures CredentialsFit(s) <==> FitsArrays(value)
  {
    hide Base64.Decode, Base64.Text, Decoded, Collected, InValue, FindColon;
    ValueLength(s, value);
    if |value| < BASE64_ROOM {
      CollectedText(s, value);
      DecodeIsShorter(Base64.Text(value));
    }
  }

  lemma ValueLength(s: Spoofer, value: seq<byte>)
    requires InValue(s, value)
    ensures s.credentialIter == |value| && |Base64.Text(value)| <= |value|
  {}

  lemma ValueKeeps(s: Spoofer, value: seq<byte>, e: Sent)
    requires s.currentState.SP_HTTP_EXTRACTING_CREDENTIALS? && InValue(s, value) && Sizes(s) && !s.success && Fits(s, e)
    ensures var r := ExtractingCredentials(s, e);
            && !r.success && Sizes(r)
            && (r.currentState.SP_FINISH?
                || (e.sender.SPOOF_CLIENT? && value == [] && IsBlank(e.byte) && r == s)
                || (e.sender.SPOOF_CLIENT? && !EndsValue(e.byte) && r.currentState.SP_HTTP_EXTRACTING_CREDENTIALS?
                    && AllBase64(value + [e.byte]) && InValue(r, value + [e.byte]))
                || (e.sender.SPOOF_CLIENT? && EndsValue(e.byte) && (value == [] ==> !IsBlank(e.byte))
                    && r.currentState.SP_HTTP_CLIENT_CONFIRMATION_CONSUME? && !r.initialized && HasLogin(r, value)))
  {
    hide CredentialsFit, FitsArrays, Extracted, BASE64_ROOM;
    if e.sender.SPOOF_CLIENT? && IsAscii(e.byte) && !(s.ignoreSpaces && IsBlank(e.byte)) {
      var t := s.(ignoreSpaces := false);
      if EndsValue(e.byte) {
        SameFits(s);
        FitsExactly(s, value);
        ExtractsLogin(s, t, value);
      }
    }
  }

  lemma SameFits(s: Spoofer)
    ensures CredentialsFit(s.(ignoreSpaces := false)) == CredentialsFit(s)
    ensures Decoded(s.(ignoreSpaces := false)) == Decoded(s)
  {
    hide Base64.Decode, Base64.Text;
  }

  lemma ExtractsLogin(s: Spoofer, t: Spoofer, value: seq<byte>)
    requires InValue(s, value) && Sizes(s) && t == s.(ignoreSpaces := false) && FitsArrays(value)
    ensures CredentialsFit(t)
    ensures var r := Extracted(t); Sizes(r) && HasLogin(r, value) && r.protocol == s.protocol
    ensures var r := Extracted(t);
            r.success == s.success && r.initialized == s.initialized
            && r.currentState.SP_HTTP_CLIENT_CONFIRMATION_CONSUME?
  {
    hide Base64.Decode, Base64.Text, FindColon, Base64.Text;
    SameFits(s);
    FitsExactly(s, value);
    CollectedText(s, value);
  }

  // ---------------------------------------------------------------- the answer

  lemma FeedsNext(word: seq<byte>, xs: seq<byte>, c: byte)
    ensures FeedAll(Start(word), xs + [c]) == Feed(FeedAll(Start(word), xs), c).0
  {
    assert (xs + [c])[..|xs|] == xs;
  }

  lemma AnswerKeeps(s: Spoofer, answer: seq<byte>, e: Sent)
    requires s.currentState.SP_HTTP_CREDENTIAL_CONFIRMATION? && !s.success
    requires if answer == [] then !s.initialized else InAnswer(s, answer)
    ensures var r := CredentialConfirmation(s, e); var b := e.byte;
            && SameArrays(r, s) && r.protocol == s.protocol
            && (r.success ==> e.sender.SPOOF_SERVER? && r.currentState.SP_FINISH?
                              && (SameText(answer + [b], HTTP_11_2) || SameText(answer + [b], HTTP_10_2)))
            && (!r.success ==> r.currentState.SP_FINISH?
                               || (e.sender.SPOOF_SERVER? && r.currentState.SP_HTTP_CREDENTIAL_CONFIRMATION?
                                   && InAnswer(r, answer + [b])))
  {
    hide Feed, FeedAll, SameText;
    if e.sender.SPOOF_SERVER? && IsAscii(e.byte) {
      FeedsNothing(HTTP_11_2);
      FeedsNothing(HTTP_10_2);
      FeedsNext(HTTP_11_2, answer, e.byte);
      FeedsNext(HTTP_10_2, answer, e.byte);
      EventMeansCompared(HTTP_11_2, answer, e.byte);
      EventMeansCompared(HTTP_10_2, answer, e.byte);
    }
  }

  lemma FeedsNothing(word: seq<byte>)
    ensures FeedAll(Start(word), []) == Start(word)
  {}

  // ---------------------------------------------------------------- every run

  lemma SameLogin(r: Spoofer, s: Spoofer, value: seq<byte>)
    requires HasLogin(s, value) && SameArrays(r, s) && r.protocol == s.protocol
    ensures HasLogin(r, value)
  {
    hide FitsArrays, UserOf, PassOf;
  }

  function Extended(l: Login, s: Spoofer, e: Sent): Login {
    var o := l.opening;
    match s.currentState
    case SP_CONFIRM_HTTP => l.(opening := o.(line := o.line + [e.byte], scan := []))
    case SP_HTTP_SEARCHING_AUTH => l.(opening := o.(scan := o.scan + [e.byte], blanks1 := [], scheme := []))
    case SP_HTTP_CONFIRM_BASIC_SCHEME =>
      if o.scheme == [] && IsBlank(e.byte) then l.(opening := o.(blanks1 := o.blanks1 + [e.byte]))
      else l.(opening := o.(scheme := o.scheme + [e.byte], blanks2 := [], value := []))
    case SP_HTTP_EXTRACTING_CREDENTIALS =>
      if EndsAt(o, e.byte) then l.(term := e.byte, rest := [])
      else if o.value == [] && IsBlank(e.byte) then l.(opening := o.(blanks2 := o.blanks2 + [e.byte]))
      else l.(opening := o.(value := o.value + [e.byte]))
    case SP_HTTP_CLIENT_CONFIRMATION_CONSUME =>
      if e.sender.SPOOF_CLIENT? then l.(rest := l.rest + [e.byte]) else l.(answer := [e.byte])
    case _ => l.(answer := l.answer + [e.byte])
  }

  lemma HeadKeeps(t: seq<Sent>, s: Spoofer, l: Login, e: Sent)
    requires Inv(t, s, l) && s.currentState in {SP_CONFIRM_HTTP, SP_HTTP_SEARCHING_AUTH}
    ensures Inv(t + [e], Step(s, e), Extended(l, s, e))
  {
    hide InLine, InHeader, InScheme, ConfirmHttp, SearchingAuth, FindsVersionIn, FindsHeaderIn, FirstMatch;
    var o := l.opening;
    if s.currentState.SP_CONFIRM_HTTP? {
      LineKeeps(s, o.line, e);
      assert o.line + [e.byte] + [] == o.line + [e.byte];
      FromGrows(SPOOF_CLIENT, o.line, e.byte);
    } else {
      HeaderKeeps(s, o.scan, e);
      assert o.line + (o.scan + [e.byte]) + [] + [] == o.line + o.scan + [e.byte];
      FromGrows(SPOOF_CLIENT, o.line + o.scan, e.byte);
    }
  }

  lemma SchemeStepKeeps(t: seq<Sent>, s: Spoofer, l: Login, e: Sent)
    requires Inv(t, s, l) && s.currentState.SP_HTTP_CONFIRM_BASIC_SCHEME?
    ensures Inv(t + [e], Step(s, e), Extended(l, s, e))
  {
    hide InScheme, InValue, ConfirmBasicScheme, FindsVersionIn, FindsHeaderIn, SameText;
    var o := l.opening;
    SchemeKeeps(s, o.scheme, e);
    FromGrows(SPOOF_CLIENT, o.line + o.scan + o.blanks1 + o.scheme, e.byte);
    var m := Extended(l, s, e).opening;
    assert o.line + o.scan + o.blanks1 + o.scheme + [e.byte] == m.line + m.scan + m.blanks1 + m.scheme;
    assert OpeningBytes(m.(blanks2 := [], value := [])) == m.line + m.scan + m.blanks1 + m.scheme;
  }

  lemma ValueStepKeeps(t: seq<Sent>, s: Spoofer, l: Login, e: Sent)
    requires Inv(t, s, l) && s.currentState.SP_HTTP_EXTRACTING_CREDENTIALS? && Fits(s, e)
    ensures Inv(t + [e], Step(s, e), Extended(l, s, e))
  {
    hide InValue, ExtractingCredentials, FindsVersionIn, FindsHeaderIn, SameText, HasLogin;
    var o := l.opening;
    ValueKeeps(s, o.value, e);
    FromGrows(SPOOF_CLIENT, OpeningBytes(o), e.byte);
    var m := Extended(l, s, e);
    assert OpeningBytes(o) + [e.byte] == if EndsAt(o, e.byte) then Asked(m) else OpeningBytes(m.opening);
  }

  lemma AnswerStepKeeps(t: seq<Sent>, s: Spoofer, l: Login, e: Sent)
    requires Inv(t, s, l)
    requires s.currentState in {SP_HTTP_CLIENT_CONFIRMATION_CONSUME, SP_HTTP_CREDENTIAL_CONFIRMATION}
    ensures Inv(t + [e], Step(s, e), Extended(l, s, e))
  {
    hide Feed, FeedAll, CredentialConfirmation, ValidOpening, EndsAt, FitsArrays, HasPair, UserOf, PassOf, SameText;
    if s.currentState.SP_HTTP_CLIENT_CONFIRMATION_CONSUME? && e.sender.SPOOF_CLIENT? {
      FromGrows(SPOOF_CLIENT, Asked(l), e.byte);
      assert Asked(l) + [e.byte] == Asked(Extended(l, s, e));
    } else {
      var before := if s.currentState.SP_HTTP_CREDENTIAL_CONFIRMATION? then l.answer else [];
      AnswerKeeps(Goto(s, SP_HTTP_CREDENTIAL_CONFIRMATION), before, e);
      SameLogin(Step(s, e), s, l.opening.value);
      assert before + [e.byte] == Extended(l, s, e).answer;
      if e.sender.SPOOF_SERVER? { AnswerGrows(t, l, before, e); }
    }
  }

  lemma AnswerGrows(t: seq<Sent>, l: Login, before: seq<byte>, e: Sent)
    requires t == From(SPOOF_CLIENT, Asked(l)) + From(SPOOF_SERVER, before) && e.sender.SPOOF_SERVER?
    ensures t + [e] == LoginBytes(l.(answer := before + [e.byte]))
  {
    FromGrows(SPOOF_SERVER, before, e.byte);
    assert Asked(l) == Asked(l.(answer := before + [e.byte]));
  }

  /** Every byte that fits keeps the invariant. */
  lemma StepKeeps(t: seq<Sent>, s: Spoofer, l: Login, e: Sent)
    requires Inv(t, s, l) && !s.currentState.SP_FINISH? && Fits(s, e)
    ensures Inv(t + [e], Step(s, e), Extended(l, s, e))
  {
    hide Step, Extended, Fits, InLine, InHeader, InScheme, InValue, InAnswer, HasLogin, FindsVersionIn, FindsHeaderIn;
    match s.currentState
    case SP_CONFIRM_HTTP => HeadKeeps(t, s, l, e);
    case SP_HTTP_SEARCHING_AUTH => HeadKeeps(t, s, l, e);
    case SP_HTTP_CONFIRM_BASIC_SCHEME => SchemeStepKeeps(t, s, l, e);
    case SP_HTTP_EXTRACTING_CREDENTIALS => ValueStepKeeps(t, s, l, e);
    case _ => AnswerStepKeeps(t, s, l, e);
  }

  lemma {:induction false} RunKeeps(t: seq<Sent>, s: Spoofer, l: Login, sent: seq<Sent>) returns (l': Login)
    requires Inv(t, s, l) && InBounds(s, sent)
    ensures Inv(t + sent[..SpoofingPop.Taken(s, sent)], Run(s, sent), l')
    decreases |sent|
  {
    hide Inv, Step, Fits;
    if sent == [] || s.currentState.SP_FINISH? {
      assert t + sent[..0] == t;
      l' := l;
    } else {
      StepKeeps(t, s, l, sent[0]);
      l' := RunKeeps(t + [sent[0]], Step(s, sent[0]), Extended(l, s, sent[0]), sent[1..]);
      var n := SpoofingPop.Taken(Step(s, sent[0]), sent[1..]);
      assert t + [sent[0]] + sent[1..][..n] == t + sent[..n + 1];
    }
  }

  function NoLogin(): Login { Login(Opening([], [], [], [], [], []), 0, [], []) }

  /** The first byte of the client starts the comparison. */
  lemma StartsHttp(s: Spoofer, e: Sent)
    requires Initial(s) && e.sender.SPOOF_CLIENT?
    ensures var t := Goto(s, SP_CONFIRM_HTTP);
            Inv([], t, NoLogin()) && Step(s, e) == Step(t, e) && Fits(s, e) && Fits(t, e)
  {
    hide Feed, Restarted;
    StartsScan(HTTP_1);
  }

  lemma StartsAlike(s: Spoofer, sent: seq<Sent>)
    requires Initial(s) && sent != [] && sent[0].sender.SPOOF_CLIENT?
    ensures var t := Goto(s, SP_CONFIRM_HTTP);
            && Run(s, sent) == Run(t, sent) && InBounds(s, sent) == InBounds(t, sent)
            && SpoofingPop.Taken(s, sent) == SpoofingPop.Taken(t, sent)
  {
    hide Step, Fits;
    StartsHttp(s, sent[0]);
  }

  /** A login, for a reader who does not know the scanners: where the pieces end. */
  lemma LoginReads(l: Login)
    requires ValidLogin(l)
    ensures EndsWith(l.opening.line, HTTP_1) && EndsWith(l.opening.scan, AUTHORIZATION)
  {
    hide AllAscii, FitsArrays, Same;
    var line, scan := l.opening.line, l.opening.scan;
    MatchIsOccurrence(Start(HTTP_1), [], line);
    MatchIsOccurrence(Start(AUTHORIZATION), [], scan);
    assert [] + line[..|line|] == line && [] + scan[..|scan|] == scan;
  }

  /**
    HTTP capture is sound, for every transcript: success means that the bytes read are a first line up to HTTP/1.,
    more of the headers up to an Authorization header, the scheme Basic, and a value whose decoding splits at its
    first colon into the stored pair, then the rest of the request and an answer that starts with one of the two
    accepted status lines.
   */
  lemma HttpCaptureIsSound(s: Spoofer, sent: seq<Sent>) returns (l: Login)
    requires Initial(s) && InBounds(s, sent)
    ensures var r := Run(s, sent);
            r.success && r.protocol.SPOOF_HTTP? ==>
              && ValidLogin(l) && sent[..SpoofingPop.Taken(s, sent)] == LoginBytes(l)
              && EndsWith(l.opening.line, HTTP_1) && EndsWith(l.opening.scan, AUTHORIZATION)
              && Holds(r.username, UserOf(l.opening.value)) && Holds(r.password, PassOf(l.opening.value))
  {
    hide Initial, InBounds, Run, Step, ValidLogin, LoginBytes, FitsArrays, EndsWith, Holds;
    l := NoLogin();
    if sent == [] {
      RunOfNothing(s);
    } else if sent[0].sender.SPOOF_SERVER? {
      NotHttp(s, sent);
    } else {
      StartsHttp(s, sent[0]);
      StartsAlike(s, sent);
      l := RunKeeps([], Goto(s, SP_CONFIRM_HTTP), l, sent);
      assert [] + sent[..SpoofingPop.Taken(s, sent)] == sent[..SpoofingPop.Taken(s, sent)];
      Finished([] + sent[..SpoofingPop.Taken(s, sent)], Run(s, sent), l);
      if ValidLogin(l) { LoginReads(l); }
    }
  }

  lemma RunOfNothing(s: Spoofer)
    requires Initial(s)
    ensures !Run(s, []).success
  {}

  lemma NotHttp(s: Spoofer, sent: seq<Sent>)
    requires Initial(s) && InBounds(s, sent) && sent != [] && sent[0].sender.SPOOF_SERVER?
    ensures Run(s, sent).success ==> Run(s, sent).protocol.SPOOF_POP?
  {
    hide Run, InBounds;
    SpoofingPop.PopOnly([], s, SpoofingPop.Marks(0, 0, 0, 0), sent);
  }

  lemma Finished(t: seq<Sent>, s: Spoofer, l: Login)
    requires Inv(t, s, l)
    ensures s.success ==> ValidLogin(l) && t == LoginBytes(l)
                          && Holds(s.username, UserOf(l.opening.value)) && Holds(s.password, PassOf(l.opening.value))
  {}

  // ---------------------------------------------------------------- the converse

  /** Every such opening is read within the arrays, up to the end of the value. */
  lemma OpeningIsRead(s: Spoofer, o: Opening) returns (r: Spoofer)
    requires Initial(s) && ValidOpening(o) && |o.value| <= BASE64_ROOM
    ensures Reads(s, OpeningBytes(o), r) && InValue(r, o.value) && Sizes(r) && !r.success
            && r.currentState.SP_HTTP_EXTRACTING_CREDENTIALS?
  {
    hide Reads;
    var s1 := LineIsRead(s, o.line);
    var s2 := HeaderIsRead(s1, o.scan);
    ReadsThrough(s, o.line, s1, o.scan, s2);
    var s3 := FindsScheme(s2, o.blanks1, o.scheme);
    ReadsThrough(s, o.line + o.scan, s2, o.blanks1 + o.scheme, s3);
    assert o.line + o.scan + (o.blanks1 + o.scheme) == o.line + o.scan + o.blanks1 + o.scheme;
    SkipsBlanks(s3, o.blanks2);
    ReadsThrough(s, o.line + o.scan + o.blanks1 + o.scheme, s3, o.blanks2, s3);
    if o.value == [] {
      r := s3;
      assert o.line + o.scan + o.blanks1 + o.scheme + o.blanks2 + o.value
          == o.line + o.scan + o.blanks1 + o.scheme + o.blanks2;
    } else {
      r := Collecting(s3, o.value);
      Collects(s3, o.value);
      ReadsThrough(s, o.line + o.scan + o.blanks1 + o.scheme + o.blanks2, s3, o.value, r);
      assert r.base64Credentials[..|o.value|] == o.value;
    }
  }

  lemma LineIsRead(s: Spoofer, line: seq<byte>) returns (r: Spoofer)
    requires Initial(s) && FindsVersionIn(line)
    ensures Reads(s, line, r) && OnTheWay(r, SP_HTTP_SEARCHING_AUTH) && !r.initialized
  {
    hide Reads, FirstMatch;
    assert line != [];
    var t := Armed1(Goto(s, SP_CONFIRM_HTTP), HTTP_1);
    r := FindsHttp(t, line);
    ReadsAlike(s, t, line, r);
  }

  lemma HeaderIsRead(s: Spoofer, scan: seq<byte>) returns (r: Spoofer)
    requires OnTheWay(s, SP_HTTP_SEARCHING_AUTH) && !s.initialized && FindsHeaderIn(scan)
    ensures Reads(s, scan, r) && OnTheWay(r, SP_HTTP_CONFIRM_BASIC_SCHEME) && !r.initialized && r.ignoreSpaces
  {
    hide Reads, FirstMatch;
    assert scan != [];
    var t := Armed2(s, AUTHORIZATION, CRLFCRLF);
    r := FindsAuthorization(t, scan);
    ReadsAlike(s, t, scan, r);
  }

  /** The request, with its terminator and all that follows until the server answers. */
  lemma RequestIsRead(s: Spoofer, l: Login) returns (r: Spoofer)
    requires Initial(s) && ValidLogin(l)
    ensures Reads(s, Asked(l), r) && HasLogin(r, l.opening.value)
            && r.currentState.SP_HTTP_CLIENT_CONFIRMATION_CONSUME? && !r.initialized
  {
    hide Reads, ValidOpening, InValue, Initial, HasLogin, SameText, FitsArrays, Step, Fits, EndsAt;
    var o := l.opening;
    assert |o.value| < BASE64_ROOM by { ShortValue(o.value); }
    var p := OpeningIsRead(s, o);
    r := Step(p, Sent(SPOOF_CLIENT, l.term));
    TerminatorIsRead(p, o, l.term);
    ReadsOne(p, l.term);
    ReadsThrough(s, OpeningBytes(o), p, [l.term], r);
    ConsumesRest(r, l.rest);
    ReadsThrough(s, OpeningBytes(o) + [l.term], r, l.rest, r);
  }

  lemma TerminatorIsRead(s: Spoofer, o: Opening, term: byte)
    requires s.currentState.SP_HTTP_EXTRACTING_CREDENTIALS? && InValue(s, o.value) && Sizes(s)
    requires EndsAt(o, term) && FitsArrays(o.value)
    ensures var e := Sent(SPOOF_CLIENT, term); var r := Step(s, e);
            && Fits(s, e) && HasLogin(r, o.value)
            && r.currentState.SP_HTTP_CLIENT_CONFIRMATION_CONSUME? && !r.initialized
  {
    hide InValue, HasLogin, FitsArrays, CredentialsFit;
    NotSkipped(s, o, term);
    SameFits(s);
    FitsExactly(s, o.value);
    ExtractsLogin(s, s.(ignoreSpaces := false), o.value);
    assert Step(s, Sent(SPOOF_CLIENT, term)) == Extracted(s.(ignoreSpaces := false));
  }

  lemma ShortValue(value: seq<byte>)
    requires FitsArrays(value)
    ensures |value| < BASE64_ROOM
  {}

  lemma NotSkipped(s: Spoofer, o: Opening, b: byte)
    requires InValue(s, o.value) && EndsAt(o, b)
    ensures !(s.ignoreSpaces && IsBlank(b)) && !s.initialized && s.protocol.SPOOF_HTTP? && IsAscii(b)
  {}

  /** HTTP capture is complete: every such login is captured, whatever comes after it. */
  lemma LoginIsCaptured(s: Spoofer, l: Login, more: seq<Sent>)
    requires Initial(s) && ValidLogin(l)
    ensures var sent := LoginBytes(l) + more; var r := Run(s, sent);
            && InBounds(s, sent) && r.success && r.protocol.SPOOF_HTTP?
            && Holds(r.username, UserOf(l.opening.value)) && Holds(r.password, PassOf(l.opening.value))
  {
    hide Initial, ValidOpening, EndsAt, SameText, Run, InBounds, Holds, FindColon, UserOf, PassOf;
    var r := RequestIsRead(s, l);
    assert l.answer + [] == l.answer;
    AnswerConfirms(r, l.answer, [], UserOf(l.opening.value), PassOf(l.opening.value));
    RunSplit(s, From(SPOOF_CLIENT, Asked(l)), From(SPOOF_SERVER, l.answer));
    RunSplit(s, LoginBytes(l), more);
    FinishedStays(Run(s, LoginBytes(l)), more);
  }

  lemma FinishedStays(s: Spoofer, sent: seq<Sent>)
    requires s.currentState.SP_FINISH?
    ensures Run(s, sent) == s && InBounds(s, sent)
  {}

  /** The transcript starts with a login. */
  ghost predicate StartsWithLogin(sent: seq<Sent>) { exists l :: ValidLogin(l) && LoginBytes(l) <= sent }

  /** A session is captured as an HTTP one, within the arrays, if and only if its transcript starts with a login. */
  lemma HttpCapturedExactlyWhen(s: Spoofer, sent: seq<Sent>)
    requires Initial(s)
    ensures InBounds(s, sent) && Run(s, sent).success && Run(s, sent).protocol.SPOOF_HTTP? <==> StartsWithLogin(sent)
  {
    hide Initial, InBounds, Run, ValidLogin, LoginBytes, Holds, EndsWith, UserOf, PassOf;
    if InBounds(s, sent) && Run(s, sent).success && Run(s, sent).protocol.SPOOF_HTTP? {
      var l := HttpCaptureIsSound(s, sent);
      assert LoginBytes(l) <= sent;
    }
    if StartsWithLogin(sent) {
      var l :| ValidLogin(l) && LoginBytes(l) <= sent;
      LoginIsCaptured(s, l, sent[|LoginBytes(l)|..]);
      assert LoginBytes(l) + sent[|LoginBytes(l)|..] == sent;
    }
  }

  // ---------------------------------------------------------------- when the arrays suffice

  /** The byte that comes after the opening does not fit: the value is too long, or does not split into two parts
      that fit. */
  predicate Misfits(o: Opening, e: Sent) {
    e.sender.SPOOF_CLIENT?
    && ((EndsAt(o, e.byte) && !FitsArrays(o.value)) || (IsBase64Char(e.byte) && |o.value| == 686))
  }

  /** The transcript is an opening whose value the arrays do not hold, and a byte more. */
  predicate Overruns(sent: seq<Sent>, o: Opening) {
    var n := |OpeningBytes(o)|;
    && ValidOpening(o) && |o.value| <= 686
    && n < |sent| && sent[..n] == From(SPOOF_CLIENT, OpeningBytes(o)) && Misfits(o, sent[n])
  }

  lemma FitsUnlessMisfit(s: Spoofer, o: Opening, e: Sent)
    requires InValue(s, o.value) && Sizes(s) && s.currentState.SP_HTTP_EXTRACTING_CREDENTIALS?
    ensures Fits(s, e) <==> !Misfits(o, e)
  {
    hide CredentialsFit, FitsArrays;
    FitsExactly(s, o.value);
  }

  lemma {:induction false} FirstMisfit(t: seq<Sent>, s: Spoofer, l: Login, sent: seq<Sent>) returns (o: Opening)
    requires Inv(t, s, l) && !InBounds(s, sent)
    ensures Overruns(t + sent, o)
    decreases |sent|
  {
    hide Inv, Step, Fits, Overruns;
    if Fits(s, sent[0]) {
      StepKeeps(t, s, l, sent[0]);
      o := FirstMisfit(t + [sent[0]], Step(s, sent[0]), Extended(l, s, sent[0]), sent[1..]);
      assert t + [sent[0]] + sent[1..] == t + sent;
    } else {
      o := l.opening;
      MisfitOverruns(t, s, l, sent);
    }
  }

  lemma MisfitOverruns(t: seq<Sent>, s: Spoofer, l: Login, sent: seq<Sent>)
    requires Inv(t, s, l) && sent != [] && !Fits(s, sent[0])
    ensures Overruns(t + sent, l.opening)
  {
    hide ValidOpening, Misfits, CredentialsFit;
    if s.currentState.SP_HTTP_EXTRACTING_CREDENTIALS? {
      FitsUnlessMisfit(s, l.opening, sent[0]);
      assert (t + sent)[..|t|] == t && (t + sent)[|t|] == sent[0];
    }
  }

  /** A session that the client opens stays within the arrays if and only if no header value overruns them. */
  lemma HttpInBoundsExactlyWhen(s: Spoofer, sent: seq<Sent>)
    requires Initial(s) && sent != [] && sent[0].sender.SPOOF_CLIENT?
    ensures InBounds(s, sent) <==> !exists o :: Overruns(sent, o)
  {
    hide Initial, InBounds, Overruns, Inv;
    if !InBounds(s, sent) {
      StartsHttp(s, sent[0]);
      StartsAlike(s, sent);
      var o := FirstMisfit([], Goto(s, SP_CONFIRM_HTTP), NoLogin(), sent);
      assert [] + sent == sent;
    }
    if o :| Overruns(sent, o) { OverrunIsOutOfBounds(s, sent, o); }
  }

  lemma OverrunIsOutOfBounds(s: Spoofer, sent: seq<Sent>, o: Opening)
    requires Initial(s) && Overruns(sent, o)
    ensures !InBounds(s, sent)
  {
    hide Initial, Misfits, ValidOpening, Fits, InValue, Step;
    var n := |OpeningBytes(o)|;
    var r := OpeningIsRead(s, o);
    FitsUnlessMisfit(r, o, sent[n]);
    assert sent == sent[..n] + sent[n..];
    RunSplit(s, sent[..n], sent[n..]);
    assert sent[n..][0] == sent[n];
  }
}
