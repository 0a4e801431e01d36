/**
  HTTP Basic credentials (section 2 of RFC 7617): every bounded pair sent in a line-initial Authorization header
  and accepted by the server is captured.
 */
module SpoofingHttp {
  import opened Buckets
  import opened StringMatcher
  import opened Spoofing
  import Base64

  /** The client's bytes lead from s to r, within the arrays. */
  ghost predicate Reads(s: Spoofer, bytes: seq<byte>, r: Spoofer) {
    Leads(s, From(SPOOF_CLIENT, bytes), r)
  }

  lemma ReadsNothing(s: Spoofer)
    ensures Reads(s, [], s)
  {}

  lemma ReadsOne(s: Spoofer, b: byte)
    requires !s.currentState.SP_FINISH? && Fits(s, Sent(SPOOF_CLIENT, b))
    ensures Reads(s, [b], Step(s, Sent(SPOOF_CLIENT, b)))
  {
    hide Step, Fits;
    var one := From(SPOOF_CLIENT, [b]);
    assert one == [Sent(SPOOF_CLIENT, b)] && one[1..] == [];
    var s1 := Step(s, one[0]);
    assert Run(s1, one[1..]) == s1 && InBounds(s1, one[1..]);
  }

  lemma ReadsThrough(s: Spoofer, xs: seq<byte>, r: Spoofer, ys: seq<byte>, q: Spoofer)
    requires Reads(s, xs, r) && Reads(r, ys, q)
    ensures Reads(s, xs + ys, q)
  {
    hide Run, InBounds;
    assert From(SPOOF_CLIENT, xs + ys) == From(SPOOF_CLIENT, xs) + From(SPOOF_CLIENT, ys);
    RunSplit(s, From(SPOOF_CLIENT, xs), From(SPOOF_CLIENT, ys));
  }

  /** The first of several bytes. */
  lemma ReadsFirst(s: Spoofer, bytes: seq<byte>, r: Spoofer)
    requires bytes != [] && !s.currentState.SP_FINISH? && Fits(s, Sent(SPOOF_CLIENT, bytes[0]))
    requires Reads(Step(s, Sent(SPOOF_CLIENT, bytes[0])), bytes[1..], r)
    ensures Reads(s, bytes, r)
  {
    hide Step, Fits, Reads;
    ReadsOne(s, bytes[0]);
    ReadsThrough(s, [bytes[0]], Step(s, Sent(SPOOF_CLIENT, bytes[0])), bytes[1..], r);
    assert [bytes[0]] + bytes[1..] == bytes;
  }

  /** Two parsers that the first byte makes equal. */
  lemma ReadsAlike(s: Spoofer, t: Spoofer, bytes: seq<byte>, r: Spoofer)
    requires bytes != [] && Reads(t, bytes, r) && !s.currentState.SP_FINISH? && !t.currentState.SP_FINISH?
    requires Step(s, Sent(SPOOF_CLIENT, bytes[0])) == Step(t, Sent(SPOOF_CLIENT, bytes[0]))
    requires Fits(s, Sent(SPOOF_CLIENT, bytes[0]))
    ensures Reads(s, bytes, r)
  {
    hide Step, Fits;
  }

  predicate AllAscii(bytes: seq<byte>) { forall i :: 0 <= i < |bytes| ==> IsAscii(bytes[i]) }

  predicate AllBlank(bytes: seq<byte>) { forall i :: 0 <= i < |bytes| ==> IsBlank(bytes[i]) }

  /** An HTTP session on its way: nothing stored, nothing found yet. */
  predicate OnTheWay(s: Spoofer, at: SpoofingParserState) {
    && s.currentState == at && !s.success && s.credentialIter == 0
    && |s.username| == CREDENTIAL_ROOM && |s.password| == CREDENTIAL_ROOM && |s.base64Credentials| == BASE64_ROOM
    && (at.SP_CONFIRM_HTTP? || s.protocol.SPOOF_HTTP?)
  }

  // ---------------------------------------------------------------- the request line

  lemma {:induction false} FindsHttp(s: Spoofer, xs: seq<byte>) returns (r: Spoofer)
    requires OnTheWay(s, SP_CONFIRM_HTTP) && s.initialized && s.primary.pattern == HTTP_1
    requires AllAscii(xs) && LF !in xs && FirstMatch(s.primary, xs) == |xs|
    ensures Reads(s, xs, r) && OnTheWay(r, SP_HTTP_SEARCHING_AUTH) && !r.initialized
    decreases |xs|
  {
    hide Reads;
    var e := Sent(SPOOF_CLIENT, xs[0]);
    var s1 := Step(s, e);
    if |xs| == 1 {
      r := s1;
      ReadsNothing(r);
      assert xs[1..] == [];
    } else {
      r := FindsHttp(s1, xs[1..]);
    }
    ReadsFirst(s, xs, r);
  }

  // ---------------------------------------------------------------- the header

  lemma {:induction false} FindsAuthorization(s: Spoofer, xs: seq<byte>) returns (r: Spoofer)
    requires OnTheWay(s, SP_HTTP_SEARCHING_AUTH) && s.initialized
    requires s.primary.pattern == AUTHORIZATION && s.secondary.pattern == CRLFCRLF
    requires AllAscii(xs) && FirstMatch(s.primary, xs) == |xs| && FirstMatch(s.secondary, xs) == |xs| + 1
    ensures Reads(s, xs, r) && OnTheWay(r, SP_HTTP_CONFIRM_BASIC_SCHEME) && !r.initialized && r.ignoreSpaces
    decreases |xs|
  {
    hide Reads;
    var e := Sent(SPOOF_CLIENT, xs[0]);
    var s1 := Step(s, e);
    if |xs| == 1 {
      r := s1;
      ReadsNothing(r);
      assert xs[1..] == [];
    } else {
      r := FindsAuthorization(s1, xs[1..]);
    }
    ReadsFirst(s, xs, r);
  }

  lemma {:induction false} SkipsBlanks(s: Spoofer, xs: seq<byte>)
    requires s.currentState in {SP_HTTP_CONFIRM_BASIC_SCHEME, SP_HTTP_EXTRACTING_CREDENTIALS} && s.ignoreSpaces
             && AllBlank(xs)
    ensures Reads(s, xs, s)
    decreases |xs|
  {
    hide Reads, CredentialsFit;
    if xs == [] {
      ReadsNothing(s);
    } else {
      SkipsBlanks(s, xs[1..]);
      ReadsFirst(s, xs, s);
    }
  }

  /** One character of the scheme. */
  lemma BasicByte(s: Spoofer, b: byte)
    requires OnTheWay(s, SP_HTTP_CONFIRM_BASIC_SCHEME) && s.initialized && !s.ignoreSpaces
    requires s.primary.pattern == BASIC && s.primary.state < |BASIC| && Same(b, BASIC[s.primary.state])
    ensures var e := Sent(SPOOF_CLIENT, b); var r := Step(s, e);
            && Fits(s, e)
            && if s.primary.state + 1 == |BASIC| then
                 OnTheWay(r, SP_HTTP_EXTRACTING_CREDENTIALS) && !r.initialized && r.ignoreSpaces
               else
                 OnTheWay(r, SP_HTTP_CONFIRM_BASIC_SCHEME) && r.initialized && !r.ignoreSpaces
                 && r.primary == Matcher(BASIC, s.primary.state + 1)
  {
    assert IsAscii(b);
    hide Same;
  }

  lemma {:induction false} FindsBasic(s: Spoofer, xs: seq<byte>) returns (r: Spoofer)
    requires OnTheWay(s, SP_HTTP_CONFIRM_BASIC_SCHEME) && s.initialized && !s.ignoreSpaces
    requires s.primary.pattern == BASIC && s.primary.state < |BASIC| && SameText(xs, BASIC[s.primary.state..])
    ensures Reads(s, xs, r) && OnTheWay(r, SP_HTTP_EXTRACTING_CREDENTIALS) && !r.initialized && r.ignoreSpaces
    decreases |xs|
  {
    hide Reads, Step, Fits, Same;
    assert Same(xs[0], BASIC[s.primary.state..][0]);
    BasicByte(s, xs[0]);
    var s1 := Step(s, Sent(SPOOF_CLIENT, xs[0]));
    if |xs| == 1 {
      r := s1;
      ReadsNothing(r);
      assert xs[1..] == [];
    } else {
      assert BASIC[s1.primary.state..] == BASIC[s.primary.state..][1..];
      r := FindsBasic(s1, xs[1..]);
    }
    ReadsFirst(s, xs, r);
  }

  // ---------------------------------------------------------------- the value

  /** The parser after n characters of the value. */
  function Collecting(s: Spoofer, text: seq<byte>): Spoofer
    requires s.credentialIter + |text| <= |s.base64Credentials|
  {
    var n := s.credentialIter;
    s.(base64Credentials := s.base64Credentials[..n] + text + s.base64Credentials[n + |text|..],
       credentialIter := n + |text|, ignoreSpaces := false)
  }

  lemma {:induction false} Collects(s: Spoofer, text: seq<byte>)
    requires s.currentState.SP_HTTP_EXTRACTING_CREDENTIALS? && text != [] && |s.base64Credentials| == BASE64_ROOM
    requires s.credentialIter + |text| <= BASE64_ROOM && forall i :: 0 <= i < |text| ==> IsBase64Char(text[i])
    ensures Reads(s, text, Collecting(s, text))
    decreases |text|
  {
    hide Reads, CredentialsFit, BASE64_ROOM;
    var e := Sent(SPOOF_CLIENT, text[0]);
    var s1 := Step(s, e);
    var n := s.credentialIter;
    if |text| == 1 {
      assert text[1..] == [];
      assert s.base64Credentials[n := text[0]] == s.base64Credentials[..n] + text + s.base64Credentials[n + 1..];
      ReadsNothing(s1);
    } else {
      Collects(s1, text[1..]);
      assert s1.base64Credentials[..n + 1] + text[1..] + s1.base64Credentials[n + |text|..]
          == s.base64Credentials[..n] + text + s.base64Credentials[n + |text|..];
    }
    ReadsFirst(s, text, Collecting(s, text));
  }

  lemma {:induction false} EncodedIsBase64(bytes: seq<byte>)
    ensures forall i :: 0 <= i < |Base64.Encode(bytes)| ==> IsBase64Char(Base64.Encode(bytes)[i])
    decreases |bytes|
  {
    hide Base64.First, Base64.Second, Base64.Third, Base64.Fourth;
    if |bytes| >= 3 { EncodedIsBase64(bytes[3..]); }
  }

  /** The credentials as the client sends them: user, colon, password, in base64 with or without padding. */
  function Credentials(user: seq<byte>, pass: seq<byte>): seq<byte> { user + [COLON] + pass }

  function Value(user: seq<byte>, pass: seq<byte>, trail: bool): seq<byte> {
    var c := Credentials(user, pass);
    Base64.Encode(c) + Base64.Padding(|c|, trail)
  }

  /** A user without a colon, and the longest user and password that the arrays hold. */
  predicate Bounded(user: seq<byte>, pass: seq<byte>) {
    && COLON !in user && |user| <= 255
    && |pass| + |Base64.Extra(|Credentials(user, pass)|)| <= 255
  }

  lemma ValueFits(user: seq<byte>, pass: seq<byte>, trail: bool)
    requires Bounded(user, pass)
    ensures var v := Value(user, pass, trail);
            0 < |v| < BASE64_ROOM && forall i :: 0 <= i < |v| ==> IsBase64Char(v[i])
  {
    assert IsBase64Char(Base64.EQUALS);
    hide Base64.Encode, IsBase64Char;
    var c := Credentials(user, pass);
    Base64.EncodedSize(c, trail);
    Base64.EncodedLength(c);
    EncodedIsBase64(c);
  }

  lemma SplitAtColon(user: seq<byte>, rest: seq<byte>)
    requires COLON !in user
    ensures var d := user + [COLON] + rest;
            FindColon(d) == |user| && d[..|user|] == user && d[|user| + 1..] == rest
  {
    var d := user + [COLON] + rest;
    assert d[|user|] == COLON && forall i :: 0 <= i < |user| ==> d[i] == user[i];
  }

  /** The decoded value splits into the two credentials, with the decoder's extra zero behind the password. */
  lemma ValueDecodes(s: Spoofer, user: seq<byte>, pass: seq<byte>, trail: bool)
    requires Bounded(user, pass) && |s.base64Credentials| == BASE64_ROOM
    requires |s.username| == CREDENTIAL_ROOM && |s.password| == CREDENTIAL_ROOM
    requires var v := Value(user, pass, trail);
             s.credentialIter == |v| < BASE64_ROOM && s.base64Credentials[..|v|] == v
    ensures CredentialsFit(s)
    ensures var d := Decoded(s); var i := FindColon(d);
            i == |user| && d[..i] == user && d[i + 1..] == pass + Base64.Extra(|Credentials(user, pass)|)
  {
    hide Base64.Encode, Base64.Decode, Base64.Text;
    var c := Credentials(user, pass);
    var v := Value(user, pass, trail);
    var rest := s.base64Credentials[|v| + 1..];
    assert Collected(s) == v + [0] + rest;
    Base64.DecodingInvertsEncoding(c, trail, rest);
    Base64.EncodedTextIsAscii(c, trail, rest);
    var d := c + Base64.Extra(|c|);
    assert d == Decoded(s);
    assert d == user + [COLON] + (pass + Base64.Extra(|c|));
    SplitAtColon(user, pass + Base64.Extra(|c|));
  }

  /** The captured pair. */
  predicate HasPair(s: Spoofer, user: seq<byte>, pass: seq<byte>) {
    s.protocol.SPOOF_HTTP? && Holds(s.username, user) && Holds(s.password, pass)
  }

  lemma ExtractsValue(s: Spoofer, user: seq<byte>, pass: seq<byte>, trail: bool, term: byte) returns (r: Spoofer)
    requires OnTheWay(s, SP_HTTP_EXTRACTING_CREDENTIALS) && !s.initialized && Bounded(user, pass) && EndsValue(term)
    ensures Reads(s, Value(user, pass, trail) + [term], r)
    ensures r.currentState.SP_HTTP_CLIENT_CONFIRMATION_CONSUME? && !r.initialized && !r.success
            && HasPair(r, user, pass)
  {
    hide Reads, Value, Bounded, CredentialsFit, Decoded;
    var v := Value(user, pass, trail);
    ValueFits(user, pass, trail);
    Collects(s, v);
    var s1 := Collecting(s, v);
    assert s1.base64Credentials[..|v|] == v;
    ValueDecodes(s1, user, pass, trail);
    r := Extracted(s1);
    assert Step(s1, Sent(SPOOF_CLIENT, term)) == r;
    ReadsOne(s1, term);
    ReadsThrough(s, v, s1, [term], r);
  }

  lemma {:induction false} ConsumesRest(s: Spoofer, xs: seq<byte>)
    requires s.currentState.SP_HTTP_CLIENT_CONFIRMATION_CONSUME?
    ensures Reads(s, xs, s)
    decreases |xs|
  {
    hide Reads;
    if xs == [] {
      ReadsNothing(s);
    } else {
      ConsumesRest(s, xs[1..]);
      ReadsFirst(s, xs, s);
    }
  }

  // ---------------------------------------------------------------- the answer

  /** The comparison still agrees with the text to come. */
  predicate Expects(m: Matcher, word: seq<byte>, xs: seq<byte>) {
    m.pattern == word && m.state < |word| && SameText(xs, word[m.state..])
  }

  /** The answer starts with one of the two accepted status lines. */
  predicate Accepting(s: Spoofer, xs: seq<byte>) {
    && s.currentState.SP_HTTP_CREDENTIAL_CONFIRMATION? && s.initialized
    && s.primary.pattern == HTTP_11_2 && s.secondary.pattern == HTTP_10_2
    && (Expects(s.primary, HTTP_11_2, xs) || Expects(s.secondary, HTTP_10_2, xs))
  }

  lemma ExpectsNext(m: Matcher, word: seq<byte>, xs: seq<byte>)
    requires Expects(m, word, xs)
    ensures var (q, event) := Feed(m, xs[0]);
            xs != [] && (event.STRING_CMP_EQ? || (event.STRING_CMP_MAYEQ? && |xs| > 1 && Expects(q, word, xs[1..])))
  {
    assert Same(xs[0], word[m.state..][0]);
    assert word[m.state + 1..] == word[m.state..][1..];
  }

  lemma ConfirmStep(s: Spoofer, xs: seq<byte>, user: seq<byte>, pass: seq<byte>)
    requires Accepting(s, xs) && HasPair(s, user, pass)
    ensures var s1 := Step(s, Sent(SPOOF_SERVER, xs[0]));
            xs != [] && HasPair(s1, user, pass)
            && ((s1.currentState.SP_FINISH? && s1.success) || (|xs| > 1 && Accepting(s1, xs[1..])))
  {
    hide Expects, Holds;
    assert xs != [] && IsAscii(xs[0]) by { AnswerByte(s, xs); }
    if Expects(s.primary, HTTP_11_2, xs) { ExpectsNext(s.primary, HTTP_11_2, xs); }
    if Expects(s.secondary, HTTP_10_2, xs) { ExpectsNext(s.secondary, HTTP_10_2, xs); }
  }

  lemma AnswerByte(s: Spoofer, xs: seq<byte>)
    requires Accepting(s, xs)
    ensures xs != [] && IsAscii(xs[0])
  {
    if Expects(s.primary, HTTP_11_2, xs) {
      assert Same(xs[0], HTTP_11_2[s.primary.state..][0]);
    } else {
      assert Same(xs[0], HTTP_10_2[s.secondary.state..][0]);
    }
  }

  lemma {:induction false} Confirms(s: Spoofer, xs: seq<byte>, rest: seq<byte>, user: seq<byte>, pass: seq<byte>)
    requires Accepting(s, xs) && HasPair(s, user, pass)
    ensures var sent := From(SPOOF_SERVER, xs + rest); var r := Run(s, sent);
            InBounds(s, sent) && r.currentState.SP_FINISH? && r.success && HasPair(r, user, pass)
    decreases |xs|
  {
    hide HasPair, Step, Expects;
    var sent := From(SPOOF_SERVER, xs + rest);
    ConfirmStep(s, xs, user, pass);
    var s1 := Step(s, sent[0]);
    assert sent[0] == Sent(SPOOF_SERVER, xs[0]) && sent[1..] == From(SPOOF_SERVER, xs[1..] + rest);
    if !s1.currentState.SP_FINISH? { Confirms(s1, xs[1..], rest, user, pass); }
  }

  /** The first byte of the answer sets up the comparison. */
  lemma AnswersAlike(r: Spoofer, t: Spoofer, answer: seq<Sent>)
    requires r.currentState.SP_HTTP_CLIENT_CONFIRMATION_CONSUME? && !r.initialized
    requires t == Armed2(Goto(r, SP_HTTP_CREDENTIAL_CONFIRMATION), HTTP_11_2, HTTP_10_2)
    requires answer != [] && answer[0].sender.SPOOF_SERVER? && IsAscii(answer[0].byte)
    ensures InBounds(t, answer) ==> InBounds(r, answer) && Run(r, answer) == Run(t, answer)
  {
    hide Feed;
    assert Step(r, answer[0]) == Step(t, answer[0]);
  }

  /** The answer to a request whose credentials are stored. */
  lemma AnswerConfirms(r: Spoofer, status: seq<byte>, more: seq<byte>, user: seq<byte>, pass: seq<byte>)
    requires r.currentState.SP_HTTP_CLIENT_CONFIRMATION_CONSUME? && !r.initialized && HasPair(r, user, pass)
    requires SameText(status, HTTP_11_2) || SameText(status, HTTP_10_2)
    ensures var answer := From(SPOOF_SERVER, status + more); var q := Run(r, answer);
            InBounds(r, answer) && q.currentState.SP_FINISH? && q.success && HasPair(q, user, pass)
  {
    hide Holds, InBounds, Run;
    var t := Armed2(Goto(r, SP_HTTP_CREDENTIAL_CONFIRMATION), HTTP_11_2, HTTP_10_2);
    assert HTTP_11_2[0..] == HTTP_11_2 && HTTP_10_2[0..] == HTTP_10_2;
    Confirms(t, status, more, user, pass);
    AnswerByte(t, status);
    AnswersAlike(r, t, From(SPOOF_SERVER, status + more));
  }

  // ---------------------------------------------------------------- the whole exchange

  /** The pattern occurs somewhere in the text, ignoring case. */
  predicate Occurs(text: seq<byte>, pattern: seq<byte>) {
    exists k :: 0 <= k <= |text| && EndsWith(text[..k], pattern)
  }

  /**
    A request up to its Authorization header: ASCII, the version on the first line after a byte foreign to it (a
    space, say), and neither another such header nor the end of the headers before.
   */
  predicate Head(head: seq<byte>, i: nat, version: seq<byte>) {
    && AllAscii(head) && SameText(version, HTTP_1) && i + 1 + |version| <= |head|
    && Foreign(head[i], HTTP_1) && head[i + 1..i + 1 + |version|] == version
    && LF !in head[..i + 1]
    && !Occurs(head + [LF], AUTHORIZATION) && !Occurs(head + [LF], CRLFCRLF)
  }

  lemma FindsVersion(s: Spoofer, head: seq<byte>, i: nat, version: seq<byte>) returns (k: nat, r: Spoofer)
    requires Initial(s) && Head(head, i, version)
    ensures 0 < k <= |head| && Reads(s, head[..k], r) && OnTheWay(r, SP_HTTP_SEARCHING_AUTH) && !r.initialized
  {
    hide Reads;
    var t := Armed1(Goto(s, SP_CONFIRM_HTTP), HTTP_1);
    var line := head[..i] + [head[i]] + version;
    assert head[..i + 1 + |version|] == line;
    OccurrenceAfterForeignIsFound(t.primary, head[..i], head[i], version, []);
    assert line + [] == line;
    k := FirstMatch(t.primary, line);
    NoLineFeed(version);
    FirstMatchOfPrefix(t.primary, line, k);
    assert head[..k] == line[..k];
    r := FindsHttp(t, line[..k]);
    ReadsAlike(s, t, head[..k], r);
  }

  lemma NoLineFeed(version: seq<byte>)
    requires SameText(version, HTTP_1)
    ensures LF !in version
  {}

  /** A match depends only on the bytes up to it. */
  lemma {:induction false} FirstMatchOfPrefix(m: Matcher, xs: seq<byte>, k: nat)
    requires k == FirstMatch(m, xs) <= |xs|
    ensures FirstMatch(m, xs[..k]) == k
    decreases |xs|
  {
    assert xs[..k][0] == xs[0] && xs[..k][1..] == xs[1..][..k - 1];
    if !Scan(m, xs[0]).1 { FirstMatchOfPrefix(Scan(m, xs[0]).0, xs[1..], k - 1); }
  }

  /** An early match of a pattern in the rest of the head is an occurrence. */
  lemma EarlyMatchOccurs(head: seq<byte>, k: nat, more: seq<byte>, pattern: seq<byte>)
    requires 0 < |pattern| && k <= |head|
    ensures FirstMatch(Start(pattern), head[k..] + more) <= |head| - k ==> Occurs(head, pattern)
  {
    var all := head[k..] + more;
    MatchIsOccurrence(Start(pattern), [], all);
    var n := FirstMatch(Start(pattern), all);
    if n <= |head| - k {
      assert [] + all[..n] == head[k..k + n];
      assert head[..k] + head[k..k + n] == head[..k + n];
      Suffix(head[..k], head[k..k + n], pattern);
    }
  }

  lemma Suffix(front: seq<byte>, text: seq<byte>, pattern: seq<byte>)
    requires EndsWith(text, pattern)
    ensures EndsWith(front + text, pattern)
  {
    var n := |pattern|;
    forall i | 0 <= i < n
      ensures Same((front + text)[|front + text| - n + i], pattern[i])
    {
      assert (front + text)[|front| + (|text| - n + i)] == text[|text| - n + i];
    }
  }

  /** The header is found at its last byte, and the end of the headers is not. */
  lemma HeaderMatches(head: seq<byte>, k: nat, auth: seq<byte>)
    requires k <= |head| && SameText(auth, AUTHORIZATION)
    requires !Occurs(head + [LF], AUTHORIZATION) && !Occurs(head + [LF], CRLFCRLF)
    ensures var xs := (head + [LF])[k..] + auth;
            FirstMatch(Start(AUTHORIZATION), xs) == |xs| && FirstMatch(Start(CRLFCRLF), xs) == |xs| + 1
  {
    var h := head + [LF];
    var xs := h[k..] + auth;
    OccurrenceAfterForeignIsFound(Start(AUTHORIZATION), head[k..], LF, auth, []);
    assert head[k..] + [LF] + auth + [] == xs;
    var n := FirstMatch(Start(AUTHORIZATION), xs);
    EarlyMatchOccurs(h, k, auth, AUTHORIZATION);
    var e := FirstMatch(Start(CRLFCRLF), xs);
    EarlyMatchOccurs(h, k, auth, CRLFCRLF);
    MatchIsOccurrence(Start(CRLFCRLF), [], xs);
    LastOfMatch(xs, if e <= |xs| then e else |xs|);
    NoLineFeedInHeader(auth);
  }

  lemma NoLineFeedInHeader(auth: seq<byte>)
    requires SameText(auth, AUTHORIZATION)
    ensures forall i :: 0 <= i < |auth| ==> auth[i] != LF
  {}

  lemma LastOfMatch(xs: seq<byte>, e: nat)
    requires 0 < e <= |xs|
    ensures EndsWith([] + xs[..e], CRLFCRLF) ==> xs[e - 1] == LF
  {
    var t := [] + xs[..e];
    if EndsWith(t, CRLFCRLF) { assert Same(t[|t| - 4 + 3], CRLFCRLF[3]); }
  }

  lemma AuthorizationByte(auth: seq<byte>, i: nat)
    requires SameText(auth, AUTHORIZATION) && i < |auth|
    ensures IsAscii(auth[i])
  {}

  lemma FindsHeader(s: Spoofer, head: seq<byte>, k: nat, auth: seq<byte>) returns (r: Spoofer)
    requires OnTheWay(s, SP_HTTP_SEARCHING_AUTH) && !s.initialized && AllAscii(head) && k <= |head|
    requires SameText(auth, AUTHORIZATION)
    requires !Occurs(head + [LF], AUTHORIZATION) && !Occurs(head + [LF], CRLFCRLF)
    ensures Reads(s, (head + [LF])[k..] + auth, r)
    ensures OnTheWay(r, SP_HTTP_CONFIRM_BASIC_SCHEME) && !r.initialized && r.ignoreSpaces
  {
    hide Reads, Occurs, FirstMatch, SameText;
    var xs := (head + [LF])[k..] + auth;
    HeaderMatches(head, k, auth);
    var t := Armed2(s, AUTHORIZATION, CRLFCRLF);
    forall i | 0 <= i < |xs|
      ensures IsAscii(xs[i])
    {
      if i >= |head| + 1 - k { AuthorizationByte(auth, i - (|head| + 1 - k)); }
    }
    r := FindsAuthorization(t, xs);
    ReadsAlike(s, t, xs, r);
  }

  lemma FindsScheme(s: Spoofer, blanks: seq<byte>, scheme: seq<byte>) returns (r: Spoofer)
    requires OnTheWay(s, SP_HTTP_CONFIRM_BASIC_SCHEME) && !s.initialized && s.ignoreSpaces
    requires AllBlank(blanks) && SameText(scheme, BASIC)
    ensures Reads(s, blanks + scheme, r) && OnTheWay(r, SP_HTTP_EXTRACTING_CREDENTIALS) && !r.initialized
            && r.ignoreSpaces
  {
    hide Reads;
    SkipsBlanks(s, blanks);
    var t := Armed1(s.(ignoreSpaces := false), BASIC);
    assert BASIC[0..] == BASIC;
    r := FindsBasic(t, scheme);
    assert Same(scheme[0], BASIC[0]) && !IsBlank(scheme[0]);
    ReadsAlike(s, t, scheme, r);
    ReadsThrough(s, blanks, s, scheme, r);
  }

  /** The client's half of an exchange. */
  datatype Request = Request(
    head: seq<byte>, at: nat, version: seq<byte>, header: seq<byte>, blanks1: seq<byte>, scheme: seq<byte>,
    blanks2: seq<byte>, trail: bool, term: byte, rest: seq<byte>)

  predicate ValidRequest(q: Request) {
    && Head(q.head, q.at, q.version) && SameText(q.header, AUTHORIZATION) && SameText(q.scheme, BASIC)
    && AllBlank(q.blanks1) && AllBlank(q.blanks2) && EndsValue(q.term)
  }

  function RequestBytes(q: Request, user: seq<byte>, pass: seq<byte>): seq<byte> {
    (q.head + [LF] + q.header) + (q.blanks1 + q.scheme) + q.blanks2 + (Value(user, pass, q.trail) + [q.term]) + q.rest
  }

  lemma ReadsRequest(s: Spoofer, q: Request, user: seq<byte>, pass: seq<byte>) returns (r: Spoofer)
    requires Initial(s) && ValidRequest(q) && Bounded(user, pass)
    ensures Reads(s, RequestBytes(q, user, pass), r)
    ensures r.currentState.SP_HTTP_CLIENT_CONFIRMATION_CONSUME? && !r.initialized && !r.success
            && HasPair(r, user, pass)
  {
    hide Reads, Value, Bounded, HasPair, SameText, OnTheWay, Occurs;
    var k, s1 := FindsVersion(s, q.head, q.at, q.version);
    var s2 := FindsHeader(s1, q.head, k, q.header);
    var h := q.head + [LF];
    ReadsThrough(s, q.head[..k], s1, h[k..] + q.header, s2);
    assert q.head[..k] + (h[k..] + q.header) == h + q.header;
    var s3 := FindsScheme(s2, q.blanks1, q.scheme);
    ReadsThrough(s, h + q.header, s2, q.blanks1 + q.scheme, s3);
    IsExtracting(s3);
    SkipsBlanks(s3, q.blanks2);
    ReadsThrough(s, h + q.header + (q.blanks1 + q.scheme), s3, q.blanks2, s3);
    r := ExtractsValue(s3, user, pass, q.trail, q.term);
    ReadsThrough(s, h + q.header + (q.blanks1 + q.scheme) + q.blanks2, s3, Value(user, pass, q.trail) + [q.term], r);
    ConsumesRest(r, q.rest);
    ReadsThrough(s, h + q.header + (q.blanks1 + q.scheme) + q.blanks2 + (Value(user, pass, q.trail) + [q.term]), r,
                 q.rest, r);
  }

  lemma IsExtracting(s: Spoofer)
    requires OnTheWay(s, SP_HTTP_EXTRACTING_CREDENTIALS)
    ensures s.currentState.SP_HTTP_EXTRACTING_CREDENTIALS?
  {}

  /**
    HTTP Basic capture is complete and exact: whatever bounded user and password the client sends in such a
    request, an answer that starts with HTTP/1.1 2 or HTTP/1.0 2 makes the capture succeed with that pair.
   */
  lemma HttpCaptureIsComplete(s: Spoofer, q: Request, user: seq<byte>, pass: seq<byte>, status: seq<byte>,
                              more: seq<byte>)
    requires Initial(s) && ValidRequest(q) && Bounded(user, pass)
    requires SameText(status, HTTP_11_2) || SameText(status, HTTP_10_2)
    ensures var sent := From(SPOOF_CLIENT, RequestBytes(q, user, pass)) + From(SPOOF_SERVER, status + more);
            var r := Run(s, sent);
            InBounds(s, sent) && r.success && r.protocol.SPOOF_HTTP? && Holds(r.username, user)
            && Holds(r.password, pass)
  {
    hide Initial, ValidRequest, Bounded, RequestBytes, Holds, InBounds, Run;
    var r := ReadsRequest(s, q, user, pass);
    RunSplit(s, From(SPOOF_CLIENT, RequestBytes(q, user, pass)), From(SPOOF_SERVER, status + more));
    AnswerConfirms(r, status, more, user, pass);
  }
}
