/**
  The credential observer as the source keeps it: arrays written in place and two embedded string parsers.
 */
module SpoofingParsers {
  import opened Buckets
  import opened StringMatcher
  import opened Spoofing
  import ByteParsers
  import Base64

  lemma NotHttp(s: Spoofer, e: Sent)
    requires e.sender.SPOOF_SERVER? || !IsAscii(e.byte)
    ensures ConfirmHttp(s, e) == Stop(s)
  {}

  /** Setting up the comparison first makes no difference. */
  lemma ArmedAlready(s: Spoofer, b: byte)
    requires IsAscii(b)
    ensures Armed1(s, HTTP_1).initialized
    ensures ConfirmHttp(Armed1(s, HTTP_1), Sent(SPOOF_CLIENT, b)) == ConfirmHttp(s, Sent(SPOOF_CLIENT, b))
  {}

  lemma FeedKeepsPattern(s: Spoofer, b: byte)
    ensures Fed2(s, b).primary.pattern == s.primary.pattern && Fed2(s, b).secondary.pattern == s.secondary.pattern
  {}

  class SpoofingParser {
    var currentState: SpoofingParserState
    var success: bool
    var protocol: Protocol
    const username: array<byte>
    const password: array<byte>
    const base64Credentials: array<byte>
    var areStringParsersInitialized: bool
    var primaryStringParser: StringParser
    var secondaryStringParser: StringParser
    var credentialIter: nat
    var ignoreSpaces: bool
    /** The decoder's static state. */
    const codec: Base64.Codec

    ghost function Repr(): set<object>
      reads this
    {
      {this, username, password, base64Credentials, primaryStringParser, primaryStringParser.states,
       primaryStringParser.statesN, secondaryStringParser, secondaryStringParser.states, secondaryStringParser.statesN,
       codec, codec.decodingTable}
    }

    ghost predicate Valid()
      reads this, Repr()
    {
      && username.Length == CREDENTIAL_ROOM && password.Length == CREDENTIAL_ROOM
      && base64Credentials.Length == BASE64_ROOM
      && username != password && username != base64Credentials && password != base64Credentials
      && primaryStringParser != secondaryStringParser
      && primaryStringParser.Valid() && secondaryStringParser.Valid() && codec.Valid()
    }

    ghost function View(): Spoofer
      reads this, Repr()
    {
      Spoofer(currentState, success, protocol, username[..], password[..], base64Credentials[..],
              areStringParsersInitialized, primaryStringParser.View(), secondaryStringParser.View(),
              credentialIter, ignoreSpaces)
    }

    /** The string parsers hold anything before their first use, and the decoder is shared. */
    constructor (primary: StringParser, secondary: StringParser, decoder: Base64.Codec)
      requires primary != secondary && primary.Valid() && secondary.Valid() && decoder.Valid()
      ensures Valid() && Initial(View()) && fresh({this, username, password, base64Credentials})
      ensures primaryStringParser == primary && secondaryStringParser == secondary && codec == decoder
    {
      hide Row, HoldsRow, Base64.Value, Base64.Char;
      username, password, base64Credentials := new byte[CREDENTIAL_ROOM], new byte[CREDENTIAL_ROOM],
      new byte[BASE64_ROOM];
      primaryStringParser, secondaryStringParser, codec := primary, secondary, decoder;
      protocol := SPOOF_POP;
      currentState, success, areStringParsersInitialized := SP_INIT, false, false;
      credentialIter, ignoreSpaces := 0, false;
    }

    /** spoofing_parser_init, for a parser used before. */
    method Init()
      requires Valid()
      modifies this
      ensures Valid() && Initial(View()) && Repr() == old(Repr())
    {
      currentState, success, areStringParsersInitialized := SP_INIT, false, false;
      credentialIter, ignoreSpaces := 0, false;
    }

    // -------------------------------------------------------------- string parsers

    method InitStringParser(pattern: seq<byte>)
      requires Valid() && |pattern| + 2 <= MAX_STATES
      modifies this
      ensures Valid() && View() == Armed1(old(View()), pattern) && fresh(Repr() - old(Repr()))
    {
      if !areStringParsersInitialized {
        primaryStringParser := new StringParser(pattern);
        areStringParsersInitialized := true;
      }
    }

    method InitStringParsers(first: seq<byte>, second: seq<byte>)
      requires Valid() && |first| + 2 <= MAX_STATES && |second| + 2 <= MAX_STATES
      modifies this
      ensures Valid() && View() == Armed2(old(View()), first, second) && fresh(Repr() - old(Repr()))
    {
      if !areStringParsersInitialized {
        var p := new StringParser(first);
        var q := new StringParser(second);
        primaryStringParser, secondaryStringParser := p, q;
        areStringParsersInitialized := true;
      }
    }

    method FeedPrimary(b: byte) returns (event: EventType)
      requires Valid()
      modifies primaryStringParser
      ensures Valid() && View() == Fed1(old(View()), b) && event == Feed(old(View()).primary, b).1
    {
      primaryStringParser.FeedByte(b);
      event := primaryStringParser.event;
    }

    method FeedBoth(b: byte) returns (first: EventType, second: EventType)
      requires Valid()
      modifies primaryStringParser, secondaryStringParser
      ensures Valid() && View() == Fed2(old(View()), b)
      ensures first == Feed(old(View()).primary, b).1 && second == Feed(old(View()).secondary, b).1
    {
      primaryStringParser.FeedByte(b);
      secondaryStringParser.FeedByte(b);
      first, second := primaryStringParser.event, secondaryStringParser.event;
    }

    method SetState(state: SpoofingParserState)
      requires Valid()
      modifies this
      ensures Valid() && View() == Goto(old(View()), state) && Repr() == old(Repr())
    {
      hide Row, HoldsRow, Base64.Value;
      currentState := state;
    }

    /** Set up on the first byte of a comparison, then feed. */
    method Compare(pattern: seq<byte>, b: byte) returns (event: EventType)
      requires Valid() && |pattern| + 2 <= MAX_STATES
      modifies Repr()
      ensures Valid() && View() == Fed1(Armed1(old(View()), pattern), b) && fresh(Repr() - old(Repr()))
      ensures event == Feed(Armed1(old(View()), pattern).primary, b).1
    {
      hide Feed, Armed1, Fed1, Row, HoldsRow, Base64.Value;
      InitStringParser(pattern);
      event := FeedPrimary(b);
    }

    method CompareBoth(pattern1: seq<byte>, pattern2: seq<byte>, b: byte) returns (event1: EventType, event2: EventType)
      requires Valid() && |pattern1| + 2 <= MAX_STATES && |pattern2| + 2 <= MAX_STATES
      modifies Repr()
      ensures Valid() && View() == Fed2(Armed2(old(View()), pattern1, pattern2), b) && fresh(Repr() - old(Repr()))
      ensures event1 == Feed(Armed2(old(View()), pattern1, pattern2).primary, b).1
      ensures event2 == Feed(Armed2(old(View()), pattern1, pattern2).secondary, b).1
    {
      hide Feed, Armed2, Fed2, Row, HoldsRow, Base64.Value;
      InitStringParsers(pattern1, pattern2);
      event1, event2 := FeedBoth(b);
    }

    method Finish()
      requires Valid()
      modifies this`currentState
      ensures Valid() && View() == Stop(old(View())) && Repr() == old(Repr())
    {
      hide Row, HoldsRow, Base64.Value;
      currentState := SP_FINISH;
    }

    method EndComparison(next: SpoofingParserState)
      requires Valid()
      modifies this`areStringParsersInitialized, this`currentState
      ensures Valid() && View() == Compared(old(View()), next) && Repr() == old(Repr())
    {
      hide Row, HoldsRow, Base64.Value;
      areStringParsersInitialized := false;
      currentState := next;
    }

    method Recognise(p: Protocol, next: SpoofingParserState)
      requires Valid()
      modifies this`areStringParsersInitialized, this`protocol, this`currentState
      ensures Valid() && View() == Compared(old(View()).(protocol := p), next) && Repr() == old(Repr())
    {
      hide Row, HoldsRow, Base64.Value;
      protocol := p;
      areStringParsersInitialized := false;
      currentState := next;
    }

    method Succeed()
      requires Valid()
      modifies this`areStringParsersInitialized, this`success, this`currentState
      ensures Valid() && View() == Compared(old(View()).(success := true), SP_FINISH) && Repr() == old(Repr())
    {
      hide Row, HoldsRow, Base64.Value;
      areStringParsersInitialized := false;
      success := true;
      currentState := SP_FINISH;
    }

    // -------------------------------------------------------------- POP3

    method StateConfirmPop(sender: Sender, b: byte)
      requires Valid()
      modifies Repr()
      ensures Valid() && View() == ConfirmPop(old(View()), Sent(sender, b)) && fresh(Repr() - old(Repr()))
    {
      hide Feed, Armed1, Fed1, Row, HoldsRow, Base64.Value, Valid, View;
      if sender == SPOOF_CLIENT || !IsAscii(b) {
        Finish();
        return;
      }
      var event := Compare(PLUS_OK, b);
      if event == STRING_CMP_EQ {
        Recognise(SPOOF_POP, SP_POP_USER_SERVER_CONSUME);
      } else if event == STRING_CMP_NEQ {
        Finish();
      }
    }

    method StateCheckingUser(sender: Sender, b: byte)
      requires Valid()
      modifies Repr()
      ensures Valid() && View() == CheckingUser(old(View()), Sent(sender, b)) && fresh(Repr() - old(Repr()))
    {
      hide Feed, Armed1, Fed1, Row, HoldsRow, Base64.Value, Valid, View;
      if !IsAscii(b) {
        Finish();
        return;
      }
      if sender == SPOOF_SERVER {
        EndComparison(SP_POP_USER_SERVER_CONSUME);
        return;
      }
      var event := Compare(USER, b);
      if event == STRING_CMP_EQ {
        EndComparison(SP_POP_EXTRACTING_USER);
      } else if event == STRING_CMP_NEQ {
        EndComparison(SP_POP_USER_CLIENT_CONSUME);
      }
    }

    method StateUserServerConsume(sender: Sender, b: byte)
      requires Valid()
      modifies Repr()
      ensures Valid() && View() == UserServerConsume(old(View()), Sent(sender, b)) && fresh(Repr() - old(Repr()))
    {
      hide CheckingUser, Row, HoldsRow, Base64.Value;
      if sender != SPOOF_SERVER {
        currentState := SP_POP_CHECKING_USER;
        StateCheckingUser(sender, b);
      }
    }

    method StateUserClientConsume(sender: Sender, b: byte)
      requires Valid()
      modifies Repr()
      ensures Valid() && View() == UserClientConsume(old(View()), Sent(sender, b)) && fresh(Repr() - old(Repr()))
    {
      hide CheckingUser, Row, HoldsRow, Base64.Value;
      if sender != SPOOF_CLIENT {
        currentState := SP_POP_USER_SERVER_CONSUME;
        StateUserServerConsume(sender, b);
      }
    }

    method StateExtractingUser(sender: Sender, b: byte)
      requires Valid() && currentState.SP_POP_EXTRACTING_USER? && Fits(View(), Sent(sender, b))
      modifies this, username
      ensures Valid() && View() == ExtractingUser(old(View()), Sent(sender, b)) && Repr() == old(Repr())
    {
      hide Row, HoldsRow, Base64.Value;
      if sender == SPOOF_SERVER || !IsAscii(b) {
        currentState := SP_FINISH;
      } else if b == CR {
      } else if b == LF {
        username[credentialIter] := 0;
        credentialIter := 0;
        currentState := SP_POP_CHECKING_USER_RESPONSE;
      } else {
        username[credentialIter] := b;
        credentialIter := credentialIter + 1;
      }
    }

    method StateCheckingUserResponse(sender: Sender, b: byte)
      requires Valid()
      modifies this
      ensures Valid() && View() == CheckingUserResponse(old(View()), Sent(sender, b)) && Repr() == old(Repr())
    {
      hide Row, HoldsRow, Base64.Value;
      if sender == SPOOF_CLIENT || !IsAscii(b) {
        currentState := SP_FINISH;
      } else if b == PLUS {
        currentState := SP_POP_PASS_SERVER_CONSUME;
      } else if b == MINUS {
        currentState := SP_POP_USER_SERVER_CONSUME;
      } else {
        currentState := SP_FINISH;
      }
    }

    method StateCheckingPass(sender: Sender, b: byte)
      requires Valid()
      modifies Repr()
      ensures Valid() && View() == CheckingPass(old(View()), Sent(sender, b)) && fresh(Repr() - old(Repr()))
    {
      hide Feed, Armed2, Fed2, Row, HoldsRow, Base64.Value, Valid, View;
      if !IsAscii(b) {
        Finish();
        return;
      }
      if sender == SPOOF_SERVER {
        EndComparison(SP_POP_PASS_SERVER_CONSUME);
        return;
      }
      var passEvent, userEvent := CompareBoth(PASS, USER, b);
      if passEvent == STRING_CMP_EQ {
        EndComparison(SP_POP_EXTRACTING_PASS);
      } else if userEvent == STRING_CMP_EQ {
        EndComparison(SP_POP_EXTRACTING_USER);
      } else if passEvent == STRING_CMP_NEQ && userEvent == STRING_CMP_NEQ {
        EndComparison(SP_POP_PASS_CLIENT_CONSUME);
      }
    }

    method StatePassServerConsume(sender: Sender, b: byte)
      requires Valid()
      modifies Repr()
      ensures Valid() && View() == PassServerConsume(old(View()), Sent(sender, b)) && fresh(Repr() - old(Repr()))
    {
      hide CheckingPass, Row, HoldsRow, Base64.Value;
      if sender != SPOOF_SERVER {
        currentState := SP_POP_CHECKING_PASS;
        StateCheckingPass(sender, b);
      }
    }

    method StatePassClientConsume(sender: Sender, b: byte)
      requires Valid()
      modifies Repr()
      ensures Valid() && View() == PassClientConsume(old(View()), Sent(sender, b)) && fresh(Repr() - old(Repr()))
    {
      hide CheckingPass, Row, HoldsRow, Base64.Value;
      if sender != SPOOF_CLIENT {
        currentState := SP_POP_PASS_SERVER_CONSUME;
        StatePassServerConsume(sender, b);
      }
    }

    method StateExtractingPass(sender: Sender, b: byte)
      requires Valid() && currentState.SP_POP_EXTRACTING_PASS? && Fits(View(), Sent(sender, b))
      modifies this, password
      ensures Valid() && View() == ExtractingPass(old(View()), Sent(sender, b)) && Repr() == old(Repr())
    {
      hide Row, HoldsRow, Base64.Value;
      if sender == SPOOF_SERVER || !IsAscii(b) {
        currentState := SP_FINISH;
      } else if b == CR {
      } else if b == LF {
        password[credentialIter] := 0;
        credentialIter := 0;
        currentState := SP_POP_CHECKING_PASS_RESPONSE;
      } else {
        password[credentialIter] := b;
        credentialIter := credentialIter + 1;
      }
    }

    method StateCheckingPassResponse(sender: Sender, b: byte)
      requires Valid()
      modifies this
      ensures Valid() && View() == CheckingPassResponse(old(View()), Sent(sender, b)) && Repr() == old(Repr())
    {
      hide Row, HoldsRow, Base64.Value;
      if sender == SPOOF_CLIENT || !IsAscii(b) {
        currentState := SP_FINISH;
      } else if b == PLUS {
        success := true;
        currentState := SP_FINISH;
      } else if b == MINUS {
        currentState := SP_POP_USER_SERVER_CONSUME;
      } else {
        currentState := SP_FINISH;
      }
    }

    // -------------------------------------------------------------- HTTP

    method RestartPrimary()
      requires Valid()
      modifies primaryStringParser
      ensures Valid() && View() == old(View()).(primary := Start(old(View()).primary.pattern))
    {
      primaryStringParser.Reset();
    }

    method RestartSecondary()
      requires Valid()
      modifies secondaryStringParser
      ensures Valid() && View() == old(View()).(secondary := Start(old(View()).secondary.pattern))
    {
      secondaryStringParser.Reset();
    }

    /** Each comparison that failed starts again. */
    method Restart(event1: EventType, event2: EventType)
      requires Valid()
      modifies primaryStringParser, secondaryStringParser
      ensures Valid()
      ensures var s := old(View());
              View() == s.(primary := if event1.STRING_CMP_NEQ? then Start(s.primary.pattern) else s.primary,
                           secondary := if event2.STRING_CMP_NEQ? then Start(s.secondary.pattern) else s.secondary)
    {
      if event1 == STRING_CMP_NEQ {
        RestartPrimary();
      }
      if event2 == STRING_CMP_NEQ {
        RestartSecondary();
      }
    }

    /** What the comparison of a byte of the first line leads to. */
    method VersionSearched(event: EventType)
      requires Valid()
      modifies this`areStringParsersInitialized, this`protocol, this`currentState, primaryStringParser
      ensures Valid() && Repr() == old(Repr())
      ensures var s := old(View());
              View() == if event.STRING_CMP_EQ? then Compared(s.(protocol := SPOOF_HTTP), SP_HTTP_SEARCHING_AUTH)
                        else if event.STRING_CMP_NEQ? then s.(primary := Start(s.primary.pattern))
                        else s
    {
      hide Row, HoldsRow, Base64.Value;
      if event == STRING_CMP_EQ {
        Recognise(SPOOF_HTTP, SP_HTTP_SEARCHING_AUTH);
      } else if event == STRING_CMP_NEQ {
        RestartPrimary();
      }
    }

    method VersionByte(b: byte)
      requires Valid() && View().initialized && IsAscii(b)
      modifies Repr()
      ensures Valid() && View() == ConfirmHttp(old(View()), Sent(SPOOF_CLIENT, b)) && fresh(Repr() - old(Repr()))
    {
      hide Row, HoldsRow, Base64.Value, Feed, Valid, View;
      if b == LF {
        Finish();
        return;
      }
      FeedKeepsPattern(View(), b);
      var event := FeedPrimary(b);
      VersionSearched(event);
    }

    method StateConfirmHttp(sender: Sender, b: byte)
      requires Valid()
      modifies Repr()
      ensures Valid() && View() == ConfirmHttp(old(View()), Sent(sender, b)) && fresh(Repr() - old(Repr()))
    {
      hide Row, HoldsRow, Base64.Value, ConfirmHttp, Armed1, Valid, View;
      if sender == SPOOF_SERVER || !IsAscii(b) {
        NotHttp(View(), Sent(sender, b));
        Finish();
        return;
      }
      ghost var s0 := View();
      InitStringParser(HTTP_1);
      ArmedAlready(s0, b);
      VersionByte(b);
    }

    /** What the two comparisons of a byte lead to. */
    method Searched(found: EventType, notFound: EventType)
      requires Valid()
      modifies this`areStringParsersInitialized, this`ignoreSpaces, this`currentState,
               primaryStringParser, secondaryStringParser
      ensures Valid() && Repr() == old(Repr())
      ensures var s := old(View());
              View() ==
                if found.STRING_CMP_EQ? then Compared(s.(ignoreSpaces := true), SP_HTTP_CONFIRM_BASIC_SCHEME)
                else if notFound.STRING_CMP_EQ? then Stop(s)
                else s.(primary := if found.STRING_CMP_NEQ? then Start(s.primary.pattern) else s.primary,
                        secondary := if notFound.STRING_CMP_NEQ? then Start(s.secondary.pattern) else s.secondary)
    {
      hide Row, HoldsRow, Base64.Value;
      if found == STRING_CMP_EQ {
        areStringParsersInitialized := false;
        ignoreSpaces := true;
        currentState := SP_HTTP_CONFIRM_BASIC_SCHEME;
        return;
      }
      if notFound == STRING_CMP_EQ {
        currentState := SP_FINISH;
        return;
      }
      Restart(found, notFound);
    }

    method SearchByte(b: byte)
      requires Valid() && IsAscii(b)
      modifies Repr()
      ensures Valid() && View() == SearchingAuth(old(View()), Sent(SPOOF_CLIENT, b)) && fresh(Repr() - old(Repr()))
    {
      hide Row, HoldsRow, Base64.Value, Feed, Armed2, Valid, View;
      FeedKeepsPattern(Armed2(View(), AUTHORIZATION, CRLFCRLF), b);
      var foundEvent, notFoundEvent := CompareBoth(AUTHORIZATION, CRLFCRLF, b);
      Searched(foundEvent, notFoundEvent);
    }

    method StateSearchingAuth(sender: Sender, b: byte)
      requires Valid()
      modifies Repr()
      ensures Valid() && View() == SearchingAuth(old(View()), Sent(sender, b)) && fresh(Repr() - old(Repr()))
    {
      hide Row, HoldsRow, Base64.Value, Feed, Armed2, Fed2, Valid, View;
      if sender == SPOOF_SERVER || !IsAscii(b) {
        Finish();
        return;
      }
      SearchByte(b);
    }

    method StopIgnoringSpaces()
      requires Valid()
      modifies this`ignoreSpaces
      ensures Valid() && View() == old(View()).(ignoreSpaces := false) && Repr() == old(Repr())
    {
      hide Row, HoldsRow, Base64.Value;
      ignoreSpaces := false;
    }

    method CompareScheme(b: byte)
      requires Valid()
      modifies Repr()
      ensures Valid() && View() == SchemeByte(old(View()), b) && fresh(Repr() - old(Repr()))
    {
      hide Feed, Armed1, Fed1, Row, HoldsRow, Base64.Value;
      var event := Compare(BASIC, b);
      if event == STRING_CMP_EQ {
        areStringParsersInitialized := false;
        ignoreSpaces := true;
        currentState := SP_HTTP_EXTRACTING_CREDENTIALS;
      } else if event == STRING_CMP_NEQ {
        currentState := SP_FINISH;
      }
    }

    method StateConfirmBasicScheme(sender: Sender, b: byte)
      requires Valid()
      modifies Repr()
      ensures Valid() && View() == ConfirmBasicScheme(old(View()), Sent(sender, b)) && fresh(Repr() - old(Repr()))
    {
      assert View().ignoreSpaces == ignoreSpaces;
      hide SchemeByte, Row, HoldsRow, Base64.Value, Valid, View, IsBlank;
      if sender == SPOOF_SERVER || !IsAscii(b) {
        SetState(SP_FINISH);
        return;
      }
      if ignoreSpaces && IsBlank(b) {
        return;
      }
      StopIgnoringSpaces();
      CompareScheme(b);
    }

    method StateCredentialConfirmation(sender: Sender, b: byte)
      requires Valid()
      modifies Repr()
      ensures Valid() && View() == CredentialConfirmation(old(View()), Sent(sender, b)) && fresh(Repr() - old(Repr()))
    {
      hide Feed, Armed2, Fed2, Row, HoldsRow, Base64.Value, Valid, View;
      if sender == SPOOF_CLIENT || !IsAscii(b) {
        Finish();
        return;
      }
      var event1, event0 := CompareBoth(HTTP_11_2, HTTP_10_2, b);
      if event1 == STRING_CMP_EQ || event0 == STRING_CMP_EQ {
        Succeed();
      } else if event1 == STRING_CMP_NEQ && event0 == STRING_CMP_NEQ {
        Finish();
      }
    }

    method StateClientConfirmationConsume(sender: Sender, b: byte)
      requires Valid()
      modifies Repr()
      ensures Valid() && View() == ClientConfirmationConsume(old(View()), Sent(sender, b))
              && fresh(Repr() - old(Repr()))
    {
      hide CredentialConfirmation, Row, HoldsRow, Base64.Value;
      if sender != SPOOF_CLIENT {
        currentState := SP_HTTP_CREDENTIAL_CONFIRMATION;
        StateCredentialConfirmation(sender, b);
      }
    }

    /** Copies the decoded bytes from one position up to another, and terminates the copy. */
    method CopyCredential(from: nat, end: nat, room: array<byte>)
      requires from <= end <= base64Credentials.Length && end - from < room.Length && room != base64Credentials
      modifies room
      ensures room[..] == Stored(old(room[..]), base64Credentials[from..end])
    {
      var i := 0;
      while i < end - from
        invariant i <= end - from
        invariant forall k :: 0 <= k < i ==> room[k] == base64Credentials[from + k]
        invariant forall k :: i <= k < room.Length ==> room[k] == old(room[k])
      {
        room[i] := base64Credentials[from + i];
        i := i + 1;
      }
      room[i] := 0;
    }

    /** The colon that ends the user name. */
    method FindSeparator(len: nat) returns (i: nat)
      requires len <= base64Credentials.Length
      ensures i == FindColon(base64Credentials[..len])
    {
      i := 0;
      while i < len && base64Credentials[i] != COLON
        invariant i <= len && forall k :: 0 <= k < i ==> base64Credentials[k] != COLON
      {
        i := i + 1;
      }
      ColonFound(base64Credentials[..len], i);
    }

    /** Terminates the collected text and decodes it where it stands. */
    method DecodeCredentials() returns (len: nat)
      requires Valid() && CredentialsFit(View())
      modifies base64Credentials, codec, codec.decodingTable
      ensures Valid()
      ensures var s := old(View());
              && len == |Decoded(s)| <= base64Credentials.Length
              && View() == s.(base64Credentials := Decoded(s) + Collected(s)[len..])
    {
      hide Row, HoldsRow, Base64.Value, Base64.Char, Base64.Decode, FindColon;
      ghost var s := View();
      base64Credentials[credentialIter] := 0;
      ghost var text := Collected(s);
      assert base64Credentials[..] == text;
      assert text[credentialIter] == 0;
      len := codec.DecodeInto(base64Credentials, base64Credentials);
      assert base64Credentials[..] == Decoded(s) + text[len..];
    }

    /** The user name up to the colon and the password behind it. */
    method SplitCredentials(len: nat)
      requires Valid() && len <= base64Credentials.Length
      requires var i := FindColon(base64Credentials[..len]);
               i < len && i < CREDENTIAL_ROOM && len - i - 1 < CREDENTIAL_ROOM
      modifies username, password
      ensures Valid()
      ensures var s := old(View()); var d := old(base64Credentials[..len]); var i := FindColon(d);
              View() == s.(username := Stored(s.username, d[..i]), password := Stored(s.password, d[i + 1..]))
    {
      hide Row, HoldsRow, Base64.Value, FindColon, Stored;
      ghost var d := base64Credentials[..len];
      var i := FindSeparator(len);
      assert base64Credentials[0..i] == d[..i];
      CopyCredential(0, i, username);
      assert base64Credentials[i + 1..len] == d[i + 1..];
      CopyCredential(i + 1, len, password);
    }

    /** The end of the value: decode in place, then split at the colon. */
    method ExtractCredentials()
      requires Valid() && CredentialsFit(View())
      modifies this, username, password, base64Credentials, codec, codec.decodingTable
      ensures Valid() && View() == Extracted(old(View())) && Repr() == old(Repr())
    {
      hide Row, HoldsRow, Base64.Value, Base64.Char, Base64.Decode, FindColon, Base64.Text, Decoded, Collected, Stored;
      ghost var d := Decoded(View());
      var len := DecodeCredentials();
      assert base64Credentials[..len] == d;
      SplitCredentials(len);
      ignoreSpaces := false;
      credentialIter := 0;
      currentState := SP_HTTP_CLIENT_CONFIRMATION_CONSUME;
    }

    method StoreBase64(b: byte)
      requires Valid() && credentialIter < BASE64_ROOM
      modifies this, base64Credentials
      ensures Valid() && Repr() == old(Repr())
      ensures var s := old(View());
              View() == s.(base64Credentials := ByteParsers.Put(s.base64Credentials, s.credentialIter, b),
                           credentialIter := s.credentialIter + 1)
    {
      hide Row, HoldsRow, Base64.Value;
      base64Credentials[credentialIter] := b;
      credentialIter := credentialIter + 1;
    }

    method StateExtractingCredentials(sender: Sender, b: byte)
      requires Valid() && currentState.SP_HTTP_EXTRACTING_CREDENTIALS? && Fits(View(), Sent(sender, b))
      modifies this, username, password, base64Credentials, codec, codec.decodingTable
      ensures Valid() && View() == ExtractingCredentials(old(View()), Sent(sender, b)) && Repr() == old(Repr())
    {
      ghost var s := View();
      assert s.ignoreSpaces == ignoreSpaces && s.credentialIter == credentialIter && s.currentState == currentState;
      hide Row, HoldsRow, Base64.Value, CredentialsFit, Extracted, IsBlank, IsBase64Char, Valid, View, EndsValue,
           ByteParsers.Put;
      if sender == SPOOF_SERVER || !IsAscii(b) {
        SetState(SP_FINISH);
        return;
      }
      if ignoreSpaces && IsBlank(b) {
        return;
      }
      StopIgnoringSpaces();
      if EndsValue(b) {
        FitWithoutSpaces(s);
        ExtractCredentials();
      } else if IsBase64Char(b) {
        StoreBase64(b);
      } else {
        SetState(SP_FINISH);
      }
    }

    // -------------------------------------------------------------- the automaton

    method StateInit(sender: Sender, b: byte)
      requires Valid()
      modifies Repr()
      ensures Valid() && View() == Initially(old(View()), Sent(sender, b)) && fresh(Repr() - old(Repr()))
    {
      hide ConfirmHttp, ConfirmPop, Row, HoldsRow, Base64.Value;
      if sender == SPOOF_CLIENT {
        currentState := SP_CONFIRM_HTTP;
        StateConfirmHttp(sender, b);
      } else {
        currentState := SP_CONFIRM_POP;
        StateConfirmPop(sender, b);
      }
    }

    /** spoofing_parser_spoof_byte: the function of the current state. */
    method SpoofByte(sender: Sender, b: byte)
      requires Valid() && !currentState.SP_FINISH? && Fits(View(), Sent(sender, b))
      modifies Repr()
      ensures Valid() && View() == Step(old(View()), Sent(sender, b)) && fresh(Repr() - old(Repr()))
    {
      assert View().currentState == currentState;
      hide Valid, View, Fits, Row, HoldsRow, Base64.Value, Initially, ConfirmHttp, SearchingAuth, ConfirmBasicScheme,
           ExtractingCredentials, ClientConfirmationConsume, CredentialConfirmation, ConfirmPop, UserServerConsume,
           UserClientConsume, CheckingUser, ExtractingUser, CheckingUserResponse, PassServerConsume, PassClientConsume,
           CheckingPass, ExtractingPass, CheckingPassResponse;
      match currentState
      case SP_INIT => StateInit(sender, b);
      case SP_CONFIRM_HTTP => StateConfirmHttp(sender, b);
      case SP_HTTP_SEARCHING_AUTH => StateSearchingAuth(sender, b);
      case SP_HTTP_CONFIRM_BASIC_SCHEME => StateConfirmBasicScheme(sender, b);
      case SP_HTTP_EXTRACTING_CREDENTIALS => StateExtractingCredentials(sender, b);
      case SP_HTTP_CLIENT_CONFIRMATION_CONSUME => StateClientConfirmationConsume(sender, b);
      case SP_HTTP_CREDENTIAL_CONFIRMATION => StateCredentialConfirmation(sender, b);
      case SP_CONFIRM_POP => StateConfirmPop(sender, b);
      case SP_POP_USER_SERVER_CONSUME => StateUserServerConsume(sender, b);
      case SP_POP_USER_CLIENT_CONSUME => StateUserClientConsume(sender, b);
      case SP_POP_CHECKING_USER => StateCheckingUser(sender, b);
      case SP_POP_EXTRACTING_USER => StateExtractingUser(sender, b);
      case SP_POP_CHECKING_USER_RESPONSE => StateCheckingUserResponse(sender, b);
      case SP_POP_PASS_SERVER_CONSUME => StatePassServerConsume(sender, b);
      case SP_POP_PASS_CLIENT_CONSUME => StatePassClientConsume(sender, b);
      case SP_POP_CHECKING_PASS => StateCheckingPass(sender, b);
      case SP_POP_EXTRACTING_PASS => StateExtractingPass(sender, b);
      case SP_POP_CHECKING_PASS_RESPONSE => StateCheckingPassResponse(sender, b);
    }

    lemma StateOfView()
      ensures View().currentState == currentState
    {}

    method SpoofNext(buffer: seq<byte>, sender: Sender, i: nat, ghost sent: seq<Sent>)
      requires Valid() && i < |buffer| && sent == From(sender, buffer) && currentState != SP_FINISH
      requires InBounds(View(), sent[i..])
      modifies Repr()
      ensures Valid() && fresh(Repr() - old(Repr()))
      ensures InBounds(View(), sent[i + 1..]) && Run(View(), sent[i + 1..]) == Run(old(View()), sent[i..])
    {
      hide Row, HoldsRow, Base64.Value, Step, Fits, Valid, View, Run, InBounds;
      StateOfView();
      RunNext(View(), sent, i);
      SpoofByte(sender, buffer[i]);
    }

    /** spoofing_parser_spoof: the bytes of one sender, until done. */
    method Spoof(buffer: seq<byte>, sender: Sender)
      requires Valid() && InBounds(View(), From(sender, buffer))
      modifies Repr()
      ensures Valid() && View() == Run(old(View()), From(sender, buffer)) && fresh(Repr() - old(Repr()))
    {
      hide Row, HoldsRow, Base64.Value, Step, Fits, Valid, View, Run, InBounds;
      var i := 0;
      ghost var sent, end := From(sender, buffer), Run(View(), From(sender, buffer));
      assert sent[0..] == sent;
      while i < |buffer| && currentState != SP_FINISH
        invariant i <= |buffer| && Valid() && fresh(Repr() - old(Repr()))
        invariant InBounds(View(), sent[i..]) && Run(View(), sent[i..]) == end
      {
        SpoofNext(buffer, sender, i, sent);
        i := i + 1;
      }
      StateOfView();
      RunEnds(View(), sent[i..]);
    }
  }

  lemma RunNext(s: Spoofer, sent: seq<Sent>, i: nat)
    requires i < |sent| && InBounds(s, sent[i..]) && !s.currentState.SP_FINISH?
    ensures var t := Step(s, sent[i]);
            Fits(s, sent[i]) && InBounds(t, sent[i + 1..]) && Run(s, sent[i..]) == Run(t, sent[i + 1..])
  {
    hide Step, Fits;
    assert sent[i..][0] == sent[i] && sent[i..][1..] == sent[i + 1..];
  }

  lemma RunEnds(s: Spoofer, sent: seq<Sent>)
    ensures sent == [] || s.currentState.SP_FINISH? ==> Run(s, sent) == s
  {}

  lemma FitWithoutSpaces(s: Spoofer)
    requires CredentialsFit(s)
    ensures CredentialsFit(s.(ignoreSpaces := false))
  {
    hide Base64.Decode, Base64.Text, FindColon;
  }

  lemma ColonFound(text: seq<byte>, i: nat)
    requires i <= |text| && (i < |text| ==> text[i] == COLON) && forall k :: 0 <= k < i ==> text[k] != COLON
    ensures FindColon(text) == i
  {}
}
