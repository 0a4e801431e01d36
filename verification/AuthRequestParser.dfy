/**
  The client's name and password (section 2 of RFC 1929): the byte-fed parser, and the proof that it accepts
  exactly their encodings, with neither of the two empty.
 */
module AuthRequestParsers {
  import opened Buckets
  import opened Buffers
  import opened ByteParsers
  import opened UserRecord

  datatype State =
    | AUTH_REQUEST_PARSER_VERSION | AUTH_REQUEST_PARSER_ULEN | AUTH_REQUEST_PARSER_UNAME | AUTH_REQUEST_PARSER_PLEN
    | AUTH_REQUEST_PARSER_PASSWORD | AUTH_REQUEST_PARSER_SUCCESS | AUTH_REQUEST_PARSER_INVALID_STATE

  const AUTH_VERSION: byte := 1
  const UINT8_STR_MAX_LENGTH: nat := 256

  datatype Parser = Parser(
    version: byte, ulen: byte, username: seq<byte>, plen: byte, password: seq<byte>,
    currentState: State, credentialCharPointer: byte)

  /** auth_request_parser_init: nothing but the state is set, whatever the memory held. */
  predicate Fresh(p: Parser) {
    p.currentState.AUTH_REQUEST_PARSER_VERSION? && |p.username| == |p.password| == UINT8_STR_MAX_LENGTH
  }

  /** One more byte of a credential, and its terminator behind the last one. */
  function Stored(room: seq<byte>, i: byte, b: byte, length: byte): seq<byte> {
    if i + 1 == length then Put(Put(room, i, b), i + 1, 0) else Put(room, i, b)
  }

  /** auth_request_parser_feed */
  function Feed(p: Parser, b: byte): Parser {
    var next: byte := (p.credentialCharPointer + 1) % 256;
    match p.currentState
    case AUTH_REQUEST_PARSER_VERSION =>
      if b != AUTH_VERSION then p.(currentState := AUTH_REQUEST_PARSER_INVALID_STATE)
      else p.(version := b, currentState := AUTH_REQUEST_PARSER_ULEN)
    case AUTH_REQUEST_PARSER_ULEN =>
      if b < 1 then p.(currentState := AUTH_REQUEST_PARSER_INVALID_STATE)
      else p.(ulen := b, credentialCharPointer := 0, currentState := AUTH_REQUEST_PARSER_UNAME)
    case AUTH_REQUEST_PARSER_UNAME =>
      p.(username := Stored(p.username, p.credentialCharPointer, b, p.ulen), credentialCharPointer := next,
         currentState := if next == p.ulen then AUTH_REQUEST_PARSER_PLEN else p.currentState)
    case AUTH_REQUEST_PARSER_PLEN =>
      if b < 1 then p.(currentState := AUTH_REQUEST_PARSER_INVALID_STATE)
      else p.(plen := b, credentialCharPointer := 0, currentState := AUTH_REQUEST_PARSER_PASSWORD)
    case AUTH_REQUEST_PARSER_PASSWORD =>
      p.(password := Stored(p.password, p.credentialCharPointer, b, p.plen), credentialCharPointer := next,
         currentState := if next == p.plen then AUTH_REQUEST_PARSER_SUCCESS else p.currentState)
    case _ => p
  }

  predicate Errored(p: Parser) { p.currentState.AUTH_REQUEST_PARSER_INVALID_STATE? }

  predicate Done(p: Parser) { p.currentState.AUTH_REQUEST_PARSER_SUCCESS? || Errored(p) }

  /** The pointer stays below the length that is being read, and both stay inside the arrays. */
  predicate Safe(p: Parser) {
    && |p.username| == |p.password| == UINT8_STR_MAX_LENGTH
    && (p.currentState.AUTH_REQUEST_PARSER_UNAME? ==> p.credentialCharPointer < p.ulen)
    && (p.currentState.AUTH_REQUEST_PARSER_PASSWORD? ==> p.credentialCharPointer < p.plen)
  }

  /** Whatever the bytes, no write leaves its array. */
  lemma FeedSafe(p: Parser, b: byte)
    requires Safe(p)
    ensures Safe(Feed(p, b))
  {}

  // ---------------------------------------------------------------- the wire format

  predicate ValidCredential(s: seq<byte>) { 1 <= |s| <= 255 }

  function Encode(username: seq<byte>, password: seq<byte>): seq<byte>
    requires ValidCredential(username) && ValidCredential(password)
  {
    [1, |username|] + username + ([|password|] + password)
  }

  /** The two strings that travel with their length in front. */
  datatype Field = Username | Password

  function LengthState(f: Field): State {
    if f.Username? then AUTH_REQUEST_PARSER_ULEN else AUTH_REQUEST_PARSER_PLEN
  }

  function TextState(f: Field): State {
    if f.Username? then AUTH_REQUEST_PARSER_UNAME else AUTH_REQUEST_PARSER_PASSWORD
  }

  function Room(p: Parser, f: Field): seq<byte> { if f.Username? then p.username else p.password }

  /** The parser at count bytes of a string of n bytes. */
  function At(p: Parser, f: Field, n: byte, count: byte, room: seq<byte>): Parser {
    var q := if f.Username? then p.(ulen := n, username := room) else p.(plen := n, password := room);
    q.(credentialCharPointer := count,
       currentState := if count < n then TextState(f)
                       else if f.Username? then AUTH_REQUEST_PARSER_PLEN else AUTH_REQUEST_PARSER_SUCCESS)
  }

  lemma FieldLength(p: Parser, f: Field, n: byte)
    requires p.currentState == LengthState(f) && n > 0
    ensures Feed(p, n) == At(p, f, n, 0, Room(p, f))
  {}

  lemma FieldStep(p: Parser, f: Field, n: byte, i: byte, room: seq<byte>, b: byte)
    requires i < n
    ensures Feed(At(p, f, n, i, room), b) == At(p, f, n, i + 1, Stored(room, i, b, n))
    ensures !Done(At(p, f, n, i, room))
  {}

  /** A buffer with a string at its start and a terminator. */
  function Terminated(room: seq<byte>, text: seq<byte>): (r: seq<byte>)
    requires |text| < |room|
    ensures |r| == |room| && CStr(r, 0) == Cut(text)
  {
    var r := text + [0] + room[|text| + 1..];
    CutIsStored(r, text);
    r
  }

  lemma {:induction false} LeadsText(p: Parser, f: Field, n: byte, i: byte, room: seq<byte>, text: seq<byte>)
    requires i < n && |text| == n - i && |room| == UINT8_STR_MAX_LENGTH
    ensures Leads(Feed, Done, At(p, f, n, i, room), text,
                  At(p, f, n, n, room[..i] + text + [0] + room[(n as nat) + 1..]))
    decreases |text|
  {
    hide Leads, Feed, Done, At;
    var s, b := At(p, f, n, i, room), text[0];
    var room' := Stored(room, i, b, n);
    FieldStep(p, f, n, i, room, b);
    LeadsOne(Feed, Done, s, b);
    assert text == [b] + text[1..];
    var end := room[..i] + text + [0] + room[(n as nat) + 1..];
    if |text| == 1 {
      assert text == [b];
      assert room' == end;
    } else {
      var k: byte := i + 1;
      LeadsText(p, f, n, k, room', text[1..]);
      assert room'[..k] + text[1..] + [0] + room'[(n as nat) + 1..] == end;
      LeadsThrough(Feed, Done, s, [b], At(p, f, n, k, room'), text[1..], At(p, f, n, n, end));
    }
  }

  lemma LeadsField(p: Parser, f: Field, text: seq<byte>)
    requires p.currentState == LengthState(f) && ValidCredential(text) && |Room(p, f)| == UINT8_STR_MAX_LENGTH
    ensures Leads(Feed, Done, p, [|text| as byte] + text, At(p, f, |text|, |text|, Terminated(Room(p, f), text)))
  {
    hide Leads, Feed, At, Terminated;
    var n: byte := |text|;
    var room := Room(p, f);
    FieldLength(p, f, n);
    LeadsOne(Feed, Done, p, n);
    LeadsText(p, f, n, 0, room, text);
    assert room[..0] + text + [0] + room[(n as nat) + 1..] == Terminated(room, text) by { TerminatedIs(room, text); }
    LeadsThrough(Feed, Done, p, [n], At(p, f, n, 0, room), text, At(p, f, n, n, Terminated(room, text)));
  }

  lemma TerminatedIs(room: seq<byte>, text: seq<byte>)
    requires |text| < |room|
    ensures room[..0] + text + [0] + room[|text| + 1..] == Terminated(room, text)
  {}

  /** The parser holds the pair, each cut at its first zero byte when read as a string. */
  predicate Holds(q: Parser, username: seq<byte>, password: seq<byte>) {
    && q.currentState.AUTH_REQUEST_PARSER_SUCCESS? && q.version == 1
    && CStr(q.username, 0) == Cut(username) && CStr(q.password, 0) == Cut(password)
  }

  /** The name, read behind the version byte. */
  function Named(p: Parser, username: seq<byte>): Parser
    requires Fresh(p) && ValidCredential(username)
  {
    At(Feed(p, AUTH_VERSION), Username, |username|, |username|, Terminated(p.username, username))
  }

  lemma LeadsName(p: Parser, username: seq<byte>)
    requires Fresh(p) && ValidCredential(username)
    ensures Leads(Feed, Done, p, [AUTH_VERSION, |username|] + username, Named(p, username))
    ensures Named(p, username).currentState == LengthState(Password)
  {
    hide Leads;
    LeadsOne(Feed, Done, p, AUTH_VERSION);
    var p1 := Feed(p, AUTH_VERSION);
    LeadsField(p1, Username, username);
    LeadsThrough(Feed, Done, p, [AUTH_VERSION], p1, [|username| as byte] + username, Named(p, username));
    assert [AUTH_VERSION] + ([|username| as byte] + username) == [AUTH_VERSION, |username|] + username;
  }

  lemma LeadsAuth(p: Parser, username: seq<byte>, password: seq<byte>) returns (q: Parser)
    requires Fresh(p) && ValidCredential(username) && ValidCredential(password)
    ensures Leads(Feed, Done, p, Encode(username, password), q) && Holds(q, username, password)
  {
    hide Leads, CStr, Cut, Feed, Terminated;
    var p1 := Named(p, username);
    assert p1.version == AUTH_VERSION && |p1.password| == UINT8_STR_MAX_LENGTH by { NamedKeeps(p, username); }
    LeadsName(p, username);
    LeadsField(p1, Password, password);
    q := At(p1, Password, |password|, |password|, Terminated(p1.password, password));
    LeadsThrough(Feed, Done, p, [AUTH_VERSION, |username|] + username, p1, [|password| as byte] + password, q);
  }

  lemma NamedKeeps(p: Parser, username: seq<byte>)
    requires Fresh(p) && ValidCredential(username)
    ensures Named(p, username).version == AUTH_VERSION && Named(p, username).password == p.password
  {
    hide CStr, Cut, Terminated;
  }

  // ---------------------------------------------------------------- what it accepts

  /** How many bytes from the start decide what the parser makes of them, as far as these tell. */
  function Needed(bytes: seq<byte>): nat {
    if |bytes| < 1 || bytes[0] != 1 then 1
    else if |bytes| < 2 || bytes[1] == 0 then 2
    else
      var u := bytes[1] as nat;
      if |bytes| < 3 + u || bytes[2 + u] == 0 then 3 + u
      else 3 + u + (bytes[2 + u] as nat)
  }

  /** A version other than 1, or a length of zero. */
  predicate Malformed(bytes: seq<byte>)
    requires |bytes| >= Needed(bytes)
  {
    bytes[0] != 1 || bytes[1] == 0 || bytes[2 + (bytes[1] as nat)] == 0
  }

  function NameIn(bytes: seq<byte>): (u: seq<byte>)
    requires |bytes| >= Needed(bytes) && !Malformed(bytes)
    ensures ValidCredential(u)
  {
    bytes[2..2 + (bytes[1] as nat)]
  }

  function PasswordIn(bytes: seq<byte>): (w: seq<byte>)
    requires |bytes| >= Needed(bytes) && !Malformed(bytes)
    ensures ValidCredential(w)
  {
    bytes[3 + (bytes[1] as nat)..Needed(bytes)]
  }

  lemma PairEncodes(bytes: seq<byte>)
    requires |bytes| >= Needed(bytes) && !Malformed(bytes)
    ensures bytes[..Needed(bytes)] == Encode(NameIn(bytes), PasswordIn(bytes))
  {
    var u, n := bytes[1] as nat, Needed(bytes);
    var w: nat := n - (3 + u);
    assert bytes[..2] == [AUTH_VERSION, u];
    assert bytes[..n] == bytes[..2] + bytes[2..2 + u] + (bytes[2 + u..3 + u] + bytes[3 + u..n]);
    assert bytes[2 + u..3 + u] == [w];
  }

  lemma WholePair(p: Parser, bytes: seq<byte>)
    requires Fresh(p) && |bytes| >= Needed(bytes) && !Malformed(bytes)
    ensures var (q, n) := Parse(Feed, Done, p, bytes);
            n == Needed(bytes) && Holds(q, NameIn(bytes), PasswordIn(bytes))
  {
    hide Leads, Feed, Parse, Needed, NameIn, PasswordIn, Encode, Malformed;
    var n := Needed(bytes);
    PairEncodes(bytes);
    var q := LeadsAuth(p, NameIn(bytes), PasswordIn(bytes));
    LeadsParse(Feed, Done, p, bytes[..n], q, bytes[n..]);
    assert bytes == bytes[..n] + bytes[n..];
  }

  lemma StartOfPair(p: Parser, bytes: seq<byte>, full: seq<byte>)
    requires Fresh(p) && |full| >= Needed(full) > |bytes| && !Malformed(full) && full[..|bytes|] == bytes
    ensures var (q, n) := Parse(Feed, Done, p, bytes); !Done(q) && n == |bytes|
  {
    hide Leads, Feed, Parse, Needed, NameIn, PasswordIn, Encode, Malformed, Done;
    var n := Needed(full);
    PairEncodes(full);
    var q := LeadsAuth(p, NameIn(full), PasswordIn(full));
    PrefixWaits(Feed, Done, p, full[..n], q, |bytes|);
    assert full[..n][..|bytes|] == bytes;
  }

  /** Bytes with which a pair can go on, whatever lengths they complete. */
  function Filler(): seq<byte> { seq(600, _ => 1) }

  lemma CanGoOn(bytes: seq<byte>)
    requires |bytes| < Needed(bytes)
    ensures var full := (if bytes == [] then [AUTH_VERSION] else bytes) + Filler();
            |full| >= Needed(full) > |bytes| && !Malformed(full) && full[..|bytes|] == bytes
  {}

  lemma BadVersion(p: Parser, bytes: seq<byte>)
    requires Fresh(p) && bytes != [] && bytes[0] != AUTH_VERSION
    ensures var (q, n) := Parse(Feed, Done, p, bytes); Errored(q) && n == 1
  {
    hide Leads;
    LeadsOne(Feed, Done, p, bytes[0]);
    LeadsParse(Feed, Done, p, [bytes[0]], Feed(p, bytes[0]), bytes[1..]);
    assert bytes == [bytes[0]] + bytes[1..];
  }

  lemma NoName(p: Parser, bytes: seq<byte>)
    requires Fresh(p) && |bytes| >= 2 && bytes[0] == AUTH_VERSION && bytes[1] == 0
    ensures var (q, n) := Parse(Feed, Done, p, bytes); Errored(q) && n == 2
  {
    hide Leads;
    LeadsTwo(Feed, Done, p, AUTH_VERSION, 0);
    LeadsParse(Feed, Done, p, [AUTH_VERSION, 0], Feed(Feed(p, AUTH_VERSION), 0), bytes[2..]);
    assert bytes == [AUTH_VERSION, 0] + bytes[2..];
  }

  lemma NoPassword(p: Parser, bytes: seq<byte>)
    requires Fresh(p) && |bytes| >= 3 && bytes[0] == AUTH_VERSION && bytes[1] > 0
    requires |bytes| >= 3 + (bytes[1] as nat) && bytes[2 + (bytes[1] as nat)] == 0
    ensures var (q, n) := Parse(Feed, Done, p, bytes); Errored(q) && n == 3 + (bytes[1] as nat)
  {
    hide Leads, Parse, Named;
    var u := bytes[1] as nat;
    var name := bytes[2..2 + u];
    LeadsName(p, name);
    var p1 := Named(p, name);
    var head := [AUTH_VERSION, u] + name;
    LeadsOne(Feed, Done, p1, 0);
    LeadsThrough(Feed, Done, p, head, p1, [0], Feed(p1, 0));
    LeadsParse(Feed, Done, p, head + [0], Feed(p1, 0), bytes[3 + u..]);
    assert bytes[..2] == [AUTH_VERSION, u] && bytes[2 + u..3 + u] == [0];
    assert bytes == bytes[..2] + bytes[2..2 + u] + bytes[2 + u..3 + u] + bytes[3 + u..];
  }

  /** The parser is done exactly when the bytes decide it: with an error right at a wrong version or an empty
      length, else with the whole pair, having read exactly its encoding; otherwise it waits. */
  lemma AcceptsExactlyPairs(p: Parser, bytes: seq<byte>)
    requires Fresh(p)
    ensures var (q, n) := Parse(Feed, Done, p, bytes);
            if |bytes| < Needed(bytes) then !Done(q) && n == |bytes|
            else n == Needed(bytes) &&
                 if Malformed(bytes) then Errored(q)
                 else Holds(q, NameIn(bytes), PasswordIn(bytes))
                      && bytes[..n] == Encode(NameIn(bytes), PasswordIn(bytes))
  {
    hide Parse, Feed, Done, Holds, Encode, NameIn, PasswordIn;
    if |bytes| < Needed(bytes) {
      CanGoOn(bytes);
      StartOfPair(p, bytes, (if bytes == [] then [AUTH_VERSION] else bytes) + Filler());
    } else if !Malformed(bytes) {
      WholePair(p, bytes);
      PairEncodes(bytes);
    } else if bytes[0] != AUTH_VERSION {
      BadVersion(p, bytes);
    } else if bytes[1] == 0 {
      NoName(p, bytes);
    } else {
      NoPassword(p, bytes);
    }
  }

  // ---------------------------------------------------------------- the parser in memory

  class AuthRequestParser {
    var version: byte
    var ulen: byte
    const username: array<byte>
    var plen: byte
    const password: array<byte>
    var currentState: State
    var credentialCharPointer: byte

    ghost function View(): Parser
      reads this, username, password
    {
      Parser(version, ulen, username[..], plen, password[..], currentState, credentialCharPointer)
    }

    ghost predicate Valid()
      reads this, username, password
    {
      Safe(View()) && username != password
    }

    /** auth_request_parser_init on a parser that may have been used */
    method Init()
      requires username.Length == password.Length == UINT8_STR_MAX_LENGTH && username != password
      modifies this
      ensures Valid() && Fresh(View())
    {
      currentState := AUTH_REQUEST_PARSER_VERSION;
    }

    method StateUname(b: byte)
      requires Valid() && currentState.AUTH_REQUEST_PARSER_UNAME?
      modifies this, username
      ensures View() == Feed(old(View()), b)
    {
      username[credentialCharPointer] := b;
      credentialCharPointer := credentialCharPointer + 1;
      if credentialCharPointer == ulen {
        username[credentialCharPointer] := 0;
        currentState := AUTH_REQUEST_PARSER_PLEN;
      }
    }

    method StatePassword(b: byte)
      requires Valid() && currentState.AUTH_REQUEST_PARSER_PASSWORD?
      modifies this, password
      ensures View() == Feed(old(View()), b)
    {
      password[credentialCharPointer] := b;
      credentialCharPointer := credentialCharPointer + 1;
      if credentialCharPointer == plen {
        password[credentialCharPointer] := 0;
        currentState := AUTH_REQUEST_PARSER_SUCCESS;
      }
    }

    method FeedByte(b: byte)
      requires Valid()
      modifies this, username, password
      ensures Valid() && View() == Feed(old(View()), b)
    {
      FeedSafe(View(), b);
      hide Safe;
      match currentState
      case AUTH_REQUEST_PARSER_VERSION =>
        if b != AUTH_VERSION {
          currentState := AUTH_REQUEST_PARSER_INVALID_STATE;
        } else {
          version := b;
          currentState := AUTH_REQUEST_PARSER_ULEN;
        }
      case AUTH_REQUEST_PARSER_ULEN =>
        if b < 1 {
          currentState := AUTH_REQUEST_PARSER_INVALID_STATE;
        } else {
          ulen, credentialCharPointer := b, 0;
          currentState := AUTH_REQUEST_PARSER_UNAME;
        }
      case AUTH_REQUEST_PARSER_UNAME => StateUname(b);
      case AUTH_REQUEST_PARSER_PLEN =>
        if b < 1 {
          currentState := AUTH_REQUEST_PARSER_INVALID_STATE;
        } else {
          plen, credentialCharPointer := b, 0;
          currentState := AUTH_REQUEST_PARSER_PASSWORD;
        }
      case AUTH_REQUEST_PARSER_PASSWORD => StatePassword(b);
      case _ =>
    }

    /** auth_request_parser_is_done */
    predicate IsDone()
      reads this
    {
      currentState.AUTH_REQUEST_PARSER_INVALID_STATE? || currentState.AUTH_REQUEST_PARSER_SUCCESS?
    }

    /** auth_request_parser_consume */
    method Consume(buffer: Buffer) returns (done: bool, errored: bool)
      requires Valid() && buffer.Valid() && buffer.data != username && buffer.data != password
      modifies this, username, password, buffer, buffer.data
      ensures Valid() && buffer.Valid()
      ensures var (q, n) := Parse(Feed, Done, old(View()), old(buffer.View()).content);
              View() == q && buffer.View() == old(buffer.View()).Drop(n)
      ensures done == Done(View()) && errored == Errored(View())
    {
      hide Safe, Feed, Buf.Drop, Reaches, Parse;
      ghost var p0, b0 := View(), buffer.View();
      ghost var n := 0;
      DropNothing(b0);
      ReachesStart(Feed, Done, p0, b0.content);
      while !IsDone() && buffer.CanRead()
        invariant Valid() && buffer.Valid() && n <= |b0.content| && buffer.View() == b0.Drop(n)
        invariant Reaches(Feed, Done, p0, b0.content, n, View())
        decreases |b0.content| - n
      {
        DropReads(b0, n);
        ReachesNext(Feed, Done, p0, b0.content, n, View());
        var b := buffer.ReadByte();
        FeedByte(b);
        n := n + 1;
      }
      DropReads(b0, n);
      ReachesEnd(Feed, Done, p0, b0.content, n, View());
      done, errored := IsDone(), currentState.AUTH_REQUEST_PARSER_INVALID_STATE?;
    }
  }
}
