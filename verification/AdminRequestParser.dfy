/**
  The administration protocol: the byte-fed request parser, and the proof that any sequence of requests, in any
  chunks, parses back to itself.
 */
module AdminRequests {
  import opened Buckets
  import opened Buffers
  import opened ByteParsers
  import DnsParser

  datatype State =
    | ARP_STATE_TYPE | ARP_STATE_QUERY | ARP_STATE_MODIFICATION
    | ARP_PARSE_STRING | ARP_PARSE_UINT_8 | ARP_PARSE_UINT_32
    | ARP_PARSE_ADD_USER | ARP_PARSE_ADD_PASS | ARP_PARSE_ADD_PRIV
    | ARP_STATE_DONE
    | ARP_STATE_ERROR_TYPE_NOT_SUPPORTED | ARP_STATE_ERROR_QUERY_NOT_SUPPORTED
    | ARP_STATE_ERROR_MODIFICATION_NOT_SUPPORTED
    | ARP_ERROR_INVALID_STATE

  /** The function that the session calls with the parsed request. */
  datatype Handler = InvalidType | InvalidQuery | InvalidModification | ForQuery(q: byte) | ForModification(m: byte)

  const MAX_STRING_LENGTH: nat := 256
  const ARP_QUERY: byte := 0
  const ARP_MODIFICATION: byte := 1
  const ARP_INVALID: byte := 0xFF
  const ARP_USER_TOTAL_CURRENT_CONNECTIONS: byte := 0x0B
  const ARP_ADD_USER: byte := 0
  const ARP_REMOVE_USER: byte := 1
  const ARP_SET_BUFFER_SIZE: byte := 4

  /** The parser; the members of its argument union are kept apart. */
  datatype Parser = Parser(
    state: State, kind: byte, command: byte, parserCount: int, argLength: int, handler: Handler,
    uint8: byte, uint32: nat, text: seq<byte>, uname: seq<byte>, pass: seq<byte>, admin: byte)

  function Zeros(): seq<byte> { seq(MAX_STRING_LENGTH, _ => 0) }

  /** admin_request_parser_init */
  const INIT := Parser(ARP_STATE_TYPE, ARP_INVALID, ARP_INVALID, 0, -1, InvalidType, 0, 0, Zeros(), Zeros(), Zeros(), 0)

  predicate IsByteModification(m: byte) { m in {2, 3, 5, 6} }

  /** admin_request_parser_get_arg_state_queries and _modifications */
  function QueryArgState(q: byte): State {
    if q <= 0x0A then ARP_STATE_DONE
    else if q == ARP_USER_TOTAL_CURRENT_CONNECTIONS then ARP_PARSE_STRING
    else ARP_STATE_ERROR_QUERY_NOT_SUPPORTED
  }

  function ModificationArgState(m: byte): State {
    if m == ARP_ADD_USER then ARP_PARSE_ADD_USER
    else if m == ARP_REMOVE_USER then ARP_PARSE_STRING
    else if IsByteModification(m) then ARP_PARSE_UINT_8
    else if m == ARP_SET_BUFFER_SIZE then ARP_PARSE_UINT_32
    else ARP_STATE_ERROR_MODIFICATION_NOT_SUPPORTED
  }

  function QueryHandler(q: byte): Handler { if q <= 0x0B then ForQuery(q) else InvalidQuery }

  function ModificationHandler(m: byte): Handler { if m <= 6 then ForModification(m) else InvalidModification }

  /** A byte of a length-prefixed string, on its buffer and the two counters. */
  function StringByte(text: seq<byte>, count: int, length: int, b: byte): (seq<byte>, int, int) {
    if length == -1 then (text, 0, b as int)
    else if count < length then (Put(text, count, b), count + 1, length)
    else (text, count, length)
  }

  function FeedString(p: Parser, b: byte): Parser {
    var (text, count, length) := StringByte(p.text, p.parserCount, p.argLength, b);
    if count == length then
      p.(text := Put(text, count, 0), parserCount := count + 1, argLength := length, state := ARP_STATE_DONE)
    else p.(text := text, parserCount := count, argLength := length)
  }

  function FeedAddUser(p: Parser, b: byte): Parser {
    var (text, count, length) := StringByte(p.uname, p.parserCount, p.argLength, b);
    if count == length then
      p.(uname := Put(text, count, 0), parserCount := count + 1, argLength := -1, state := ARP_PARSE_ADD_PASS)
    else p.(uname := text, parserCount := count, argLength := length)
  }

  function FeedAddPass(p: Parser, b: byte): Parser {
    var (text, count, length) := StringByte(p.pass, p.parserCount, p.argLength, b);
    if count == length then
      p.(pass := Put(text, count, 0), parserCount := count + 1, argLength := length, state := ARP_PARSE_ADD_PRIV)
    else p.(pass := text, parserCount := count, argLength := length)
  }

  function FeedUint32(p: Parser, b: byte): Parser {
    var q := if p.argLength == -1 then p.(parserCount := 0, uint32 := 0, argLength := 4) else p;
    var r := if q.parserCount < q.argLength then
               q.(uint32 := DnsParser.U32(DnsParser.U32(q.uint32 * 256) + b), parserCount := q.parserCount + 1)
             else q;
    if r.parserCount == r.argLength then r.(state := ARP_STATE_DONE) else r
  }

  /** admin_request_parser_feed */
  function Feed(p: Parser, b: byte): Parser {
    match p.state
    case ARP_STATE_TYPE =>
      if b == ARP_QUERY then p.(kind := b, state := ARP_STATE_QUERY)
      else if b == ARP_MODIFICATION then p.(kind := b, state := ARP_STATE_MODIFICATION)
      else p.(handler := InvalidType, state := ARP_STATE_ERROR_TYPE_NOT_SUPPORTED)
    case ARP_STATE_QUERY => p.(command := b, handler := QueryHandler(b), state := QueryArgState(b))
    case ARP_STATE_MODIFICATION => p.(command := b, handler := ModificationHandler(b), state := ModificationArgState(b))
    case ARP_PARSE_STRING => FeedString(p, b)
    case ARP_PARSE_UINT_8 => p.(uint8 := b, state := ARP_STATE_DONE)
    case ARP_PARSE_UINT_32 => FeedUint32(p, b)
    case ARP_PARSE_ADD_USER => FeedAddUser(p, b)
    case ARP_PARSE_ADD_PASS => FeedAddPass(p, b)
    case ARP_PARSE_ADD_PRIV => p.(admin := b, state := ARP_STATE_DONE)
    case ARP_STATE_DONE => p
    case _ => p.(state := ARP_ERROR_INVALID_STATE)
  }

  predicate Errored(p: Parser) {
    p.state in {ARP_STATE_ERROR_TYPE_NOT_SUPPORTED, ARP_STATE_ERROR_QUERY_NOT_SUPPORTED,
                ARP_STATE_ERROR_MODIFICATION_NOT_SUPPORTED, ARP_ERROR_INVALID_STATE}
  }

  predicate Done(p: Parser) { p.state.ARP_STATE_DONE? || Errored(p) }

  /** Either no length yet, or a count below it. */
  predicate Counting(p: Parser, most: int) { p.argLength == -1 || 0 <= p.parserCount < p.argLength <= most }

  predicate Safe(p: Parser) {
    && |p.text| == |p.uname| == |p.pass| == MAX_STRING_LENGTH
    && (p.state in {ARP_STATE_TYPE, ARP_STATE_QUERY, ARP_STATE_MODIFICATION} ==> p.argLength == -1)
    && (p.state in {ARP_PARSE_STRING, ARP_PARSE_ADD_USER, ARP_PARSE_ADD_PASS} ==> Counting(p, 255))
    && (p.state.ARP_PARSE_UINT_32? ==> Counting(p, 4) && p.argLength in {-1, 4})
  }

  /** Whatever the bytes, every index of an argument buffer stays in range. */
  lemma FeedSafe(p: Parser, b: byte)
    requires Safe(p)
    ensures Safe(Feed(p, b))
  {
    hide DnsParser.U32;
  }

  // ---------------------------------------------------------------- the wire format

  datatype Request =
    | Query(q: byte)                                        // no argument
    | UserQuery(name: seq<byte>)
    | AddUser(name: seq<byte>, pass: seq<byte>, admin: byte)
    | RemoveUser(name: seq<byte>)
    | SetByte(m: byte, value: byte)
    | SetBufferSize(size: nat)

  predicate ValidRequest(r: Request) {
    match r
    case Query(q) => q <= 0x0A
    case UserQuery(name) => |name| <= 255
    case AddUser(name, pass, _) => |name| <= 255 && |pass| <= 255
    case RemoveUser(name) => |name| <= 255
    case SetByte(m, _) => m in {2, 3, 5, 6}
    case SetBufferSize(size) => size < 0x1_0000_0000
  }

  function Digit(v: nat, place: nat): byte
    requires place > 0
  {
    v / place % 256
  }

  /** The messages that the administration client sends. */
  function Encode(r: Request): seq<byte>
    requires ValidRequest(r)
  {
    match r
    case Query(q) => [0, q]
    case UserQuery(name) => [0, 11, |name|] + name
    case AddUser(name, pass, admin) => [1, 0, |name|] + name + ([|pass|] + pass) + [admin]
    case RemoveUser(name) => [1, 1, |name|] + name
    case SetByte(m, value) => [1, m, value]
    case SetBufferSize(size) =>
      [1, 4, Digit(size, 0x100_0000), Digit(size, 0x1_0000), Digit(size, 0x100),
       Digit(size, 1)]
  }

  /** The buffer holds the string, with its terminator. */
  predicate Stores(room: seq<byte>, text: seq<byte>) {
    |text| < |room| && room[..|text|] == text && room[|text|] == 0
  }

  /** The parsed request, as its handler finds it. */
  predicate Holds(p: Parser, r: Request) {
    && p.state.ARP_STATE_DONE?
    && match r
       case Query(q) => p.kind == 0 && p.command == q && p.handler == ForQuery(q)
       case UserQuery(name) => p.kind == 0 && p.command == 11 && p.handler == ForQuery(11) && Stores(p.text, name)
       case AddUser(name, pass, admin) =>
         p.kind == 1 && p.command == 0 && p.handler == ForModification(0)
         && Stores(p.uname, name) && Stores(p.pass, pass) && p.admin == admin
       case RemoveUser(name) =>
         p.kind == 1 && p.command == 1 && p.handler == ForModification(1) && Stores(p.text, name)
       case SetByte(m, value) =>
         p.kind == 1 && p.command == m && p.handler == ForModification(m) && p.uint8 == value
       case SetBufferSize(size) =>
         p.kind == 1 && p.command == 4 && p.handler == ForModification(4) && p.uint32 == size
  }

  // ---------------------------------------------------------------- parsing inverts encoding

  /** A buffer with a string at its start and a terminator. */
  function Terminated(room: seq<byte>, text: seq<byte>): (r: seq<byte>)
    requires |text| < |room|
    ensures |r| == |room| && Stores(r, text)
  {
    text + [0] + room[|text| + 1..]
  }

  /** The three strings that travel with their length in front. */
  datatype Field = TextField | NameField | PassField

  function FieldState(f: Field): State {
    match f
    case TextField => ARP_PARSE_STRING
    case NameField => ARP_PARSE_ADD_USER
    case PassField => ARP_PARSE_ADD_PASS
  }

  function AfterField(f: Field): State {
    match f
    case TextField => ARP_STATE_DONE
    case NameField => ARP_PARSE_ADD_PASS
    case PassField => ARP_PARSE_ADD_PRIV
  }

  function Room(p: Parser, f: Field): seq<byte> {
    match f case TextField => p.text case NameField => p.uname case PassField => p.pass
  }

  function WithRoom(p: Parser, f: Field, room: seq<byte>): Parser {
    match f case TextField => p.(text := room) case NameField => p.(uname := room) case PassField => p.(pass := room)
  }

  /** The parser behind a string of n bytes; only the length of a name is forgotten. */
  function FieldRead(p: Parser, f: Field, n: nat, room: seq<byte>): Parser {
    WithRoom(p, f, room).(state := AfterField(f), parserCount := n + 1, argLength := if f.NameField? then -1 else n)
  }

  lemma FieldStep(p: Parser, f: Field, b: byte)
    requires p.state == FieldState(f) && 0 <= p.parserCount < p.argLength
    ensures var room := Put(Room(p, f), p.parserCount, b);
            Feed(p, b) == if p.parserCount + 1 == p.argLength
                          then FieldRead(p, f, p.argLength, Put(room, p.argLength, 0))
                          else WithRoom(p, f, room).(parserCount := p.parserCount + 1)
    ensures var room := Put(Room(p, f), p.parserCount, b);
            var q := WithRoom(p, f, room).(parserCount := p.parserCount + 1);
            Room(q, f) == room && forall n: nat, end :: FieldRead(q, f, n, end) == FieldRead(p, f, n, end)
  {}

  lemma FieldLength(p: Parser, f: Field, n: byte)
    requires p.state == FieldState(f) && p.argLength == -1
    ensures var q := p.(parserCount := 0, argLength := n as int);
            && Feed(p, n) == (if n == 0 then FieldRead(p, f, 0, Put(Room(p, f), 0, 0)) else q)
            && Room(q, f) == Room(p, f) && forall m: nat, end :: FieldRead(q, f, m, end) == FieldRead(p, f, m, end)
  {}

  lemma {:induction false} LeadsText(p: Parser, f: Field, text: seq<byte>)
    requires p.state == FieldState(f) && |Room(p, f)| == MAX_STRING_LENGTH && text != []
    requires 0 <= p.parserCount && p.parserCount + |text| == p.argLength <= 255
    ensures Leads(Feed, Done, p, text,
                  FieldRead(p, f, p.argLength,
                            Room(p, f)[..p.parserCount] + text + [0] + Room(p, f)[p.argLength + 1..]))
    decreases |text|
  {
    hide Leads, Feed, FieldRead, Room;
    var q := Feed(p, text[0]);
    FieldStep(p, f, text[0]);
    LeadsOne(Feed, Done, p, text[0]);
    assert text == [text[0]] + text[1..];
    var room, n := Room(p, f), p.argLength;
    var end := room[..p.parserCount] + text + [0] + room[n + 1..];
    if |text| == 1 {
      assert text == [text[0]];
      assert Put(Put(room, p.parserCount, text[0]), n, 0) == end;
    } else {
      LeadsText(q, f, text[1..]);
      assert Room(q, f)[..q.parserCount] + text[1..] + [0] + Room(q, f)[n + 1..] == end;
      LeadsThrough(Feed, Done, p, [text[0]], q, text[1..], FieldRead(p, f, n, end));
    }
  }

  /** A length and as many bytes: the string, terminated, in its buffer. */
  lemma LeadsField(p: Parser, f: Field, text: seq<byte>)
    requires p.state == FieldState(f) && p.argLength == -1 && |Room(p, f)| == MAX_STRING_LENGTH && |text| <= 255
    ensures Leads(Feed, Done, p, [|text| as byte] + text, FieldRead(p, f, |text|, Terminated(Room(p, f), text)))
  {
    hide Leads, Feed, FieldRead, Room;
    var n: byte := |text|;
    var p1 := Feed(p, n);
    FieldLength(p, f, n);
    LeadsOne(Feed, Done, p, n);
    var room := Room(p, f);
    if text == [] {
      assert Put(room, 0, 0) == Terminated(room, text);
      assert [n] + text == [n];
    } else {
      LeadsText(p1, f, text);
      assert room[..0] + text + [0] + room[n + 1..] == Terminated(room, text);
      LeadsThrough(Feed, Done, p, [n], p1, text, FieldRead(p, f, n, Terminated(room, text)));
    }
  }

  lemma Uint32Next(p: Parser, b: byte)
    requires p.state.ARP_PARSE_UINT_32? && p.argLength == 4 && 0 <= p.parserCount < 4 && p.uint32 < 0x100_0000
    ensures Feed(p, b) == p.(uint32 := p.uint32 * 256 + b, parserCount := p.parserCount + 1,
                             state := if p.parserCount == 3 then ARP_STATE_DONE else p.state)
  {}

  /** Four bytes, most significant first. */
  lemma LeadsUint32(p: Parser, a: byte, b: byte, c: byte, d: byte) returns (q: Parser)
    requires p.state.ARP_PARSE_UINT_32? && p.argLength == -1
    ensures Leads(Feed, Done, p, [a, b, c, d], q)
    ensures q == p.(state := ARP_STATE_DONE, parserCount := 4, argLength := 4, uint32 := DnsParser.Digits(a, b, c, d))
  {
    var p1 := Feed(p, a);
    assert p1 == p.(parserCount := 1, argLength := 4, uint32 := a);
    hide Leads, Feed;
    Uint32Next(p1, b);
    var p2 := Feed(p1, b);
    Uint32Next(p2, c);
    var p3 := Feed(p2, c);
    Uint32Next(p3, d);
    q := Feed(p3, d);
    LeadsTwo(Feed, Done, p, a, b);
    LeadsTwo(Feed, Done, p2, c, d);
    LeadsThrough(Feed, Done, p, [a, b], p2, [c, d], q);
    assert [a, b] + [c, d] == [a, b, c, d];
  }

  /** A number below 2^32 is made of its four digits. */
  lemma DigitsOf(v: nat)
    requires v < 0x1_0000_0000
    ensures DnsParser.Digits(Digit(v, 0x100_0000), Digit(v, 0x1_0000), Digit(v, 0x100), Digit(v, 1)) == v
  {
    var a, b, c := v / 0x100_0000, v / 0x1_0000, v / 0x100;
    assert v == c * 256 + v % 256 && c == b * 256 + c % 256 && b == a * 256 + b % 256;
    assert a % 256 == a;
  }

  /** Type and command. */
  lemma LeadsCommand(kind: byte, command: byte)
    requires kind == ARP_QUERY || kind == ARP_MODIFICATION
    ensures Leads(Feed, Done, INIT, [kind, command], Feed(Feed(INIT, kind), command))
  {
    hide Leads;
    LeadsTwo(Feed, Done, INIT, kind, command);
  }

  lemma LeadsRequest(r: Request) returns (q: Parser)
    requires ValidRequest(r)
    ensures Leads(Feed, Done, INIT, Encode(r), q) && Holds(q, r)
  {
    hide Leads, Stores, Terminated;
    match r
    case Query(c) =>
      LeadsCommand(ARP_QUERY, c);
      q := Feed(Feed(INIT, ARP_QUERY), c);
    case UserQuery(name) =>
      LeadsCommand(ARP_QUERY, 0x0B);
      var p := Feed(Feed(INIT, ARP_QUERY), 0x0B);
      LeadsField(p, TextField, name);
      q := FieldRead(p, TextField, |name|, Terminated(p.text, name));
      LeadsThrough(Feed, Done, INIT, [ARP_QUERY, 0x0B], p, [|name| as byte] + name, q);
      assert [ARP_QUERY, 0x0B] + ([|name| as byte] + name) == Encode(r);
    case RemoveUser(name) =>
      LeadsCommand(ARP_MODIFICATION, ARP_REMOVE_USER);
      var p := Feed(Feed(INIT, ARP_MODIFICATION), ARP_REMOVE_USER);
      LeadsField(p, TextField, name);
      q := FieldRead(p, TextField, |name|, Terminated(p.text, name));
      LeadsThrough(Feed, Done, INIT, [ARP_MODIFICATION, ARP_REMOVE_USER], p, [|name| as byte] + name, q);
      assert [ARP_MODIFICATION, ARP_REMOVE_USER] + ([|name| as byte] + name) == Encode(r);
    case SetByte(m, value) =>
      LeadsCommand(ARP_MODIFICATION, m);
      var p := Feed(Feed(INIT, ARP_MODIFICATION), m);
      q := Feed(p, value);
      LeadsOne(Feed, Done, p, value);
      LeadsThrough(Feed, Done, INIT, [ARP_MODIFICATION, m], p, [value], q);
      assert [ARP_MODIFICATION, m] + [value] == Encode(r);
    case SetBufferSize(size) => q := LeadsSetBufferSize(r);
    case AddUser(_, _, _) => q := LeadsAddUser(r);
  }

  lemma LeadsSetBufferSize(r: Request) returns (q: Parser)
    requires ValidRequest(r) && r.SetBufferSize?
    ensures Leads(Feed, Done, INIT, Encode(r), q) && Holds(q, r)
  {
    hide Leads, DnsParser.Digits, Digit;
    LeadsCommand(ARP_MODIFICATION, ARP_SET_BUFFER_SIZE);
    var p := Feed(Feed(INIT, ARP_MODIFICATION), ARP_SET_BUFFER_SIZE);
    var a, b, c, d := Digit(r.size, 0x100_0000), Digit(r.size, 0x1_0000), Digit(r.size, 0x100), Digit(r.size, 1);
    q := LeadsUint32(p, a, b, c, d);
    DigitsOf(r.size);
    LeadsThrough(Feed, Done, INIT, [ARP_MODIFICATION, ARP_SET_BUFFER_SIZE], p, [a, b, c, d], q);
    assert [ARP_MODIFICATION, ARP_SET_BUFFER_SIZE] + [a, b, c, d] == Encode(r);
  }

  lemma LeadsAddUser(r: Request) returns (q: Parser)
    requires ValidRequest(r) && r.AddUser?
    ensures Leads(Feed, Done, INIT, Encode(r), q)
    ensures Holds(q, r)
  {
    hide Leads, Stores, Terminated;
    LeadsCommand(ARP_MODIFICATION, ARP_ADD_USER);
    var head := [ARP_MODIFICATION, ARP_ADD_USER];
    var name := [|r.name| as byte] + r.name;
    var pass := [|r.pass| as byte] + r.pass;
    var p := Feed(Feed(INIT, ARP_MODIFICATION), ARP_ADD_USER);
    LeadsField(p, NameField, r.name);
    var p1 := FieldRead(p, NameField, |r.name|, Terminated(p.uname, r.name));
    LeadsThrough(Feed, Done, INIT, head, p, name, p1);
    LeadsField(p1, PassField, r.pass);
    var p2 := FieldRead(p1, PassField, |r.pass|, Terminated(p1.pass, r.pass));
    LeadsThrough(Feed, Done, INIT, head + name, p1, pass, p2);
    q := Feed(p2, r.admin);
    LeadsOne(Feed, Done, p2, r.admin);
    LeadsThrough(Feed, Done, INIT, head + name + pass, p2, [r.admin], q);
    assert head + name == [ARP_MODIFICATION, ARP_ADD_USER, |r.name|] + r.name;
    assert head + name + pass + [r.admin] == Encode(r);
  }

  /** Parsing undoes encoding and reads nothing beyond. */
  lemma ParseInvertsEncode(r: Request, tail: seq<byte>)
    requires ValidRequest(r)
    ensures var (q, n) := Parse(Feed, Done, INIT, Encode(r) + tail); n == |Encode(r)| && Holds(q, r)
  {
    hide Leads, Holds;
    var q := LeadsRequest(r);
    HoldsIsDone(q, r);
    LeadsParse(Feed, Done, INIT, Encode(r), q, tail);
  }

  lemma HoldsIsDone(p: Parser, r: Request)
    requires Holds(p, r)
    ensures Done(p)
  {}

  // ---------------------------------------------------------------- sequences of requests

  /** A session's parser, re-initialised after each request, and the requests parsed so far. */
  datatype Stream = Stream(parser: Parser, parsed: seq<Parser>)

  function StreamFeed(s: Stream, b: byte): Stream {
    var q := Feed(s.parser, b);
    if Done(q) then Stream(INIT, s.parsed + [q]) else Stream(q, s.parsed)
  }

  function StreamAll(s: Stream, bytes: seq<byte>): Stream
    decreases |bytes|
  {
    if bytes == [] then s else StreamAll(StreamFeed(s, bytes[0]), bytes[1..])
  }

  /** Feeding byte after byte is what consume and init do in turn. */
  lemma {:induction false} StreamIsConsumeAndInit(p: Parser, parsed: seq<Parser>, bytes: seq<byte>)
    requires !Done(p)
    ensures var (q, n) := Parse(Feed, Done, p, bytes);
            StreamAll(Stream(p, parsed), bytes)
            == if Done(q) then StreamAll(Stream(INIT, parsed + [q]), bytes[n..]) else Stream(q, parsed)
    decreases |bytes|
  {
    hide Feed;
    if bytes != [] {
      var q := Feed(p, bytes[0]);
      if Done(q) {
        assert Parse(Feed, Done, q, bytes[1..]) == (q, 0);
      } else {
        StreamIsConsumeAndInit(q, parsed, bytes[1..]);
        var (r, n) := Parse(Feed, Done, q, bytes[1..]);
        assert bytes[1..][n..] == bytes[n + 1..];
      }
    }
  }

  lemma {:induction false} StreamSplit(s: Stream, xs: seq<byte>, ys: seq<byte>)
    ensures StreamAll(s, xs + ys) == StreamAll(StreamAll(s, xs), ys)
    decreases |xs|
  {
    hide StreamFeed;
    if xs == [] {
      assert xs + ys == ys;
    } else {
      assert (xs + ys)[0] == xs[0] && (xs + ys)[1..] == xs[1..] + ys;
      StreamSplit(StreamFeed(s, xs[0]), xs[1..], ys);
    }
  }

  function StreamChunks(s: Stream, chunks: seq<seq<byte>>): Stream
    decreases |chunks|
  {
    if chunks == [] then s else StreamChunks(StreamAll(s, chunks[0]), chunks[1..])
  }

  lemma {:induction false} ChunkingIsIrrelevant(s: Stream, chunks: seq<seq<byte>>)
    ensures StreamChunks(s, chunks) == StreamAll(s, Concat(chunks))
    decreases |chunks|
  {
    if chunks != [] {
      StreamSplit(s, chunks[0], Concat(chunks[1..]));
      ChunkingIsIrrelevant(StreamAll(s, chunks[0]), chunks[1..]);
    }
  }

  predicate AllValid(rs: seq<Request>) { forall i :: 0 <= i < |rs| ==> ValidRequest(rs[i]) }

  function EncodeAll(rs: seq<Request>): seq<byte>
    requires AllValid(rs)
  {
    if rs == [] then [] else Encode(rs[0]) + EncodeAll(rs[1..])
  }

  predicate HoldAll(parsed: seq<Parser>, rs: seq<Request>) {
    |parsed| == |rs| && forall i :: 0 <= i < |rs| ==> Holds(parsed[i], rs[i])
  }

  lemma {:induction false} SequenceParses(parsed: seq<Parser>, rs: seq<Request>) returns (more: seq<Parser>)
    requires AllValid(rs)
    ensures StreamAll(Stream(INIT, parsed), EncodeAll(rs)) == Stream(INIT, parsed + more) && HoldAll(more, rs)
    decreases |rs|
  {
    hide Holds, Encode, Parse;
    more := [];
    if rs == [] {
      assert parsed + [] == parsed;
    } else {
      var bytes := EncodeAll(rs);
      ParseInvertsEncode(rs[0], EncodeAll(rs[1..]));
      var (q, n) := Parse(Feed, Done, INIT, bytes);
      HoldsIsDone(q, rs[0]);
      StreamIsConsumeAndInit(INIT, parsed, bytes);
      assert bytes[n..] == EncodeAll(rs[1..]);
      var rest := SequenceParses(parsed + [q], rs[1..]);
      more := [q] + rest;
      assert parsed + [q] + rest == parsed + more;
    }
  }

  /**
    Any sequence of requests, sent back to back and received in any chunks, is parsed into the same sequence, and
    the parser stands at its initial state when the last byte has been read.
   */
  lemma SequenceInAnyChunks(rs: seq<Request>, chunks: seq<seq<byte>>) returns (parsed: seq<Parser>)
    requires AllValid(rs) && Concat(chunks) == EncodeAll(rs)
    ensures StreamChunks(Stream(INIT, []), chunks) == Stream(INIT, parsed) && HoldAll(parsed, rs)
  {
    ChunkingIsIrrelevant(Stream(INIT, []), chunks);
    parsed := SequenceParses([], rs);
    assert [] + parsed == parsed;
  }

  // ---------------------------------------------------------------- errors

  /** What a request may start with. */
  predicate SupportedCommand(kind: byte, command: byte) {
    (kind == 0 && command <= 11) || (kind == 1 && command <= 6)
  }

  predicate InArgument(p: Parser) {
    p.state in {ARP_PARSE_STRING, ARP_PARSE_UINT_8, ARP_PARSE_UINT_32, ARP_PARSE_ADD_USER, ARP_PARSE_ADD_PASS,
                ARP_PARSE_ADD_PRIV,
                ARP_STATE_DONE}
  }

  lemma {:induction false} ArgumentsNeverFail(p: Parser, bytes: seq<byte>)
    requires InArgument(p)
    ensures InArgument(Parse(Feed, Done, p, bytes).0)
    decreases |bytes|
  {
    hide Put, DnsParser.U32;
    if !Done(p) && bytes != [] { ArgumentsNeverFail(Feed(p, bytes[0]), bytes[1..]); }
  }

  lemma ParseFirst(p: Parser, bytes: seq<byte>)
    requires !Done(p) && bytes != []
    ensures var (q, n) := Parse(Feed, Done, Feed(p, bytes[0]), bytes[1..]);
            Parse(Feed, Done, p, bytes) == (q, n + 1)
  {
    hide Feed;
  }

  lemma NothingParsed(p: Parser)
    ensures Parse(Feed, Done, p, []) == (p, 0)
  {}

  lemma DoneTakesNothing(p: Parser, bytes: seq<byte>)
    ensures Done(p) ==> Parse(Feed, Done, p, bytes) == (p, 0)
  {
    hide Feed;
  }

  /**
    A request is refused exactly for its type, as soon as that is read, or for its command; and then the handler
    that will be called is the one that reports it.
   */
  lemma RefusedExactly(bytes: seq<byte>)
    ensures var (q, n) := Parse(Feed, Done, INIT, bytes);
            && (Errored(q) <==>
                |bytes| >= 1 && (bytes[0] > 1 || (|bytes| >= 2 && !SupportedCommand(bytes[0], bytes[1]))))
            && (Errored(q) ==> n == (if bytes[0] > 1 then 1 else 2)
                               && q.handler == if bytes[0] > 1 then InvalidType
                                               else if bytes[0] == 0 then InvalidQuery else InvalidModification)
  {
    hide FeedString, FeedUint32, FeedAddUser, FeedAddPass, Zeros, Parse;
    if bytes == [] {
      NothingParsed(INIT);
    } else {
      ParseFirst(INIT, bytes);
      var p := Feed(INIT, bytes[0]);
      DoneTakesNothing(p, bytes[1..]);
      if |bytes| == 1 {
        assert bytes[1..] == [];
        NothingParsed(p);
      } else if bytes[0] <= 1 {
        ParseFirst(p, bytes[1..]);
        var q := Feed(p, bytes[1]);
        DoneTakesNothing(q, bytes[1..][1..]);
        if SupportedCommand(bytes[0], bytes[1]) {
          ArgumentsNeverFail(q, bytes[1..][1..]);
        }
      }
    }
  }

  // ---------------------------------------------------------------- the parser in memory

  class AdminRequestParser {
    var state: State
    var kind: byte
    var command: byte
    var parserCount: int
    var argLength: int
    var handler: Handler
    var uint8: byte
    var uint32: nat
    const text: array<byte>
    const uname: array<byte>
    const pass: array<byte>
    var admin: byte

    ghost function View(): Parser
      reads this, text, uname, pass
    {
      Parser(state, kind, command, parserCount, argLength, handler, uint8, uint32, text[..], uname[..], pass[..], admin)
    }

    ghost predicate Valid()
      reads this, text, uname, pass
    {
      Safe(View()) && text != uname && text != pass && uname != pass
    }

    constructor ()
      ensures Valid() && View() == INIT && fresh(text) && fresh(uname) && fresh(pass)
    {
      text := new byte[MAX_STRING_LENGTH](_ => 0);
      uname := new byte[MAX_STRING_LENGTH](_ => 0);
      pass := new byte[MAX_STRING_LENGTH](_ => 0);
      state, kind, command := ARP_STATE_TYPE, ARP_INVALID, ARP_INVALID;
      parserCount, argLength, handler := 0, -1, InvalidType;
      uint8, uint32, admin := 0, 0, 0;
    }

    method Clear(room: array<byte>)
      requires room.Length == MAX_STRING_LENGTH
      modifies room
      ensures room[..] == Zeros()
    {
      forall i | 0 <= i < room.Length {
        room[i] := 0;
      }
    }

    /** admin_request_parser_init */
    method Init()
      requires Valid()
      modifies this, text, uname, pass
      ensures Valid() && View() == INIT
      ensures View() == Parser(ARP_STATE_TYPE, 0xff, 0xff, 0, -1, InvalidType, 0, 0, text[..], uname[..], pass[..], 0)
      ensures forall i :: 0 <= i < MAX_STRING_LENGTH ==> text[i] == uname[i] == pass[i] == 0
    {
      state, kind, command := ARP_STATE_TYPE, ARP_INVALID, ARP_INVALID;
      parserCount, argLength, handler := 0, -1, InvalidType;
      uint8, uint32, admin := 0, 0, 0;
      Clear(text);
      Clear(uname);
      Clear(pass);
    }

    /** A byte of a length-prefixed string; complete says that its terminator was written. */
    method TakeStringByte(room: array<byte>, b: byte) returns (complete: bool)
      requires room.Length == MAX_STRING_LENGTH && (argLength == -1 || 0 <= parserCount < argLength <= 255)
      modifies this`parserCount, this`argLength, room
      ensures var (t, count, length) := StringByte(old(room[..]), old(parserCount), old(argLength), b);
              && complete == (count == length) && argLength == length
              && parserCount == (if complete then count + 1 else count)
              && room[..] == if complete then Put(t, count, 0) else t
    {
      if argLength == -1 {
        parserCount := 0;
        argLength := b;
      } else if parserCount < argLength {
        room[parserCount] := b;
        parserCount := parserCount + 1;
      }
      complete := parserCount == argLength;
      if complete {
        room[parserCount] := 0;
        parserCount := parserCount + 1;
      }
    }

    /** The states in which a string arrives. */
    method FeedStrings(b: byte)
      requires Valid() && state in {ARP_PARSE_STRING, ARP_PARSE_ADD_USER, ARP_PARSE_ADD_PASS}
      modifies this, text, uname, pass
      ensures View() == Feed(old(View()), b)
    {
      hide StringByte, Put;
      if state == ARP_PARSE_STRING {
        var complete := TakeStringByte(text, b);
        if complete {
          state := ARP_STATE_DONE;
        }
      } else if state == ARP_PARSE_ADD_USER {
        var complete := TakeStringByte(uname, b);
        if complete {
          argLength := -1;
          state := ARP_PARSE_ADD_PASS;
        }
      } else {
        var complete := TakeStringByte(pass, b);
        if complete {
          state := ARP_PARSE_ADD_PRIV;
        }
      }
    }

    method FeedNumber(b: byte)
      requires Valid() && state == ARP_PARSE_UINT_32
      modifies this
      ensures View() == Feed(old(View()), b)
    {
      hide DnsParser.U32;
      if argLength == -1 {
        parserCount, uint32, argLength := 0, 0, 4;
      }
      if parserCount < argLength {
        uint32 := DnsParser.U32(DnsParser.U32(uint32 * 256) + b);
        parserCount := parserCount + 1;
      }
      if parserCount == argLength {
        state := ARP_STATE_DONE;
      }
    }

    method FeedOther(b: byte)
      requires Valid() && state in {ARP_STATE_TYPE, ARP_STATE_QUERY, ARP_STATE_MODIFICATION, ARP_PARSE_UINT_8,
                                    ARP_PARSE_ADD_PRIV}
      modifies this
      ensures View() == Feed(old(View()), b)
    {
      match state
      case ARP_STATE_TYPE =>
        if b == ARP_QUERY {
          kind, state := b, ARP_STATE_QUERY;
        } else if b == ARP_MODIFICATION {
          kind, state := b, ARP_STATE_MODIFICATION;
        } else {
          handler, state := InvalidType, ARP_STATE_ERROR_TYPE_NOT_SUPPORTED;
        }
      case ARP_STATE_QUERY =>
        command, handler, state := b, QueryHandler(b), QueryArgState(b);
      case ARP_STATE_MODIFICATION =>
        command, handler, state := b, ModificationHandler(b), ModificationArgState(b);
      case ARP_PARSE_UINT_8 =>
        uint8, state := b, ARP_STATE_DONE;
      case ARP_PARSE_ADD_PRIV =>
        admin, state := b, ARP_STATE_DONE;
    }

    /** admin_request_parser_feed */
    method FeedByte(b: byte)
      requires Valid() && !Done(View())
      modifies this, text, uname, pass
      ensures Valid() && View() == Feed(old(View()), b)
    {
      FeedSafe(View(), b);
      hide Feed, Safe;
      if state in {ARP_PARSE_STRING, ARP_PARSE_ADD_USER, ARP_PARSE_ADD_PASS} {
        FeedStrings(b);
      } else if state == ARP_PARSE_UINT_32 {
        FeedNumber(b);
      } else {
        FeedOther(b);
      }
    }

    /** admin_request_parser_is_done */
    method IsDone() returns (done: bool, errored: bool)
      ensures done == Done(View()) && errored == Errored(View())
    {
      errored := state in {ARP_STATE_ERROR_TYPE_NOT_SUPPORTED, ARP_STATE_ERROR_QUERY_NOT_SUPPORTED,
                           ARP_STATE_ERROR_MODIFICATION_NOT_SUPPORTED, ARP_ERROR_INVALID_STATE};
      done := errored || state == ARP_STATE_DONE;
    }

    /** admin_request_parser_consume: what it takes is gone from the buffer, the rest stays. */
    method Consume(buffer: Buffer) returns (done: bool, errored: bool)
      requires Valid() && buffer.Valid() && buffer.data !in {text, uname, pass}
      modifies this, text, uname, pass, buffer, buffer.data
      ensures Valid() && buffer.Valid()
      ensures var (q, n) := Parse(Feed, Done, old(View()), old(buffer.View()).content);
              View() == q && buffer.View() == old(buffer.View()).Drop(n)
      ensures done == Done(View()) && errored == Errored(View())
    {
      hide Safe, Feed, Buf.Drop, Reaches, Parse, Done, Errored;
      ghost var p0, b0 := View(), buffer.View();
      ghost var n := 0;
      DropNothing(b0);
      ReachesStart(Feed, Done, p0, b0.content);
      done, errored := IsDone();
      while !done && buffer.CanRead()
        invariant Valid() && buffer.Valid() && n <= |b0.content| && buffer.View() == b0.Drop(n)
        invariant Reaches(Feed, Done, p0, b0.content, n, View())
        invariant done == Done(View()) && errored == Errored(View())
        decreases |b0.content| - n
      {
        DropReads(b0, n);
        ReachesNext(Feed, Done, p0, b0.content, n, View());
        var b := buffer.ReadByte();
        FeedByte(b);
        n := n + 1;
        done, errored := IsDone();
      }
      DropReads(b0, n);
      ReachesEnd(Feed, Done, p0, b0.content, n, View());
    }
  }
}
