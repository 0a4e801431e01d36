/**
  The SOCKS request (section 4 of RFC 1928): the byte-fed parser, and the proof that it accepts exactly the
  encodings of requests and reads nothing beyond them.
 */
module RequestParsers {
  import opened Buckets
  import opened Buffers
  import opened ByteParsers
  import DnsParser
  import DnsMessages

  datatype State =
    | REQUEST_PARSER_VERSION | REQUEST_PARSER_COMMAND | REQUEST_PARSER_RESERVED | REQUEST_PARSER_ADD_TYPE
    | REQUEST_PARSER_DOMAIN_LENGTH | REQUEST_PARSER_DOMAIN_ADDRESS | REQUEST_PARSER_IPV4_ADDRESS
    | REQUEST_PARSER_IPV6_ADDRESS | REQUEST_PARSER_PORT_HIGH | REQUEST_PARSER_PORT_LOW | REQUEST_PARSER_DONE
    | REQUEST_PARSER_ERROR_UNSUPPORTED_ADD_TYPE

  const DOMAIN_NAME_MAX_LENGTH: nat := 256
  const IP4: byte := 1
  const DOMAIN_NAME: byte := 3
  const IP6: byte := 4

  /** The parser; the members of its address union are kept apart. */
  datatype Parser = Parser(
    version: byte, cmd: byte, addressType: byte,
    domainName: seq<byte>, s_addr: nat, s6_addr: seq<byte>, port: nat,
    currentState: State, addressRemaining: byte, addressLength: byte)

  function Zeros(n: nat): seq<byte> { seq(n, _ => 0) }

  /** request_parser_init */
  const INIT := Parser(0, 0, 0, Zeros(DOMAIN_NAME_MAX_LENGTH), 0, Zeros(16), 0, REQUEST_PARSER_VERSION, 0, 0)

  /** htons on a little-endian machine. */
  function Htons(v: nat): nat { v % 256 * 256 + v / 256 }

  /** One more byte of an address: the counter goes down, and the port follows the last one. */
  function AddressByte(p: Parser): Parser {
    var n := DnsParser.U8(p.addressRemaining - 1);
    p.(addressRemaining := n, currentState := if n == 0 then REQUEST_PARSER_PORT_HIGH else p.currentState)
  }

  function Ipv4Byte(p: Parser, b: byte): Parser {
    var v := DnsParser.U32(p.s_addr * 256 + b);
    AddressByte(p.(s_addr := if p.addressRemaining == 1 then DnsParser.Htonl(v) else v))
  }

  /** request_parser_feed */
  function Feed(p: Parser, b: byte): Parser {
    match p.currentState
    case REQUEST_PARSER_VERSION => p.(version := b, currentState := REQUEST_PARSER_COMMAND)
    case REQUEST_PARSER_COMMAND => p.(cmd := b, currentState := REQUEST_PARSER_RESERVED)
    case REQUEST_PARSER_RESERVED => p.(currentState := REQUEST_PARSER_ADD_TYPE)
    case REQUEST_PARSER_ADD_TYPE =>
      var q := p.(addressType := b);
      if b == DOMAIN_NAME then q.(currentState := REQUEST_PARSER_DOMAIN_LENGTH)
      else if b == IP4 then q.(addressRemaining := 4, currentState := REQUEST_PARSER_IPV4_ADDRESS)
      else if b == IP6 then q.(addressRemaining := 16, addressLength := 16, currentState := REQUEST_PARSER_IPV6_ADDRESS)
      else q.(currentState := REQUEST_PARSER_ERROR_UNSUPPORTED_ADD_TYPE)
    case REQUEST_PARSER_DOMAIN_LENGTH =>
      p.(addressRemaining := b, addressLength := b, domainName := Put(p.domainName, b, 0),
         currentState := if b > 0 then REQUEST_PARSER_DOMAIN_ADDRESS else REQUEST_PARSER_PORT_HIGH)
    case REQUEST_PARSER_DOMAIN_ADDRESS =>
      AddressByte(p.(domainName := Put(p.domainName, p.addressLength - p.addressRemaining, b)))
    case REQUEST_PARSER_IPV4_ADDRESS => Ipv4Byte(p, b)
    case REQUEST_PARSER_IPV6_ADDRESS =>
      AddressByte(p.(s6_addr := Put(p.s6_addr, p.addressLength - p.addressRemaining, b)))
    case REQUEST_PARSER_PORT_HIGH => p.(port := (b as nat) * 256, currentState := REQUEST_PARSER_PORT_LOW)
    case REQUEST_PARSER_PORT_LOW => p.(port := Htons((p.port + b) % 0x1_0000), currentState := REQUEST_PARSER_DONE)
    case _ => p
  }

  predicate Done(p: Parser) {
    p.currentState.REQUEST_PARSER_DONE? || p.currentState.REQUEST_PARSER_ERROR_UNSUPPORTED_ADD_TYPE?
  }

  /** Indices in range and counters above zero while an address is read. */
  predicate Safe(p: Parser) {
    && |p.domainName| == DOMAIN_NAME_MAX_LENGTH && |p.s6_addr| == 16 && p.port < 0x1_0000
    && (p.currentState.REQUEST_PARSER_DOMAIN_ADDRESS? ==> 0 < p.addressRemaining <= p.addressLength)
    && (p.currentState.REQUEST_PARSER_IPV4_ADDRESS? ==> 0 < p.addressRemaining)
    && (p.currentState.REQUEST_PARSER_IPV6_ADDRESS? ==> 0 < p.addressRemaining <= p.addressLength == 16)
  }

  /** Whatever the bytes, the parser stays in range. */
  lemma FeedSafe(p: Parser, b: byte)
    requires Safe(p)
    ensures Safe(Feed(p, b))
  {
    hide DnsParser.Htonl, DnsParser.U32;
    if p.currentState.REQUEST_PARSER_PORT_LOW? { HtonsRange((p.port + b) % 0x1_0000); }
  }

  lemma HtonsRange(v: nat)
    requires v < 0x1_0000
    ensures Htons(v) < 0x1_0000
  {}

  // ---------------------------------------------------------------- the wire format

  datatype Address = Ip4(bytes: seq<byte>) | Domain(name: seq<byte>) | Ip6(bytes: seq<byte>)

  datatype Request = Request(version: byte, cmd: byte, reserved: byte, address: Address, port: seq<byte>)

  predicate ValidRequest(r: Request) {
    && |r.port| == 2
    && match r.address
       case Ip4(bytes) => |bytes| == 4
       case Domain(name) => |name| <= 255
       case Ip6(bytes) => |bytes| == 16
  }

  function AddressBytes(a: Address): seq<byte>
    requires a.Domain? ==> |a.name| <= 255
  {
    match a
    case Ip4(bytes) => [1] + bytes
    case Domain(name) => [3, |name|] + name
    case Ip6(bytes) => [4] + bytes
  }

  function Encode(r: Request): seq<byte>
    requires ValidRequest(r)
  {
    [r.version, r.cmd, r.reserved] + AddressBytes(r.address) + r.port
  }

  /** The bytes of a port in memory. */
  function PortInMemory(v: nat): seq<byte> { [v % 256, v / 256 % 256] }

  predicate HoldsAddress(p: Parser, a: Address) {
    match a
    case Ip4(bytes) => p.addressType == 1 && DnsMessages.InMemory(p.s_addr) == bytes
    case Domain(name) =>
      p.addressType == 3 && p.addressLength == |name| < |p.domainName|
      && p.domainName[..|name|] == name && p.domainName[|name|] == 0
    case Ip6(bytes) => p.addressType == 4 && p.s6_addr == bytes
  }

  /** The parsed request: address and port lie in memory in the order of the wire. */
  predicate Holds(p: Parser, r: Request) {
    && p.currentState.REQUEST_PARSER_DONE? && p.version == r.version && p.cmd == r.cmd
    && HoldsAddress(p, r.address) && PortInMemory(p.port) == r.port
  }

  // ---------------------------------------------------------------- parsing inverts encoding

  lemma LeadsPort(p: Parser, port: seq<byte>)
    requires p.currentState.REQUEST_PARSER_PORT_HIGH? && |port| == 2
    ensures var q := p.(port := Htons((port[0] as nat) * 256 + port[1]), currentState := REQUEST_PARSER_DONE);
            Leads(Feed, Done, p, port, q) && PortInMemory(q.port) == port
  {
    hide Leads;
    LeadsTwo(Feed, Done, p, port[0], port[1]);
    assert port == [port[0], port[1]];
    PortOrder(port[0], port[1]);
  }

  lemma PortOrder(a: byte, b: byte)
    ensures var v := (a as nat) * 256 + b; PortInMemory(Htons(v)) == [a, b] && v % 0x1_0000 == v
  {
    DnsMessages.LastDigit(a, b);
    DnsMessages.LastDigit(b, a);
    assert Htons((a as nat) * 256 + b) == (b as nat) * 256 + a;
  }

  /** The domain from position k on. */
  lemma {:induction false} LeadsDomain(p: Parser, name: seq<byte>)
    requires p.currentState.REQUEST_PARSER_DOMAIN_ADDRESS? && |p.domainName| == DOMAIN_NAME_MAX_LENGTH
    requires 0 < |name| == p.addressRemaining <= p.addressLength
    ensures var k := p.addressLength - |name|;
            Leads(Feed, Done, p, name, p.(addressRemaining := 0, currentState := REQUEST_PARSER_PORT_HIGH,
                                          domainName := p.domainName[..k] + name + p.domainName[p.addressLength..]))
    decreases |name|
  {
    hide Leads;
    var k := p.addressLength - |name|;
    var q := Feed(p, name[0]);
    LeadsOne(Feed, Done, p, name[0]);
    assert name == [name[0]] + name[1..];
    if |name| == 1 {
      assert name == [name[0]];
      assert q.domainName == p.domainName[..k] + name + p.domainName[p.addressLength..];
    } else {
      LeadsDomain(q, name[1..]);
      assert q.domainName[..k + 1] + name[1..] + q.domainName[p.addressLength..]
          == p.domainName[..k] + name + p.domainName[p.addressLength..];
      LeadsThrough(Feed, Done, p, [name[0]], q, name[1..],
                   p.(addressRemaining := 0, currentState := REQUEST_PARSER_PORT_HIGH,
                      domainName := p.domainName[..k] + name + p.domainName[p.addressLength..]));
    }
  }

  lemma {:induction false} LeadsIp6(p: Parser, d: seq<byte>)
    requires p.currentState.REQUEST_PARSER_IPV6_ADDRESS? && |p.s6_addr| == 16 == p.addressLength
    requires 0 < |d| == p.addressRemaining <= 16
    ensures Leads(Feed, Done, p, d, p.(addressRemaining := 0, currentState := REQUEST_PARSER_PORT_HIGH,
                                       s6_addr := p.s6_addr[..16 - |d|] + d))
    decreases |d|
  {
    hide Leads;
    var k := 16 - |d|;
    var q := Feed(p, d[0]);
    LeadsOne(Feed, Done, p, d[0]);
    assert d == [d[0]] + d[1..];
    if |d| == 1 {
      assert d == [d[0]];
      assert q.s6_addr == p.s6_addr[..k] + d;
    } else {
      LeadsIp6(q, d[1..]);
      assert q.s6_addr[..k + 1] + d[1..] == p.s6_addr[..k] + d;
      LeadsThrough(Feed, Done, p, [d[0]], q, d[1..],
                   p.(addressRemaining := 0, currentState := REQUEST_PARSER_PORT_HIGH, s6_addr := p.s6_addr[..k] + d));
    }
  }

  lemma Ip4Next(p: Parser, b: byte)
    requires p.currentState.REQUEST_PARSER_IPV4_ADDRESS? && p.addressRemaining > 0 && p.s_addr < 0x100_0000
    ensures var v := p.s_addr * 256 + b;
            Feed(p, b) == p.(addressRemaining := p.addressRemaining - 1,
                             s_addr := if p.addressRemaining == 1 then DnsParser.Htonl(v) else v,
                             currentState := if p.addressRemaining == 1 then REQUEST_PARSER_PORT_HIGH
                             else p.currentState)
  {
    hide DnsParser.Htonl;
  }

  lemma LeadsIp4(p: Parser, a: byte, b: byte, c: byte, d: byte)
    requires p.currentState.REQUEST_PARSER_IPV4_ADDRESS? && p.addressRemaining == 4 && p.s_addr == 0
    ensures Leads(Feed, Done, p, [a, b, c, d], p.(addressRemaining := 0, currentState := REQUEST_PARSER_PORT_HIGH,
                                                  s_addr := DnsParser.Htonl(DnsParser.Digits(a, b, c, d))))
  {
    hide Leads, Feed, DnsParser.Htonl;
    Ip4Next(p, a);
    var p1 := Feed(p, a);
    Ip4Next(p1, b);
    var p2 := Feed(p1, b);
    Ip4Next(p2, c);
    var p3 := Feed(p2, c);
    Ip4Next(p3, d);
    LeadsTwo(Feed, Done, p, a, b);
    LeadsTwo(Feed, Done, p2, c, d);
    LeadsThrough(Feed, Done, p, [a, b], p2, [c, d], Feed(p3, d));
    assert [a, b] + [c, d] == [a, b, c, d];
  }

  lemma LeadsType(p: Parser, t: byte)
    requires p.currentState.REQUEST_PARSER_ADD_TYPE?
    ensures Leads(Feed, Done, p, [t], Feed(p, t))
  {
    LeadsOne(Feed, Done, p, t);
  }

  lemma LeadsHead(v: byte, c: byte, r: byte)
    ensures Leads(Feed, Done, INIT, [v, c, r], INIT.(version := v, cmd := c, currentState := REQUEST_PARSER_ADD_TYPE))
  {
    hide Leads;
    var p2 := INIT.(version := v, cmd := c, currentState := REQUEST_PARSER_RESERVED);
    LeadsTwo(Feed, Done, INIT, v, c);
    LeadsOne(Feed, Done, p2, r);
    LeadsThrough(Feed, Done, INIT, [v, c], p2, [r], Feed(p2, r));
    assert [v, c] + [r] == [v, c, r];
  }

  /** Type and address: the parser waits for the port and holds the address. */
  lemma LeadsAddress(p: Parser, a: Address) returns (q: Parser)
    requires p.currentState.REQUEST_PARSER_ADD_TYPE? && p.s_addr == 0 && |p.domainName| == DOMAIN_NAME_MAX_LENGTH
             && |p.s6_addr| == 16
    requires match a case Ip4(bytes) => |bytes| == 4 case Domain(name) => |name| <= 255 case Ip6(bytes) => |bytes| == 16
    ensures Leads(Feed, Done, p, AddressBytes(a), q)
    ensures q.currentState.REQUEST_PARSER_PORT_HIGH? && q.version == p.version && q.cmd == p.cmd && HoldsAddress(q, a)
  {
    hide Leads, DnsParser.Htonl, DnsParser.Digits, DnsMessages.InMemory;
    match a
    case Ip4(d) =>
      var p1 := Feed(p, IP4);
      q := p1.(addressRemaining := 0, currentState := REQUEST_PARSER_PORT_HIGH,
               s_addr := DnsParser.Htonl(DnsParser.Digits(d[0], d[1], d[2], d[3])));
      LeadsType(p, IP4);
      LeadsIp4(p1, d[0], d[1], d[2], d[3]);
      LeadsThrough(Feed, Done, p, [IP4], p1, [d[0], d[1], d[2], d[3]], q);
      assert d == [d[0], d[1], d[2], d[3]];
      DnsMessages.NetworkOrder(d[0], d[1], d[2], d[3]);
    case Domain(name) =>
      var n := |name|;
      var p1 := Feed(Feed(p, DOMAIN_NAME), n);
      LeadsTwo(Feed, Done, p, DOMAIN_NAME, n);
      if n == 0 {
        q := p1;
        assert AddressBytes(a) == [DOMAIN_NAME, n];
      } else {
        q := p1.(addressRemaining := 0, currentState := REQUEST_PARSER_PORT_HIGH,
                 domainName := p1.domainName[..0] + name + p1.domainName[n..]);
        LeadsDomain(p1, name);
        LeadsThrough(Feed, Done, p, [DOMAIN_NAME, n], p1, name, q);
      }
    case Ip6(d) =>
      var p1 := Feed(p, IP6);
      q := p1.(addressRemaining := 0, currentState := REQUEST_PARSER_PORT_HIGH, s6_addr := d);
      LeadsType(p, IP6);
      LeadsIp6(p1, d);
      assert p1.s6_addr[..16 - |d|] + d == d;
      LeadsThrough(Feed, Done, p, [IP6], p1, d, q);
  }

  lemma LeadsRequest(r: Request) returns (q: Parser)
    requires ValidRequest(r)
    ensures Leads(Feed, Done, INIT, Encode(r), q) && Holds(q, r)
  {
    hide Leads, HoldsAddress, PortInMemory, Feed;
    var p1 := INIT.(version := r.version, cmd := r.cmd, currentState := REQUEST_PARSER_ADD_TYPE);
    LeadsHead(r.version, r.cmd, r.reserved);
    var p2 := LeadsAddress(p1, r.address);
    LeadsThrough(Feed, Done, INIT, [r.version, r.cmd, r.reserved], p1, AddressBytes(r.address), p2);
    LeadsPort(p2, r.port);
    q := p2.(port := Htons((r.port[0] as nat) * 256 + r.port[1]), currentState := REQUEST_PARSER_DONE);
    KeepsAddress(p2, q, r.address);
    LeadsThrough(Feed, Done, INIT, [r.version, r.cmd, r.reserved] + AddressBytes(r.address), p2, r.port, q);
  }

  lemma KeepsAddress(p: Parser, q: Parser, a: Address)
    requires HoldsAddress(p, a) && q == p.(port := q.port, currentState := q.currentState)
    ensures HoldsAddress(q, a)
  {}

  /** Parsing undoes encoding and reads nothing beyond, for every request and whatever follows it. */
  lemma ParseInvertsEncode(r: Request, tail: seq<byte>)
    requires ValidRequest(r)
    ensures var (q, n) := Parse(Feed, Done, INIT, Encode(r) + tail);
            n == |Encode(r)| && Holds(q, r)
  {
    hide Leads;
    var q := LeadsRequest(r);
    LeadsParse(Feed, Done, INIT, Encode(r), q, tail);
  }

  /** A request cut short leaves the parser waiting for more, with everything taken. */
  lemma CutRequestWaits(r: Request, k: nat)
    requires ValidRequest(r) && k < |Encode(r)|
    ensures var (q, n) := Parse(Feed, Done, INIT, Encode(r)[..k]); n == k && !Done(q)
  {
    hide Leads;
    var q := LeadsRequest(r);
    PrefixWaits(Feed, Done, INIT, Encode(r), q, k);
  }

  /** The request arrives in two pieces, cut anywhere, and the parser takes it up where it left off. */
  lemma SplitRequest(r: Request, k: nat, tail: seq<byte>)
    requires ValidRequest(r) && k <= |Encode(r)|
    ensures var (p, _) := Parse(Feed, Done, INIT, Encode(r)[..k]);
            var (q, n) := Parse(Feed, Done, p, Encode(r)[k..] + tail);
            k + n == |Encode(r)| && Holds(q, r)
  {
    hide Leads, Holds, Encode;
    var xs, ys := Encode(r)[..k], Encode(r)[k..] + tail;
    assert xs + ys == Encode(r) + tail;
    ParseInvertsEncode(r, tail);
    ParseSplit(Feed, Done, INIT, xs, ys);
    if k < |Encode(r)| {
      CutRequestWaits(r, k);
    } else {
      assert xs == Encode(r) && ys == tail && Encode(r) + [] == Encode(r);
      ParseInvertsEncode(r, []);
      DoneTakesNothing(Parse(Feed, Done, INIT, xs).0, tail);
    }
  }

  lemma DoneTakesNothing(p: Parser, ys: seq<byte>)
    ensures Done(p) ==> Parse(Feed, Done, p, ys) == (p, 0)
  {}

  // ---------------------------------------------------------------- nothing else is accepted

  predicate Supported(t: byte) { t in {1, 3, 4} }

  /** How long the request that starts with these bytes is; they must reach its type, and a domain's length. */
  function Needed(bytes: seq<byte>): nat
    requires |bytes| >= 4
  {
    if bytes[3] == 1 then 10
    else if bytes[3] == 4 then 22
    else if |bytes| < 5 then 7
    else 7 + (bytes[4] as nat)
  }

  /** The request that long enough bytes start with. */
  function Decode(bytes: seq<byte>): (r: Request)
    requires |bytes| >= 4 && Supported(bytes[3]) && |bytes| >= Needed(bytes)
    ensures ValidRequest(r)
  {
    var n := Needed(bytes);
    var a := if bytes[3] == 1 then Ip4(bytes[4..8])
             else if bytes[3] == 4 then Ip6(bytes[4..20])
             else Domain(bytes[5..n - 2]);
    Request(bytes[0], bytes[1], bytes[2], a, bytes[n - 2..n])
  }

  lemma AddressDecodes(bytes: seq<byte>)
    requires |bytes| >= 4 && Supported(bytes[3]) && |bytes| >= Needed(bytes)
    ensures AddressBytes(Decode(bytes).address) == bytes[3..Needed(bytes) - 2]
  {
    if bytes[3] == IP4 {
      assert bytes[3..8] == [bytes[3]] + bytes[4..8];
    } else if bytes[3] == IP6 {
      assert bytes[3..20] == [bytes[3]] + bytes[4..20];
    } else {
      var n := Needed(bytes);
      assert |bytes[5..n - 2]| == bytes[4];
      assert bytes[3..n - 2] == [bytes[3], bytes[4]] + bytes[5..n - 2];
    }
  }

  lemma DecodeEncodes(bytes: seq<byte>)
    requires |bytes| >= 4 && Supported(bytes[3]) && |bytes| >= Needed(bytes)
    ensures Encode(Decode(bytes)) == bytes[..Needed(bytes)]
  {
    AddressDecodes(bytes);
    hide AddressBytes, Needed;
    var n := Needed(bytes);
    assert 5 <= n <= |bytes| by { NeededBounds(bytes); }
    assert bytes[..3] == [bytes[0], bytes[1], bytes[2]];
    Cut3(bytes, n);
  }

  lemma NeededBounds(bytes: seq<byte>)
    requires |bytes| >= 4
    ensures 7 <= Needed(bytes)
  {}

  lemma Cut3(bytes: seq<byte>, n: nat)
    requires 5 <= n <= |bytes|
    ensures bytes[..n] == bytes[..3] + bytes[3..n - 2] + bytes[n - 2..n]
  {}

  lemma WholeRequestIsParsed(bytes: seq<byte>)
    requires |bytes| >= 4 && Supported(bytes[3]) && |bytes| >= Needed(bytes)
    ensures var (q, n) := Parse(Feed, Done, INIT, bytes);
            q.currentState.REQUEST_PARSER_DONE? && n == Needed(bytes) && Holds(q, Decode(bytes))
  {
    hide Holds, Encode, Decode, Parse, Needed;
    var n := Needed(bytes);
    DecodeEncodes(bytes);
    ParseInvertsEncode(Decode(bytes), bytes[n..]);
    assert bytes[..n] + bytes[n..] == bytes;
    HoldsIsDone(Parse(Feed, Done, INIT, bytes).0, Decode(bytes));
  }

  /** Bytes that start a longer request leave the parser waiting. */
  lemma StartOfRequestWaits(bytes: seq<byte>, full: seq<byte>)
    requires |full| >= 4 && Supported(full[3]) && |full| >= Needed(full) > |bytes| && full[..|bytes|] == bytes
    ensures var (q, n) := Parse(Feed, Done, INIT, bytes); !Done(q) && n == |bytes|
  {
    hide Encode, Decode, Parse, Needed, Done;
    DecodeEncodes(full);
    CutRequestWaits(Decode(full), |bytes|);
    assert Encode(Decode(full))[..|bytes|] == bytes;
  }

  /**
    The parser is done with the first bytes exactly when they hold a whole request, and then it holds that request
    and has read exactly its encoding; an unsupported type is an error right after its byte; else it waits.
   */
  lemma AcceptsExactlyRequests(bytes: seq<byte>)
    ensures var (q, n) := Parse(Feed, Done, INIT, bytes);
            if |bytes| < 4 then !Done(q) && n == |bytes|
            else if !Supported(bytes[3]) then q.currentState.REQUEST_PARSER_ERROR_UNSUPPORTED_ADD_TYPE? && n == 4
            else if |bytes| < Needed(bytes) then !Done(q) && n == |bytes|
            else q.currentState.REQUEST_PARSER_DONE? && n == Needed(bytes) && Holds(q, Decode(bytes))
                 && bytes[..n] == Encode(Decode(bytes))
  {
    hide Holds, Encode, Decode, Parse, Done;
    if |bytes| < 4 {
      StartOfRequestWaits(bytes, bytes + Zeros(3 - |bytes|) + [IP4] + Zeros(6));
    } else if !Supported(bytes[3]) {
      UnsupportedType(bytes);
    } else if |bytes| < Needed(bytes) {
      StartOfRequestWaits(bytes, bytes + Zeros(262));
    } else {
      WholeRequestIsParsed(bytes);
      DecodeEncodes(bytes);
    }
  }

  lemma HoldsIsDone(p: Parser, r: Request)
    requires Holds(p, r)
    ensures p.currentState.REQUEST_PARSER_DONE?
  {}

  lemma UnsupportedType(bytes: seq<byte>)
    requires |bytes| >= 4 && !Supported(bytes[3])
    ensures var (q, n) := Parse(Feed, Done, INIT, bytes);
            q.currentState.REQUEST_PARSER_ERROR_UNSUPPORTED_ADD_TYPE? && n == 4
  {
    hide Leads;
    var head := [bytes[0], bytes[1], bytes[2]];
    var p := INIT.(version := bytes[0], cmd := bytes[1], currentState := REQUEST_PARSER_ADD_TYPE);
    LeadsHead(bytes[0], bytes[1], bytes[2]);
    LeadsType(p, bytes[3]);
    LeadsThrough(Feed, Done, INIT, head, p, [bytes[3]], Feed(p, bytes[3]));
    LeadsParse(Feed, Done, INIT, head + [bytes[3]], Feed(p, bytes[3]), bytes[4..]);
    assert head + [bytes[3]] + bytes[4..] == bytes;
  }

  // ---------------------------------------------------------------- the parser in memory

  class RequestParser {
    var version: byte
    var cmd: byte
    var addressType: byte
    const domainName: array<byte>
    var s_addr: nat
    const s6_addr: array<byte>
    var port: nat
    var currentState: State
    var addressRemaining: byte
    var addressLength: byte

    ghost function View(): Parser
      reads this, domainName, s6_addr
    {
      Parser(version, cmd, addressType, domainName[..], s_addr, s6_addr[..], port, currentState, addressRemaining,
             addressLength)
    }

    ghost predicate Valid()
      reads this, domainName, s6_addr
    {
      Safe(View()) && domainName != s6_addr
    }

    /** request_parser_init */
    constructor ()
      ensures Valid() && View() == INIT && fresh(domainName) && fresh(s6_addr)
    {
      version, cmd, addressType, s_addr, port := 0, 0, 0, 0, 0;
      domainName := new byte[DOMAIN_NAME_MAX_LENGTH](_ => 0);
      s6_addr := new byte[16](_ => 0);
      currentState, addressRemaining, addressLength := REQUEST_PARSER_VERSION, 0, 0;
    }

    method CountDown()
      requires addressRemaining > 0
      modifies this`addressRemaining, this`currentState
      ensures View() == AddressByte(old(View()))
    {
      addressRemaining := addressRemaining - 1;
      if addressRemaining == 0 {
        currentState := REQUEST_PARSER_PORT_HIGH;
      }
    }

    /** request_parser_feed, up to the address. */
    method FeedHead(b: byte)
      requires Valid() && currentState in {REQUEST_PARSER_VERSION, REQUEST_PARSER_COMMAND, REQUEST_PARSER_RESERVED,
                                           REQUEST_PARSER_ADD_TYPE, REQUEST_PARSER_DOMAIN_LENGTH}
      modifies this, domainName
      ensures View() == Feed(old(View()), b)
    {
      hide DnsParser.Htonl, DnsParser.U32, Htons;
      match currentState
      case REQUEST_PARSER_VERSION =>
        version := b;
        currentState := REQUEST_PARSER_COMMAND;
      case REQUEST_PARSER_COMMAND =>
        cmd := b;
        currentState := REQUEST_PARSER_RESERVED;
      case REQUEST_PARSER_RESERVED =>
        currentState := REQUEST_PARSER_ADD_TYPE;
      case REQUEST_PARSER_ADD_TYPE =>
        addressType := b;
        if b == DOMAIN_NAME {
          currentState := REQUEST_PARSER_DOMAIN_LENGTH;
        } else if b == IP4 {
          addressRemaining := 4;
          currentState := REQUEST_PARSER_IPV4_ADDRESS;
        } else if b == IP6 {
          addressRemaining, addressLength := 16, 16;
          currentState := REQUEST_PARSER_IPV6_ADDRESS;
        } else {
          currentState := REQUEST_PARSER_ERROR_UNSUPPORTED_ADD_TYPE;
        }
      case REQUEST_PARSER_DOMAIN_LENGTH =>
        addressRemaining, addressLength := b, b;
        domainName[addressRemaining] := 0;
        currentState := if b > 0 then REQUEST_PARSER_DOMAIN_ADDRESS else REQUEST_PARSER_PORT_HIGH;
    }

    /** request_parser_feed, from the address on. */
    method FeedTail(b: byte)
      requires Valid() && currentState in {REQUEST_PARSER_DOMAIN_ADDRESS, REQUEST_PARSER_IPV4_ADDRESS,
                                           REQUEST_PARSER_IPV6_ADDRESS,
                                           REQUEST_PARSER_PORT_HIGH, REQUEST_PARSER_PORT_LOW}
      modifies this, domainName, s6_addr
      ensures View() == Feed(old(View()), b)
    {
      hide DnsParser.Htonl;
      match currentState
      case REQUEST_PARSER_DOMAIN_ADDRESS =>
        domainName[addressLength - addressRemaining] := b;
        CountDown();
      case REQUEST_PARSER_IPV4_ADDRESS =>
        s_addr := DnsParser.U32(s_addr * 256 + b);
        CountDown();
        if addressRemaining == 0 {
          s_addr := DnsParser.Htonl(s_addr);
        }
      case REQUEST_PARSER_IPV6_ADDRESS =>
        s6_addr[addressLength - addressRemaining] := b;
        CountDown();
      case REQUEST_PARSER_PORT_HIGH =>
        port := (b as nat) * 256;
        currentState := REQUEST_PARSER_PORT_LOW;
      case REQUEST_PARSER_PORT_LOW =>
        port := Htons((port + b) % 0x1_0000);
        currentState := REQUEST_PARSER_DONE;
    }

    method FeedByte(b: byte)
      requires Valid() && !Done(View())
      modifies this, domainName, s6_addr
      ensures Valid() && View() == Feed(old(View()), b)
    {
      FeedSafe(View(), b);
      hide Feed, Safe;
      if currentState in {REQUEST_PARSER_DOMAIN_ADDRESS, REQUEST_PARSER_IPV4_ADDRESS, REQUEST_PARSER_IPV6_ADDRESS,
                          REQUEST_PARSER_PORT_HIGH, REQUEST_PARSER_PORT_LOW} {
        FeedTail(b);
      } else {
        FeedHead(b);
      }
    }

    /** request_parser_is_done */
    predicate IsDone()
      reads this
    {
      currentState.REQUEST_PARSER_DONE? || currentState.REQUEST_PARSER_ERROR_UNSUPPORTED_ADD_TYPE?
    }

    /** request_parser_consume: what it takes is gone from the buffer, the rest stays. */
    method Consume(buffer: Buffer) returns (done: bool, errored: bool)
      requires Valid() && buffer.Valid() && buffer.data != domainName && buffer.data != s6_addr
      modifies this, domainName, s6_addr, buffer, buffer.data
      ensures Valid() && buffer.Valid()
      ensures var (q, n) := Parse(Feed, Done, old(View()), old(buffer.View()).content);
              View() == q && buffer.View() == old(buffer.View()).Drop(n)
      ensures done == Done(View()) && errored == View().currentState.REQUEST_PARSER_ERROR_UNSUPPORTED_ADD_TYPE?
    {
      hide Safe, Feed, Buf.Drop, Reaches, Parse;
      ghost var p0, b0 := View(), buffer.View();
      ghost var n := 0;
      DropNothing(b0);
      ReachesStart(Feed, Done, p0, b0.content);
      while !IsDone() && buffer.CanRead()
        invariant Valid() && buffer.Valid() && n <= |b0.content| && buffer.View() == b0.Drop(n)
        invariant Reaches(Feed, Done, p0, b0.content, n, View())
        decreases |b0.content| - n
      {
        DropReads(b0, n);
        ReachesNext(Feed, Done, p0, b0.content, n, View());
        var b := buffer.ReadByte();
        FeedByte(b);
        n := n + 1;
      }
      DropReads(b0, n);
      ReachesEnd(Feed, Done, p0, b0.content, n, View());
      done, errored := IsDone(), currentState.REQUEST_PARSER_ERROR_UNSUPPORTED_ADD_TYPE?;
    }
  }
}
