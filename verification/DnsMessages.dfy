/**
  DNS responses on the wire (section 4.1 of RFC 1035), and the proof that the byte-fed parser inverts
  their serialisation, in whatever chunks the bytes arrive.
 */
module DnsMessages {
  import opened Buckets
  import opened DnsParser
  import ByteParsers

  // ---------------------------------------------------------------- feeding many bytes

  /** One byte; states out of range do not occur. */
  function Fed(p: Parser, b: byte): Parser {
    if Safe(p) then Feed(p, b) else p
  }

  predicate Final(p: Parser) { IsDone(p.currentState) }

  /** response_dns_parser_consume: stops when done or out of bytes; also counts the bytes taken. */
  function Parse(p: Parser, bytes: seq<byte>): (r: (Parser, nat))
    ensures r.1 <= |bytes| && (r.1 < |bytes| ==> IsDone(r.0.currentState))
  {
    ByteParsers.Parse(Fed, Final, p, bytes)
  }

  lemma {:induction false} ParseSafe(p: Parser, bytes: seq<byte>)
    requires Safe(p)
    ensures Safe(Parse(p, bytes).0)
    decreases |bytes|
  {
    hide Feed, Safe;
    if !Final(p) && bytes != [] { ParseSafe(Fed(p, bytes[0]), bytes[1..]); }
  }

  /** Splitting the input anywhere makes no difference. */
  lemma ParseSplit(p: Parser, xs: seq<byte>, ys: seq<byte>)
    ensures var (q, n) := Parse(p, xs); var (r, k) := Parse(q, ys);
            Parse(p, xs + ys) == if n < |xs| then (q, n) else (r, n + k)
  {
    hide Feed, Safe;
    ByteParsers.ParseSplit(Fed, Final, p, xs, ys);
  }

  function ParseChunks(p: Parser, chunks: seq<seq<byte>>): Parser
    decreases |chunks|
  {
    if chunks == [] then p else ParseChunks(Parse(p, chunks[0]).0, chunks[1..])
  }

  /** Any chunking gives the state that the whole input gives. */
  lemma {:induction false} ChunkingIsIrrelevant(p: Parser, chunks: seq<seq<byte>>)
    ensures ParseChunks(p, chunks) == Parse(p, ByteParsers.Concat(chunks)).0
    decreases |chunks|
  {
    hide Fed;
    if chunks != [] {
      ParseSplit(p, chunks[0], ByteParsers.Concat(chunks[1..]));
      ChunkingIsIrrelevant(Parse(p, chunks[0]).0, chunks[1..]);
    }
  }

  /** Feeding xs leads from p to q, and no state before the end is a final one. */
  ghost predicate Leads(p: Parser, xs: seq<byte>, q: Parser) {
    ByteParsers.Leads(Fed, Final, p, xs, q)
  }

  lemma {:induction false} LeadsSafe(p: Parser, xs: seq<byte>, q: Parser)
    requires Safe(p) && Leads(p, xs, q)
    ensures Safe(q)
    decreases |xs|
  {
    hide Feed, Safe;
    if xs != [] { LeadsSafe(Fed(p, xs[0]), xs[1..], q); }
  }

  lemma LeadsThrough(p: Parser, xs: seq<byte>, q: Parser, ys: seq<byte>, r: Parser)
    requires Leads(p, xs, q) && Leads(q, ys, r)
    ensures Leads(p, xs + ys, r)
  {
    hide Fed;
    ByteParsers.LeadsThrough(Fed, Final, p, xs, q, ys, r);
  }

  lemma LeadsParse(p: Parser, xs: seq<byte>, q: Parser, tail: seq<byte>)
    requires Leads(p, xs, q) && IsDone(q.currentState)
    ensures Parse(p, xs + tail) == (q, |xs|)
  {
    hide Fed;
    ByteParsers.LeadsParse(Fed, Final, p, xs, q, tail);
  }

  lemma LeadsOne(p: Parser, b: byte)
    requires Safe(p) && !IsDone(p.currentState)
    ensures Leads(p, [b], Feed(p, b))
  {
    hide Feed, Safe;
    ByteParsers.LeadsOne(Fed, Final, p, b);
  }

  // ---------------------------------------------------------------- the wire format

  datatype Ending = Root | Pointer(hi: byte, lo: byte)

  datatype Name = Name(labels: seq<seq<byte>>, ending: Ending)

  predicate ValidName(n: Name) {
    && (forall i :: 0 <= i < |n.labels| ==> 1 <= |n.labels[i]| <= 63)
    && (n.ending.Pointer? ==> n.ending.hi >= 192)
  }

  function LabelBytes(labels: seq<seq<byte>>): seq<byte>
    requires forall i :: 0 <= i < |labels| ==> |labels[i]| <= 63
  {
    if labels == [] then [] else [|labels[0]| as byte] + labels[0] + LabelBytes(labels[1..])
  }

  function EndBytes(e: Ending): seq<byte> {
    if e.Root? then [0] else [e.hi, e.lo]
  }

  function NameBytes(n: Name): seq<byte>
    requires ValidName(n)
  {
    LabelBytes(n.labels) + EndBytes(n.ending)
  }

  /** A resource record; type and RDLENGTH travel with a zero high byte. */
  datatype Record = Record(owner: Name, rtype: byte, class_: seq<byte>, ttl: seq<byte>, data: seq<byte>)

  predicate ValidRecord(r: Record) {
    ValidName(r.owner) && |r.class_| == 2 && |r.ttl| == 4 && 1 <= |r.data| <= 255
  }

  /** The owner is the root, written as a single zero byte. */
  predicate RootOwned(r: Record) { r.owner.labels == [] && r.owner.ending.Root? }

  /** Records the parser reads right in a row: only the first one may be owned by the root. */
  predicate ReadableInRow(rs: seq<Record>) {
    && (forall i :: 0 <= i < |rs| ==> ValidRecord(rs[i]))
    && (forall i :: 1 <= i < |rs| ==> !RootOwned(rs[i]))
  }

  function RecordBytes(r: Record): seq<byte>
    requires ValidRecord(r)
  {
    NameBytes(r.owner) + [0, r.rtype] + r.class_ + r.ttl + [0, |r.data| as byte] + r.data
  }

  function RecordsBytes(rs: seq<Record>): seq<byte>
    requires forall i :: 0 <= i < |rs| ==> ValidRecord(rs[i])
  {
    if rs == [] then [] else RecordBytes(rs[0]) + RecordsBytes(rs[1..])
  }

  predicate IsA(r: Record) { r.rtype == 1 && |r.data| == 4 }

  predicate IsAAAA(r: Record) { r.rtype == 28 && |r.data| == 16 }

  /** The bytes of s_addr in memory, on a little-endian machine. */
  function InMemory(v: nat): seq<byte> {
    [v % 256, v / 256 % 256, v / 256 / 256 % 256, v / 256 / 256 / 256 % 256]
  }

  /** The entry holds the record's address: its data bytes, in network order. */
  predicate Holds(a: IpAddress, r: Record) {
    || (IsA(r) && a.ipType == 1 && InMemory(a.s_addr) == r.data)
    || (IsAAAA(r) && a.ipType == 4 && a.s6_addr == r.data)
  }

  /** The address records, in order. */
  function AddressRecords(rs: seq<Record>): seq<Record> {
    if rs == [] then []
    else (if IsA(rs[0]) || IsAAAA(rs[0]) then [rs[0]] else []) + AddressRecords(rs[1..])
  }

  datatype Message = Message(id: seq<byte>, flags: seq<byte>, authority: seq<byte>, additional: seq<byte>,
                             qname: Name, qtype: seq<byte>, qclass: seq<byte>, answers: seq<Record>)

  predicate ValidMessage(m: Message) {
    && |m.id| == 2 && |m.flags| == 2 && |m.authority| == 2 && |m.additional| == 2
    && ValidName(m.qname) && |m.qtype| == 2 && |m.qclass| == 2
    && 1 <= |m.answers| <= 255 && ReadableInRow(m.answers)
  }

  function HeaderBytes(m: Message): seq<byte>
    requires ValidMessage(m)
  {
    m.id + m.flags + [0, 1] + [0, |m.answers| as byte] + m.authority + m.additional
  }

  function MessageBytes(m: Message): seq<byte>
    requires ValidMessage(m)
  {
    HeaderBytes(m) + (NameBytes(m.qname) + m.qtype + m.qclass) + RecordsBytes(m.answers)
  }

  // ---------------------------------------------------------------- names and skipped fields

  lemma LeadsTwo(p: Parser, a: byte, b: byte)
    requires Safe(p) && !IsDone(p.currentState) && !IsDone(Feed(p, a).currentState)
    ensures Leads(p, [a, b], Feed(Feed(p, a), b))
  {
    hide Feed, Safe, Leads;
    LeadsOne(p, a);
    LeadsOne(Feed(p, a), b);
    LeadsThrough(p, [a], Feed(p, a), [b], Feed(Feed(p, a), b));
    assert [a] + [b] == [a, b];
  }

  /** States that skip a two-byte field. */
  function AfterSkip(s: ParserState): ParserState {
    match s
    case TRANSACTION_STATE => FLAGS_STATE
    case FLAGS_STATE => QUESTIONS_HIGH
    case AUTHORITY => ADITIONAL
    case ADITIONAL => QUERIES_NAME_FIRST_BYTE
    case QUERIES_TYPE => QUERIES_CLASS
    case QUERIES_CLASS => ANSWERS_NAME_FIRST_BYTE
    case ANSWERS_CLASS => ANSWERS_TTL
    case _ => DONE
  }

  lemma LeadsSkip2(p: Parser, f: seq<byte>)
    requires Safe(p) && |f| == 2 && p.bytesWritten == 0 && !AfterSkip(p.currentState).DONE?
    ensures Leads(p, f, p.(currentState := AfterSkip(p.currentState)))
  {
    hide Leads;
    LeadsTwo(p, f[0], f[1]);
    assert f == [f[0], f[1]];
  }

  predicate NameStates(first: ParserState, other: ParserState) {
    || (first.QUERIES_NAME_FIRST_BYTE? && other.QUERIES_NAME_OTHER_BYTES?)
    || (first.ANSWERS_NAME_FIRST_BYTE? && other.ANSWERS_NAME_OTHER_BYTES?)
  }

  lemma {:induction false} LeadsLabelRest(p: Parser, xs: seq<byte>, first: ParserState)
    requires Safe(p) && NameStates(first, p.currentState) && |xs| == p.bytesWritten
    ensures Leads(p, xs, p.(currentState := first, bytesWritten := 0))
    decreases |xs|
  {
    hide Leads;
    LeadsOne(p, xs[0]);
    assert xs == [xs[0]] + xs[1..];
    if |xs| == 1 {
      assert xs == [xs[0]];
    } else {
      LeadsLabelRest(Feed(p, xs[0]), xs[1..], first);
      LeadsThrough(p, [xs[0]], Feed(p, xs[0]), xs[1..], p.(currentState := first, bytesWritten := 0));
    }
  }

  lemma LeadsLabel(p: Parser, text: seq<byte>, other: ParserState)
    requires Safe(p) && NameStates(p.currentState, other) && 1 <= |text| <= 63
    ensures Leads(p, [|text| as byte] + text, p.(bytesWritten := 0))
  {
    hide Leads;
    var q := Feed(p, |text| as byte);
    LeadsOne(p, |text| as byte);
    LeadsLabelRest(q, text, p.currentState);
    LeadsThrough(p, [|text| as byte], q, text, p.(bytesWritten := 0));
  }

  lemma LeadsNothing(p: Parser)
    requires Safe(p)
    ensures Leads(p, [], p)
  {}

  lemma {:induction false} LeadsLabels(p: Parser, labels: seq<seq<byte>>, other: ParserState)
    requires Safe(p) && NameStates(p.currentState, other)
    requires forall i :: 0 <= i < |labels| ==> 1 <= |labels[i]| <= 63
    ensures Leads(p, LabelBytes(labels), if labels == [] then p else p.(bytesWritten := 0))
    decreases |labels|
  {
    hide Leads, Feed;
    if labels == [] {
      LeadsNothing(p);
    } else {
      LeadsLabel(p, labels[0], other);
      var q := p.(bytesWritten := 0);
      LeadsLabels(q, labels[1..], other);
      LeadsThrough(p, [|labels[0]| as byte] + labels[0], q, LabelBytes(labels[1..]), q);
    }
  }

  /** The parser skips the name of the question, compressed or not. */
  lemma LeadsQuestionName(p: Parser, n: Name)
    requires Safe(p) && p.currentState.QUERIES_NAME_FIRST_BYTE? && p.bytesWritten == 0 && ValidName(n)
    ensures Leads(p, NameBytes(n), p.(currentState := QUERIES_TYPE))
  {
    hide Leads;
    LeadsLabels(p, n.labels, QUERIES_NAME_OTHER_BYTES);
    if n.ending.Root? {
      LeadsOne(p, 0);
    } else {
      LeadsTwo(p, n.ending.hi, n.ending.lo);
    }
    LeadsThrough(p, LabelBytes(n.labels), p, EndBytes(n.ending), p.(currentState := QUERIES_TYPE));
  }

  /** The owner name of an answer, wherever the previous record left the shared counter. */
  lemma LeadsOwner(p: Parser, n: Name)
    requires Safe(p) && p.currentState.ANSWERS_NAME_FIRST_BYTE? && ValidName(n)
    requires n.labels != [] || n.ending.Pointer? || p.bytesWritten == 0
    ensures Leads(p, NameBytes(n), p.(currentState := ANSWERS_TYPE_HIGH, bytesWritten := 0))
  {
    hide Leads;
    LeadsLabels(p, n.labels, ANSWERS_NAME_OTHER_BYTES);
    var q := if n.labels == [] then p else p.(bytesWritten := 0);
    if n.ending.Root? {
      LeadsOne(q, 0);
    } else {
      LeadsTwo(q, n.ending.hi, n.ending.lo);
    }
    LeadsThrough(p, LabelBytes(n.labels), q, EndBytes(n.ending),
                 p.(currentState := ANSWERS_TYPE_HIGH, bytesWritten := 0));
  }

  // ---------------------------------------------------------------- the header

  lemma LeadsHeader(m: Message)
    requires ValidMessage(m)
    ensures var n := |m.answers|;
            Leads(INIT, HeaderBytes(m), INIT.(totalQuestions := 1, totalAnswers := n, addresses := seq(n, _ => BLANK),
                                              currentState := QUERIES_NAME_FIRST_BYTE))
  {
    hide Leads;
    var n := |m.answers|;
    var p1 := INIT.(currentState := FLAGS_STATE);
    var p2 := INIT.(currentState := QUESTIONS_HIGH);
    var p3 := INIT.(currentState := ANSWERS_HIGH, totalQuestions := 1);
    var p4 := p3.(totalAnswers := n, addresses := seq(n, _ => BLANK), currentState := AUTHORITY);
    var p5 := p4.(currentState := ADITIONAL);
    var p6 := p4.(currentState := QUERIES_NAME_FIRST_BYTE);
    LeadsSkip2(INIT, m.id);
    LeadsSkip2(p1, m.flags);
    LeadsThrough(INIT, m.id, p1, m.flags, p2);
    LeadsTwo(p2, 0, 1);
    LeadsThrough(INIT, m.id + m.flags, p2, [0, 1], p3);
    LeadsTwo(p3, 0, n);
    LeadsThrough(INIT, m.id + m.flags + [0, 1], p3, [0, n as byte], p4);
    LeadsSkip2(p4, m.authority);
    LeadsThrough(INIT, m.id + m.flags + [0, 1] + [0, n as byte], p4, m.authority, p5);
    LeadsSkip2(p5, m.additional);
    LeadsThrough(INIT, m.id + m.flags + [0, 1] + [0, n as byte] + m.authority, p5, m.additional, p6);
  }

  /** The question is skipped exactly: the next byte is the first of the first answer's owner name. */
  lemma LeadsQuestion(p: Parser, n: Name, qtype: seq<byte>, qclass: seq<byte>)
    requires Safe(p) && p.currentState.QUERIES_NAME_FIRST_BYTE? && p.bytesWritten == 0
    requires ValidName(n) && |qtype| == 2 && |qclass| == 2
    ensures Leads(p, NameBytes(n) + qtype + qclass, p.(currentState := ANSWERS_NAME_FIRST_BYTE))
  {
    hide Leads, NameBytes, Feed;
    var p1 := p.(currentState := QUERIES_TYPE);
    var p2 := p.(currentState := QUERIES_CLASS);
    var p3 := p.(currentState := ANSWERS_NAME_FIRST_BYTE);
    LeadsQuestionName(p, n);
    LeadsSkip2(p1, qtype);
    LeadsSkip2(p2, qclass);
    LeadsThrough(p, NameBytes(n), p1, qtype, p2);
    LeadsThrough(p, NameBytes(n) + qtype, p2, qclass, p3);
  }

  // ---------------------------------------------------------------- records

  lemma LeadsTtl(p: Parser, ttl: seq<byte>)
    requires Safe(p) && p.currentState.ANSWERS_TTL? && p.bytesWritten == 0 && |ttl| == 4
    ensures Leads(p, ttl, p.(bytesWritten := 3, currentState := ANSWERS_DATA_LENGTH_HIGH))
  {
    hide Leads;
    LeadsTwo(p, ttl[0], ttl[1]);
    LeadsTwo(p.(bytesWritten := 2), ttl[2], ttl[3]);
    LeadsThrough(p, [ttl[0], ttl[1]], p.(bytesWritten := 2), [ttl[2], ttl[3]],
                 p.(bytesWritten := 3, currentState := ANSWERS_DATA_LENGTH_HIGH));
    assert ttl == [ttl[0], ttl[1]] + [ttl[2], ttl[3]];
  }

  lemma LeadsType(p: Parser, t: byte)
    requires Safe(p) && p.currentState.ANSWERS_TYPE_HIGH?
    ensures Leads(p, [0, t], p.(currentState := ANSWERS_CLASS, currentType := t))
  {
    hide Leads;
    LeadsTwo(p, 0, t);
  }

  lemma LeadsLengthHigh(p: Parser)
    requires Safe(p) && p.currentState.ANSWERS_DATA_LENGTH_HIGH?
    ensures Leads(p, [0], p.(currentState := ANSWERS_DATA_LENGTH_LOW, dataLength := 0))
  {
    hide Leads;
    LeadsOne(p, 0);
  }

  /** Owner, type, class, TTL and length of a record; the shared counter is left at 3. */
  lemma LeadsRecordHeader(p: Parser, r: Record)
    requires Safe(p) && p.currentState.ANSWERS_NAME_FIRST_BYTE? && ValidRecord(r)
    requires p.bytesWritten == 0 || !RootOwned(r)
    ensures var q := p.(currentState := ANSWERS_DATA_LENGTH_LOW, bytesWritten := 3, currentType := r.rtype,
                        dataLength := 0);
            Safe(q) && Leads(p, NameBytes(r.owner) + [0, r.rtype] + r.class_ + r.ttl + [0], q)
  {
    hide Leads, NameBytes, Feed;
    var p1 := p.(currentState := ANSWERS_TYPE_HIGH, bytesWritten := 0);
    var p2 := p1.(currentState := ANSWERS_CLASS, currentType := r.rtype);
    var p3 := p2.(currentState := ANSWERS_TTL);
    var p4 := p2.(currentState := ANSWERS_DATA_LENGTH_HIGH, bytesWritten := 3);
    var p5 := p4.(currentState := ANSWERS_DATA_LENGTH_LOW, dataLength := 0);
    var b := NameBytes(r.owner);
    LeadsOwner(p, r.owner);
    LeadsType(p1, r.rtype);
    LeadsThrough(p, b, p1, [0, r.rtype], p2);
    LeadsSkip2(p2, r.class_);
    LeadsThrough(p, b + [0, r.rtype], p2, r.class_, p3);
    LeadsTtl(p3, r.ttl);
    LeadsThrough(p, b + [0, r.rtype] + r.class_, p3, r.ttl, p4);
    LeadsLengthHigh(p4);
    LeadsThrough(p, b + [0, r.rtype] + r.class_ + r.ttl, p4, [0], p5);
  }

  lemma {:induction false} LeadsSkippedData(p: Parser, data: seq<byte>)
    requires Safe(p) && p.currentState.CNAME? && |data| == p.dataLength > 0
    ensures Leads(p, data, NextRecord(p.(dataLength := 1)))
    decreases |data|
  {
    hide Leads;
    LeadsOne(p, data[0]);
    assert data == [data[0]] + data[1..];
    if |data| == 1 {
      assert data == [data[0]];
    } else {
      LeadsSkippedData(Feed(p, data[0]), data[1..]);
      LeadsThrough(p, [data[0]], Feed(p, data[0]), data[1..], NextRecord(p.(dataLength := 1)));
    }
  }

  lemma LastDigit(hi: nat, lo: nat)
    requires lo < 256
    ensures (hi * 256 + lo) / 256 == hi && (hi * 256 + lo) % 256 == lo
  {}

  lemma DigitsInMemory(a: nat, b: nat, c: nat, d: nat)
    requires a < 256 && b < 256 && c < 256 && d < 256
    ensures InMemory(Digits(a, b, c, d)) == [d, c, b, a]
  {
    LastDigit((a * 256 + b) * 256 + c, d);
    LastDigit(a * 256 + b, c);
    LastDigit(a, b);
  }

  /** The accumulated number, converted by htonl, has the received bytes in memory in their order. */
  lemma NetworkOrder(a: byte, b: byte, c: byte, d: byte)
    ensures InMemory(Htonl(Digits(a, b, c, d))) == [a, b, c, d]
  {
    hide Digits;
    DigitsInMemory(a, b, c, d);
    DigitsInMemory(d, c, b, a);
    assert Htonl(Digits(a, b, c, d)) == Digits(d, c, b, a);
  }

  lemma Ipv4Accumulates(p: Parser, b: byte)
    requires Safe(p) && p.currentState.IPV4_ADDRESS? && p.counter > 1
    requires p.addresses[p.currentAnswers].s_addr * 256 + b < 0x1_0000_0000
    ensures var a := p.addresses[p.currentAnswers];
            Feed(p, b) == p.(counter := p.counter - 1,
                             addresses := p.addresses[p.currentAnswers := a.(s_addr := a.s_addr * 256 + b)])
  {}

  lemma Ipv4Completes(p: Parser, b: byte)
    requires Safe(p) && p.currentState.IPV4_ADDRESS? && p.counter == 1
    requires p.addresses[p.currentAnswers].s_addr * 256 + b < 0x1_0000_0000
    ensures var a := p.addresses[p.currentAnswers];
            var done := a.(s_addr := Htonl(a.s_addr * 256 + b));
            Feed(p, b) == NextRecord(p.(counter := 0, currentAnswers := p.currentAnswers + 1,
                                        addresses := p.addresses[p.currentAnswers := done]))
  {
    hide Htonl;
  }

  /** Four address bytes, from a blank entry. */
  lemma LeadsIpv4(p: Parser, a: byte, b: byte, c: byte, d: byte)
    requires Safe(p) && p.currentState.IPV4_ADDRESS? && p.counter == 4
    requires p.addresses[p.currentAnswers].s_addr == 0
    ensures var e := p.addresses[p.currentAnswers].(s_addr := Htonl(Digits(a, b, c, d)));
            Leads(p, [a, b, c, d], NextRecord(p.(counter := 0, currentAnswers := p.currentAnswers + 1,
                                                 addresses := p.addresses[p.currentAnswers := e])))
  {
    hide Leads, Htonl, NextRecord, Feed;
    var i := p.currentAnswers;
    var e := p.addresses[i];
    Ipv4Accumulates(p, a);
    var p1 := Feed(p, a);
    Ipv4Accumulates(p1, b);
    var p2 := Feed(p1, b);
    assert p2.addresses == p.addresses[i := e.(s_addr := (a as nat) * 256 + b)];
    LeadsTwo(p, a, b);
    Ipv4Accumulates(p2, c);
    var p3 := Feed(p2, c);
    assert p3.addresses == p.addresses[i := e.(s_addr := ((a as nat) * 256 + b) * 256 + c)];
    Ipv4Completes(p3, d);
    var p4 := Feed(p3, d);
    assert p3.addresses[i := e.(s_addr := Htonl(Digits(a, b, c, d)))] ==
           p.addresses[i := e.(s_addr := Htonl(Digits(a, b, c, d)))];
    LeadsTwo(p2, c, d);
    LeadsThrough(p, [a, b], p2, [c, d], p4);
    assert [a, b] + [c, d] == [a, b, c, d];
  }

  /** The address bytes of an AAAA record go to positions 0 to 15 of the entry, in order. */
  lemma {:induction false} LeadsIpv6(p: Parser, d: seq<byte>)
    requires Safe(p) && p.currentState.IPV6_ADDRESS? && |d| == p.counter
    ensures var e := p.addresses[p.currentAnswers];
            var e' := e.(s6_addr := e.s6_addr[..16 - p.counter] + d);
            Leads(p, d, NextRecord(p.(counter := 0, currentAnswers := p.currentAnswers + 1,
                                      addresses := p.addresses[p.currentAnswers := e'])))
    decreases |d|
  {
    hide Leads, NextRecord;
    var i := p.currentAnswers;
    var e := p.addresses[i];
    var k := 16 - p.counter;
    LeadsOne(p, d[0]);
    assert d == [d[0]] + d[1..];
    var e1 := e.(s6_addr := e.s6_addr[k := d[0]]);
    if |d| == 1 {
      assert d == [d[0]];
      assert e.s6_addr[k := d[0]] == e.s6_addr[..k] + d;
    } else {
      var q := Feed(p, d[0]);
      assert q == p.(counter := p.counter - 1, addresses := p.addresses[i := e1]);
      LeadsIpv6(q, d[1..]);
      assert e1.s6_addr[..k + 1] + d[1..] == e.s6_addr[..k] + d;
      var e2 := e.(s6_addr := e.s6_addr[..k] + d);
      assert q.addresses[i := e2] == p.addresses[i := e2];
      LeadsThrough(p, [d[0]], q, d[1..],
                   NextRecord(p.(counter := 0, currentAnswers := i + 1,
                                 addresses := p.addresses[i := e.(s6_addr := e.s6_addr[..k] + d)])));
    }
  }

  /** The slots of the list that no address has been stored in yet. */
  ghost predicate BlankFrom(p: Parser) {
    forall i :: p.currentAnswers <= i < |p.addresses| ==> p.addresses[i] == BLANK
  }

  predicate IsAddress(r: Record) { IsA(r) || IsAAAA(r) }

  /** What one record does to the parser. */
  ghost predicate RecordDone(p: Parser, r: Record, q: Parser)
    requires Safe(p) && p.currentAnswers < p.totalAnswers
  {
    && Safe(q) && BlankFrom(q)
    && q.currentState == (if q.currentAnswers == q.totalAnswers then DONE else ANSWERS_NAME_FIRST_BYTE)
    && q.totalAnswers - q.currentAnswers == p.totalAnswers - p.currentAnswers - 1
    && q.currentAnswers == p.currentAnswers + (if IsAddress(r) then 1 else 0)
    && q.addresses[..p.currentAnswers] == p.addresses[..p.currentAnswers]
    && (IsAddress(r) ==> Holds(q.addresses[p.currentAnswers], r))
    && (q.currentState.DONE? && q.totalAnswers > 0 ==> |q.addresses| == q.totalAnswers)
  }

  lemma LeadsDataA(p: Parser, r: Record) returns (q: Parser)
    requires Safe(p) && p.currentState.IPV4_ADDRESS? && p.counter == 4 && IsA(r) && BlankAfterType(p, IP4_TYPE)
    ensures Leads(p, r.data, q) && RecordDone(p, r, q) && q.bytesWritten == p.bytesWritten
  {
    hide Leads, Htonl, InMemory, Digits, Feed;
    var d := r.data;
    assert d == [d[0], d[1], d[2], d[3]];
    LeadsIpv4(p, d[0], d[1], d[2], d[3]);
    NetworkOrder(d[0], d[1], d[2], d[3]);
    var e := p.addresses[p.currentAnswers].(s_addr := Htonl(Digits(d[0], d[1], d[2], d[3])));
    q := NextRecord(p.(counter := 0, currentAnswers := p.currentAnswers + 1,
                       addresses := p.addresses[p.currentAnswers := e]));
    LeadsSafe(p, d, q);
  }

  lemma LeadsDataAAAA(p: Parser, r: Record) returns (q: Parser)
    requires Safe(p) && p.currentState.IPV6_ADDRESS? && p.counter == 16 && IsAAAA(r) && BlankAfterType(p, IP6_TYPE)
    ensures Leads(p, r.data, q) && RecordDone(p, r, q) && q.bytesWritten == p.bytesWritten
  {
    hide Leads, InMemory, Feed;
    LeadsIpv6(p, r.data);
    var e := p.addresses[p.currentAnswers];
    assert e.s6_addr[..0] + r.data == r.data;
    q := NextRecord(p.(counter := 0, currentAnswers := p.currentAnswers + 1,
                       addresses := p.addresses[p.currentAnswers := e.(s6_addr := r.data)]));
    LeadsSafe(p, r.data, q);
  }

  ghost predicate BlankAfterType(p: Parser, t: byte)
    requires Safe(p)
  {
    forall i :: p.currentAnswers <= i < |p.addresses| ==>
      p.addresses[i] == if i == p.currentAnswers then BLANK.(ipType := t) else BLANK
  }

  lemma LeadsDataOther(p: Parser, r: Record) returns (q: Parser)
    requires Safe(p) && p.currentState.CNAME? && |r.data| == p.dataLength > 0 && !IsAddress(r) && BlankFrom(p)
    ensures Leads(p, r.data, q) && Safe(q) && BlankFrom(q) && q.bytesWritten == p.bytesWritten
    ensures q.currentState == (if q.currentAnswers == q.totalAnswers then DONE else ANSWERS_NAME_FIRST_BYTE)
    ensures q.totalAnswers == p.totalAnswers && q.currentAnswers == p.currentAnswers
    ensures |q.addresses| >= q.currentAnswers && q.addresses[..p.currentAnswers] == p.addresses[..p.currentAnswers]
    ensures q.currentState.DONE? && q.totalAnswers > 0 ==> |q.addresses| == q.totalAnswers
  {
    hide Leads, InMemory, Feed;
    LeadsSkippedData(p, r.data);
    q := NextRecord(p.(dataLength := 1));
    LeadsSafe(p, r.data, q);
  }

  /** The data of a record, from the low byte of its length on. */
  lemma LeadsData(p: Parser, r: Record) returns (q: Parser)
    requires Safe(p) && p.currentState.ANSWERS_DATA_LENGTH_LOW? && p.dataLength == 0 && p.currentType == r.rtype
    requires ValidRecord(r) && BlankFrom(p)
    ensures Leads(p, [|r.data| as byte] + r.data, q) && RecordDone(p, r, q) && q.bytesWritten == p.bytesWritten
  {
    hide Leads, InMemory, ValidName;
    var n := |r.data| as byte;
    LeadsOne(p, n);
    var p1 := Feed(p, n);
    if IsA(r) {
      q := LeadsDataA(p1, r);
    } else if IsAAAA(r) {
      q := LeadsDataAAAA(p1, r);
    } else {
      q := LeadsDataOther(p1, r);
    }
    LeadsThrough(p, [n], p1, r.data, q);
  }

  /** A record is read right unless the root owns it and the shared counter is not zero, and it leaves that
      counter at 3: so only the first record may be owned by the root. */
  lemma LeadsRecord(p: Parser, r: Record) returns (q: Parser)
    requires Safe(p) && p.currentState.ANSWERS_NAME_FIRST_BYTE? && ValidRecord(r) && BlankFrom(p)
    requires p.bytesWritten == 0 || !RootOwned(r)
    ensures Leads(p, RecordBytes(r), q) && RecordDone(p, r, q) && q.bytesWritten == 3
  {
    hide Leads, NameBytes, Feed, Holds;
    LeadsRecordHeader(p, r);
    var p1 := p.(currentState := ANSWERS_DATA_LENGTH_LOW, bytesWritten := 3, currentType := r.rtype, dataLength := 0);
    q := LeadsData(p1, r);
    var head := NameBytes(r.owner) + [0, r.rtype] + r.class_ + r.ttl + [0];
    LeadsThrough(p, head, p1, [|r.data| as byte] + r.data, q);
    assert head + ([|r.data| as byte] + r.data) == RecordBytes(r) by {
      assert [0] + [|r.data| as byte] == [0, |r.data| as byte];
    }
  }

  /** The list holds the addresses of the address records, in order, from position k on. */
  ghost predicate HoldsAll(list: seq<IpAddress>, k: nat, rs: seq<Record>) {
    && k + |rs| <= |list|
    && forall i :: 0 <= i < |rs| ==> Holds(list[k + i], rs[i])
  }

  lemma {:induction false} LeadsRecords(p: Parser, rs: seq<Record>) returns (q: Parser)
    requires Safe(p) && p.currentState.ANSWERS_NAME_FIRST_BYTE? && BlankFrom(p)
    requires |rs| == p.totalAnswers - p.currentAnswers && ReadableInRow(rs)
    requires p.bytesWritten == 0 || !RootOwned(rs[0])
    ensures Leads(p, RecordsBytes(rs), q) && Safe(q) && q.currentState.DONE?
    ensures q.totalAnswers == p.currentAnswers + |AddressRecords(rs)|
    ensures q.totalAnswers > 0 ==> |q.addresses| == q.totalAnswers
    ensures |q.addresses| >= p.currentAnswers && q.addresses[..p.currentAnswers] == p.addresses[..p.currentAnswers]
    ensures HoldsAll(q.addresses, p.currentAnswers, AddressRecords(rs))
    decreases |rs|
  {
    hide Leads, RecordBytes, Feed, Holds, IsA, IsAAAA;
    var p1 := LeadsRecord(p, rs[0]);
    if |rs| == 1 {
      q := p1;
      assert rs[1..] == [] && RecordsBytes(rs) == RecordBytes(rs[0]) + [];
      assert RecordBytes(rs[0]) + [] == RecordBytes(rs[0]);
    } else {
      q := LeadsRecords(p1, rs[1..]);
      LeadsThrough(p, RecordBytes(rs[0]), p1, RecordsBytes(rs[1..]), q);
      FirstAddress(p.addresses, p.currentAnswers, p1.addresses, q.addresses, rs);
    }
  }

  /** A list that agrees with another up to k, then holds the first record if that is an address record, and
      then the addresses of the others. */
  lemma FirstAddress(before: seq<IpAddress>, k: nat, mid: seq<IpAddress>, end: seq<IpAddress>, rs: seq<Record>)
    requires rs != [] && k <= |before|
    requires var k1 := k + (if IsAddress(rs[0]) then 1 else 0);
             && k1 <= |mid| && k1 <= |end| && end[..k1] == mid[..k1] && mid[..k] == before[..k]
             && (IsAddress(rs[0]) ==> Holds(mid[k], rs[0]))
             && HoldsAll(end, k1, AddressRecords(rs[1..]))
    ensures end[..k] == before[..k] && HoldsAll(end, k, AddressRecords(rs))
  {
    hide Holds, HoldsAll, IsA, IsAAAA;
    if IsAddress(rs[0]) {
      assert end[k] == end[..k + 1][k] == mid[..k + 1][k] == mid[k];
      assert end[..k] == end[..k + 1][..k] && mid[..k] == mid[..k + 1][..k];
      HoldsOneMore(end, k, rs[0], AddressRecords(rs[1..]));
    } else {
      assert [] + AddressRecords(rs[1..]) == AddressRecords(rs[1..]);
    }
  }

  lemma HoldsOneMore(list: seq<IpAddress>, k: nat, r: Record, rs: seq<Record>)
    requires k < |list| && Holds(list[k], r) && HoldsAll(list, k + 1, rs)
    ensures HoldsAll(list, k, [r] + rs)
  {
    hide Holds;
    var all := [r] + rs;
    forall i | 0 <= i < |all|
      ensures Holds(list[k + i], all[i])
    {
      if i > 0 { assert Holds(list[k + 1 + (i - 1)], rs[i - 1]); }
    }
  }

  // ---------------------------------------------------------------- the main results

  /** Parsing undoes serialisation: for every message of the profile and whatever follows it, the parser
      is done right after the last answer and holds exactly the A and AAAA addresses, in order. */
  lemma ParseInvertsSerialise(m: Message, tail: seq<byte>)
    requires ValidMessage(m)
    ensures var (q, n) := Parse(INIT, MessageBytes(m) + tail);
            && q.currentState.DONE? && n == |MessageBytes(m)|
            && q.totalAnswers == |AddressRecords(m.answers)| && q.counter == 0
            && HoldsAll(q.addresses, 0, AddressRecords(m.answers))
  {
    hide Leads, Feed, Holds, RecordBytes, NameBytes, LabelBytes, ValidName;
    var n := |m.answers|;
    var p1 := INIT.(totalQuestions := 1, totalAnswers := n, addresses := seq(n, _ => BLANK),
                    currentState := QUERIES_NAME_FIRST_BYTE);
    var p2 := p1.(currentState := ANSWERS_NAME_FIRST_BYTE);
    var question := NameBytes(m.qname) + m.qtype + m.qclass;
    LeadsHeader(m);
    LeadsQuestion(p1, m.qname, m.qtype, m.qclass);
    LeadsThrough(INIT, HeaderBytes(m), p1, question, p2);
    var q := LeadsRecords(p2, m.answers);
    LeadsThrough(INIT, HeaderBytes(m) + question, p2, RecordsBytes(m.answers), q);
    LeadsParse(INIT, MessageBytes(m), q, tail);
  }

  /** Of a count, a type or a length of two bytes the first is forgotten, together with what was held before. */
  lemma FirstByteIsForgotten(p: Parser, high: byte)
    requires Safe(p) && p.currentState in {QUESTIONS_HIGH, ANSWERS_HIGH, ANSWERS_TYPE_HIGH, ANSWERS_DATA_LENGTH_HIGH}
    ensures match p.currentState
            case QUESTIONS_HIGH => Feed(p, high) == p.(totalQuestions := 0, currentState := QUESTIONS_LOW)
            case ANSWERS_HIGH => Feed(p, high) == p.(totalAnswers := 0, currentState := ANSWERS_LOW)
            case ANSWERS_TYPE_HIGH => Feed(p, high) == p.(currentType := 0, currentState := ANSWERS_TYPE_LOW)
            case _ => Feed(p, high) == p.(dataLength := 0, currentState := ANSWERS_DATA_LENGTH_LOW)
  {
    hide Safe, FeedQuestion, FeedData;
  }

  /** A message that announces no answer, an error report say, is done with that announcement: the parser has no
      address and reads nothing behind it.  So is one that announces a multiple of 256. */
  lemma NoAnswersEndParsing(id: seq<byte>, flags: seq<byte>, questions: seq<byte>, high: byte, tail: seq<byte>)
    requires |id| == 2 && |flags| == 2 && |questions| == 2
    ensures var (q, n) := Parse(INIT, id + flags + questions + [high, 0] + tail);
            q.currentState.DONE? && q.addresses == [] && q.totalAnswers == 0 && n == 8
  {
    hide Leads, Feed;
    var p1, p2 := INIT.(currentState := FLAGS_STATE), INIT.(currentState := QUESTIONS_HIGH);
    LeadsSkip2(INIT, id);
    LeadsSkip2(p1, flags);
    LeadsThrough(INIT, id, p1, flags, p2);
    var q := CountsRead(p2, questions[0], questions[1], high);
    assert questions + [high, 0] == [questions[0], questions[1], high, 0];
    LeadsThrough(INIT, id + flags, p2, questions + [high, 0], q);
    assert id + flags + (questions + [high, 0]) == id + flags + questions + [high, 0];
    LeadsParse(INIT, id + flags + questions + [high, 0], q, tail);
  }

  lemma CountsRead(p: Parser, a: byte, b: byte, high: byte) returns (q: Parser)
    requires p == INIT.(currentState := QUESTIONS_HIGH)
    ensures Leads(p, [a, b, high, 0], q)
    ensures q.currentState.DONE? && q.addresses == [] && q.totalAnswers == 0
  {
    hide Leads;
    var p1 := Feed(p, a);
    var p2 := Feed(p1, b);
    LeadsTwo(p, a, b);
    q := Feed(Feed(p2, high), 0);
    LeadsTwo(p2, high, 0);
    LeadsThrough(p, [a, b], p2, [high, 0], q);
    assert [a, b] + [high, 0] == [a, b, high, 0];
  }

  /** Parsing undoes serialisation whatever chunks the message arrives in. */
  lemma ParseInvertsSerialiseInChunks(m: Message, chunks: seq<seq<byte>>)
    requires ValidMessage(m) && ByteParsers.Concat(chunks) == MessageBytes(m)
    ensures var q := ParseChunks(INIT, chunks);
            && q.currentState.DONE? && q.totalAnswers == |AddressRecords(m.answers)|
            && HoldsAll(q.addresses, 0, AddressRecords(m.answers))
  {
    hide Feed, MessageBytes;
    ChunkingIsIrrelevant(INIT, chunks);
    ParseInvertsSerialise(m, []);
    assert MessageBytes(m) + [] == MessageBytes(m);
  }

  /** The number of answers still expected. */
  function Expected(p: Parser): int { p.totalAnswers - p.currentAnswers }

  /** For every byte string at all, the expected answers go down by exactly one a record, when its data
      turns out to be skipped or its address is complete. */
  lemma ExpectedGoesDown(p: Parser, b: byte)
    requires Safe(p) && (InRecord(p.currentState) || p.currentState.CNAME?)
    ensures var q := Feed(p, b);
            Expected(q) == Expected(p)
              - (if (p.currentState.ANSWERS_DATA_LENGTH_LOW? && q.currentState.CNAME?)
                    || (p.currentState in {IPV4_ADDRESS, IPV6_ADDRESS} && p.counter == 1) then 1 else 0)
  {
    hide FeedHeader, FeedQuestion, FeedAnswerHeader, FeedData, Safe;
    HeadersKeepExpected(p, b);
    DataTakesExpected(p, b);
  }

  lemma HeadersKeepExpected(p: Parser, b: byte)
    requires Safe(p)
    ensures p.currentState in {AUTHORITY, ADITIONAL} ==> Expected(FeedHeader(p, b)) == Expected(p)
    ensures Expected(FeedQuestion(p, b)) == Expected(p)
    ensures Expected(FeedAnswerHeader(p, b)) == Expected(p)
  {}

  lemma DataTakesExpected(p: Parser, b: byte)
    requires Safe(p) && (InRecord(p.currentState) || p.currentState.CNAME?)
    ensures var q := FeedData(p, b);
            Expected(q) == Expected(p)
              - (if (p.currentState.ANSWERS_DATA_LENGTH_LOW? && q.currentState.CNAME?)
                    || (p.currentState in {IPV4_ADDRESS, IPV6_ADDRESS} && p.counter == 1) then 1 else 0)
  {
    hide Htonl;
  }

  /** For every byte string, and in every chunking, a finished parse has its counter back at zero and
      lists no more addresses than it has. */
  lemma EveryParseEndsInRange(chunks: seq<seq<byte>>)
    ensures var q := ParseChunks(INIT, chunks);
            Safe(q) && (q.currentState.DONE? ==> q.counter == 0 && q.currentAnswers == q.totalAnswers <= |q.addresses|)
  {
    ChunksSafe(INIT, chunks);
  }

  lemma {:induction false} ChunksSafe(p: Parser, chunks: seq<seq<byte>>)
    requires Safe(p)
    ensures Safe(ParseChunks(p, chunks))
    decreases |chunks|
  {
    hide Safe, Parse;
    if chunks != [] {
      ParseSafe(p, chunks[0]);
      ChunksSafe(Parse(p, chunks[0]).0, chunks[1..]);
    }
  }

  /** The root as owner name is misread when the shared counter was left at something else than zero, as
      every record after the first one finds it: the class is then taken to be one byte long. */
  lemma OwnerReadExactlyWhen(p: Parser, n: Name, t: byte, class_: seq<byte>)
    requires Safe(p) && p.currentState.ANSWERS_NAME_FIRST_BYTE? && ValidName(n) && |class_| == 2
    ensures Parse(p, NameBytes(n) + [0, t] + class_).0 ==
            p.(currentState := ANSWERS_TTL, bytesWritten := 0, currentType := t)
            <==> n.labels != [] || n.ending.Pointer? || p.bytesWritten == 0
  {
    hide Feed, Fed;
    if n.labels != [] || n.ending.Pointer? || p.bytesWritten == 0 {
      var p1 := p.(currentState := ANSWERS_TYPE_HIGH, bytesWritten := 0);
      var p2 := p1.(currentState := ANSWERS_CLASS, currentType := t);
      LeadsOwner(p, n);
      LeadsType(p1, t);
      LeadsThrough(p, NameBytes(n), p1, [0, t], p2);
      LeadsSkip2(p2, class_);
      LeadsThrough(p, NameBytes(n) + [0, t], p2, class_, p2.(currentState := ANSWERS_TTL));
      ByteParsers.LeadsFold(Fed, Final, p, NameBytes(n) + [0, t] + class_, p2.(currentState := ANSWERS_TTL));
    } else {
      RootMisread(p, t, class_[0], class_[1]);
      assert NameBytes(n) + [0, t] + class_ == [0] + [0, t] + [class_[0], class_[1]];
      ByteParsers.LeadsFold(Fed, Final, p, NameBytes(n) + [0, t] + class_,
                            p.(currentState := ANSWERS_TTL, bytesWritten := 1, currentType := t));
    }
  }

  lemma RootMisread(p: Parser, t: byte, c: byte, d: byte)
    requires Safe(p) && p.currentState.ANSWERS_NAME_FIRST_BYTE? && p.bytesWritten != 0
    ensures Leads(p, [0] + [0, t] + [c, d], p.(currentState := ANSWERS_TTL, bytesWritten := 1, currentType := t))
  {
    hide Leads;
    var p1 := p.(currentState := ANSWERS_TYPE_HIGH);
    var p2 := p.(currentState := ANSWERS_CLASS, currentType := t);
    LeadsOne(p, 0);
    LeadsType(p1, t);
    LeadsThrough(p, [0], p1, [0, t], p2);
    LeadsTwo(p2, c, d);
    LeadsThrough(p, [0] + [0, t], p2, [c, d], p2.(currentState := ANSWERS_TTL, bytesWritten := 1));
  }
}
