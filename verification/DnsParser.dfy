/**
  The DNS response parser: one byte at a time, with 8-bit counters that several states share.
 */
module DnsParser {
  import opened Buckets

  datatype ParserState =
    | TRANSACTION_STATE | FLAGS_STATE | QUESTIONS_HIGH | QUESTIONS_LOW | ANSWERS_HIGH | ANSWERS_LOW
    | AUTHORITY | ADITIONAL
    | QUERIES_NAME_FIRST_BYTE | QUERIES_NAME_REFERENCE_SECOND_BYTE | QUERIES_NAME_OTHER_BYTES
    | QUERIES_TYPE | QUERIES_CLASS
    | ANSWERS_NAME_FIRST_BYTE | REFERENCE_SECOND_BYTE | ANSWERS_NAME_OTHER_BYTES
    | ANSWERS_TYPE_HIGH | ANSWERS_TYPE_LOW | ANSWERS_CLASS | ANSWERS_TTL
    | ANSWERS_DATA_LENGTH_HIGH | ANSWERS_DATA_LENGTH_LOW
    | IPV4_ADDRESS | IPV6_ADDRESS | CNAME | DONE | ERROR

  const IP4_TYPE: byte := 1
  const IP6_TYPE: byte := 4
  const QUERY_A: byte := 1
  const QUERY_AAAA: byte := 0x1c

  /** An entry of the address list; the source keeps both addresses in a union. */
  datatype IpAddress = IpAddress(ipType: byte, s_addr: nat, s6_addr: seq<byte>)

  /** calloc */
  const BLANK := IpAddress(0, 0, [0, 0, 0, 0, 0, 0, 0, 0, 0, 0, 0, 0, 0, 0, 0, 0])

  datatype Parser = Parser(
    currentState: ParserState, addresses: seq<IpAddress>,
    totalQuestions: byte, totalAnswers: byte, currentAnswers: byte,
    bytesWritten: byte, currentType: byte, dataLength: byte, counter: byte)

  const INIT := Parser(TRANSACTION_STATE, [], 0, 0, 0, 0, 0, 0, 0)

  /** Unsigned 8-bit truncation. */
  function U8(n: int): byte { n % 256 }

  function U32(n: int): nat { n % 0x1_0000_0000 }

  /** The number with the given digits in base 256, most significant first. */
  function Digits(a: nat, b: nat, c: nat, d: nat): nat {
    ((a * 256 + b) * 256 + c) * 256 + d
  }

  /** htonl on a little-endian machine: the four bytes are reversed. */
  function Htonl(v: nat): nat {
    Digits(v % 256, v / 256 % 256, v / 256 / 256 % 256, v / 256 / 256 / 256 % 256)
  }

  predicate IsName(b: byte) { b / 64 == 3 }  // (b & 0xC0) == 0xC0

  predicate IsDone(s: ParserState) { s.DONE? || s.ERROR? }

  // ---------------------------------------------------------------- one byte

  /** States in which a record's header or address is being read: its slot in the list exists. */
  predicate InRecord(s: ParserState) {
    s in {AUTHORITY, ADITIONAL, QUERIES_NAME_FIRST_BYTE, QUERIES_NAME_REFERENCE_SECOND_BYTE, QUERIES_NAME_OTHER_BYTES,
          QUERIES_TYPE, QUERIES_CLASS, ANSWERS_NAME_FIRST_BYTE, REFERENCE_SECOND_BYTE, ANSWERS_NAME_OTHER_BYTES,
          ANSWERS_TYPE_HIGH, ANSWERS_TYPE_LOW, ANSWERS_CLASS, ANSWERS_TTL, ANSWERS_DATA_LENGTH_HIGH,
          ANSWERS_DATA_LENGTH_LOW, IPV4_ADDRESS, IPV6_ADDRESS}
  }

  /** What keeps every index, counter and decrement of the parser in range. */
  predicate Safe(p: Parser) {
    && (forall i :: 0 <= i < |p.addresses| ==> |p.addresses[i].s6_addr| == 16)
    && (InRecord(p.currentState) ==> p.currentAnswers < p.totalAnswers)
    && (InRecord(p.currentState) || p.currentState.CNAME? ==> p.currentAnswers <= p.totalAnswers <= |p.addresses|)
    && (p.currentState.DONE? ==> p.currentAnswers == p.totalAnswers && |p.addresses| >= p.totalAnswers)
    && (!InRecord(p.currentState) && !p.currentState.CNAME? && !p.currentState.DONE? ==> p.currentAnswers == 0)
    && (p.currentState in {QUERIES_NAME_OTHER_BYTES, ANSWERS_NAME_OTHER_BYTES} ==> p.bytesWritten > 0)
    && (p.currentState.IPV4_ADDRESS? ==> 1 <= p.counter <= 4)
    && (p.currentState.IPV6_ADDRESS? ==> p.dataLength == 16 && 1 <= p.counter <= 16)
    && (!p.currentState.IPV4_ADDRESS? && !p.currentState.IPV6_ADDRESS? ==> p.counter == 0)
  }

  /** A two-byte field that is skipped. */
  function Skip2(p: Parser, next: ParserState): Parser {
    if p.bytesWritten == 0 then p.(bytesWritten := 1) else p.(bytesWritten := 0, currentState := next)
  }

  function Skipped(p: Parser): Parser {
    p.(totalAnswers := U8(p.totalAnswers - 1), currentState := CNAME)
  }

  /** After a record: the next one, or the list trimmed by realloc and the end. */
  function NextRecord(p: Parser): Parser
    requires p.totalAnswers <= |p.addresses|
  {
    if p.currentAnswers != p.totalAnswers then p.(currentState := ANSWERS_NAME_FIRST_BYTE)
    else if p.totalAnswers != 0 then p.(addresses := p.addresses[..p.totalAnswers], currentState := DONE)
    else p.(currentState := DONE)
  }

  function DataLengthLow(p: Parser, b: byte): (q: Parser)
    requires Safe(p) && p.currentState.ANSWERS_DATA_LENGTH_LOW?
    ensures Safe(q)
  {
    var q := p.(dataLength := U8(p.dataLength + b));
    if q.dataLength == 4 then
      if q.currentType == QUERY_A then
        q.(addresses := q.addresses[q.currentAnswers := q.addresses[q.currentAnswers].(ipType := IP4_TYPE)],
           counter := 4, currentState := IPV4_ADDRESS)
      else Skipped(q)
    else if q.dataLength == 16 then
      if q.currentType == QUERY_AAAA then
        q.(addresses := q.addresses[q.currentAnswers := q.addresses[q.currentAnswers].(ipType := IP6_TYPE)],
           counter := q.dataLength, currentState := IPV6_ADDRESS)
      else Skipped(q)
    else Skipped(q)
  }

  /** A byte more of an address, in a word of 32 bits. */
  function NextWord(word: nat, b: byte): nat { U32(word * 256 + b) }

  function Ipv4Byte(p: Parser, b: byte): (r: Parser)
    requires Safe(p) && p.currentState.IPV4_ADDRESS?
    ensures Safe(r)
  {
    var a := p.addresses[p.currentAnswers];
    var v := NextWord(a.s_addr, b);
    var q := p.(counter := p.counter - 1);
    if q.counter == 0 then
      NextRecord(q.(addresses := q.addresses[q.currentAnswers := a.(s_addr := Htonl(v))],
                    currentAnswers := q.currentAnswers + 1))
    else q.(addresses := q.addresses[q.currentAnswers := a.(s_addr := v)])
  }

  function Ipv6Byte(p: Parser, b: byte): (r: Parser)
    requires Safe(p) && p.currentState.IPV6_ADDRESS?
    ensures Safe(r)
  {
    var a := p.addresses[p.currentAnswers];
    var a' := a.(s6_addr := a.s6_addr[p.dataLength - p.counter := b]);
    var q := p.(counter := p.counter - 1, addresses := p.addresses[p.currentAnswers := a']);
    if q.counter == 0 then NextRecord(q.(currentAnswers := q.currentAnswers + 1)) else q
  }

  function FeedHeader(p: Parser, b: byte): (q: Parser)
    requires Safe(p)
    ensures Safe(q)
  {
    match p.currentState
    case TRANSACTION_STATE => Skip2(p, FLAGS_STATE)
    case FLAGS_STATE => Skip2(p, QUESTIONS_HIGH)
    case QUESTIONS_HIGH => p.(totalQuestions := U8(b * 256), currentState := QUESTIONS_LOW)
    case QUESTIONS_LOW => p.(totalQuestions := U8(p.totalQuestions + b), currentState := ANSWERS_HIGH)
    case ANSWERS_HIGH => p.(totalAnswers := U8(b * 256), currentState := ANSWERS_LOW)
    case ANSWERS_LOW =>
      var q := p.(totalAnswers := U8(p.totalAnswers + b));
      if q.totalAnswers == 0 then q.(currentState := DONE)
      else q.(addresses := seq(q.totalAnswers, _ => BLANK), currentState := AUTHORITY)
    case AUTHORITY => Skip2(p, ADITIONAL)
    case ADITIONAL => Skip2(p, QUERIES_NAME_FIRST_BYTE)
    case _ => p
  }

  function FeedQuestion(p: Parser, b: byte): (q: Parser)
    requires Safe(p)
    ensures Safe(q)
  {
    match p.currentState
    case QUERIES_NAME_FIRST_BYTE =>
      if IsName(b) then p.(currentState := QUERIES_NAME_REFERENCE_SECOND_BYTE)
      else if b == 0 then p.(currentState := QUERIES_TYPE)
      else p.(bytesWritten := b, currentState := QUERIES_NAME_OTHER_BYTES)
    case QUERIES_NAME_REFERENCE_SECOND_BYTE => p.(currentState := QUERIES_TYPE)
    case QUERIES_NAME_OTHER_BYTES =>
      p.(bytesWritten := p.bytesWritten - 1,
         currentState := if p.bytesWritten == 1 then QUERIES_NAME_FIRST_BYTE else p.currentState)
    case QUERIES_TYPE => Skip2(p, QUERIES_CLASS)
    case QUERIES_CLASS => Skip2(p, ANSWERS_NAME_FIRST_BYTE)
    case _ => p
  }

  function FeedAnswerHeader(p: Parser, b: byte): (q: Parser)
    requires Safe(p)
    ensures Safe(q)
  {
    match p.currentState
    case ANSWERS_NAME_FIRST_BYTE =>
      if IsName(b) then p.(currentState := REFERENCE_SECOND_BYTE)
      else if b == 0 then p.(currentState := ANSWERS_TYPE_HIGH)
      else p.(bytesWritten := b, currentState := ANSWERS_NAME_OTHER_BYTES)
    case REFERENCE_SECOND_BYTE => p.(bytesWritten := 0, currentState := ANSWERS_TYPE_HIGH)
    case ANSWERS_NAME_OTHER_BYTES =>
      p.(bytesWritten := p.bytesWritten - 1,
         currentState := if p.bytesWritten == 1 then ANSWERS_NAME_FIRST_BYTE else p.currentState)
    case ANSWERS_TYPE_HIGH => p.(currentType := U8(b * 256), currentState := ANSWERS_TYPE_LOW)
    case ANSWERS_TYPE_LOW => p.(currentType := U8(p.currentType + b), currentState := ANSWERS_CLASS)
    case ANSWERS_CLASS => Skip2(p, ANSWERS_TTL)
    case ANSWERS_TTL =>
      if p.bytesWritten == 3 then p.(currentState := ANSWERS_DATA_LENGTH_HIGH)
      else p.(bytesWritten := U8(p.bytesWritten + 1))
    case ANSWERS_DATA_LENGTH_HIGH => p.(dataLength := U8(b * 256), currentState := ANSWERS_DATA_LENGTH_LOW)
    case _ => p
  }

  function FeedData(p: Parser, b: byte): (q: Parser)
    requires Safe(p)
    ensures Safe(q)
  {
    match p.currentState
    case ANSWERS_DATA_LENGTH_LOW => DataLengthLow(p, b)
    case CNAME => if p.dataLength > 1 then p.(dataLength := p.dataLength - 1) else NextRecord(p)
    case IPV4_ADDRESS => Ipv4Byte(p, b)
    case IPV6_ADDRESS => Ipv6Byte(p, b)
    case _ => p
  }

  datatype Part = Header | Question | AnswerHeader | Data | End

  function PartOf(s: ParserState): Part {
    match s
    case TRANSACTION_STATE => Header case FLAGS_STATE => Header
    case QUESTIONS_HIGH => Header case QUESTIONS_LOW => Header
    case ANSWERS_HIGH => Header case ANSWERS_LOW => Header
    case AUTHORITY => Header case ADITIONAL => Header
    case QUERIES_NAME_FIRST_BYTE => Question case QUERIES_NAME_REFERENCE_SECOND_BYTE => Question
    case QUERIES_NAME_OTHER_BYTES => Question case QUERIES_TYPE => Question case QUERIES_CLASS => Question
    case ANSWERS_NAME_FIRST_BYTE => AnswerHeader case REFERENCE_SECOND_BYTE => AnswerHeader
    case ANSWERS_NAME_OTHER_BYTES => AnswerHeader
    case ANSWERS_TYPE_HIGH => AnswerHeader case ANSWERS_TYPE_LOW => AnswerHeader
    case ANSWERS_CLASS => AnswerHeader case ANSWERS_TTL => AnswerHeader
    case ANSWERS_DATA_LENGTH_HIGH => AnswerHeader
    case ANSWERS_DATA_LENGTH_LOW => Data case CNAME => Data
    case IPV4_ADDRESS => Data case IPV6_ADDRESS => Data
    case DONE => End case ERROR => End
  }

  /** response_dns_parser_feed.  Whatever the byte, the parser stays in range. */
  function Feed(p: Parser, b: byte): (q: Parser)
    requires Safe(p)
    ensures Safe(q)
  {
    match PartOf(p.currentState)
    case Header => FeedHeader(p, b)
    case Question => FeedQuestion(p, b)
    case AnswerHeader => FeedAnswerHeader(p, b)
    case Data => FeedData(p, b)
    case End => p
  }
}
