/**
  The DNS response parser as the object the session holds: fields and an address array updated in
  place, fed from a buffer.
 */
module ResponseDns {
  import opened Buckets
  import opened Buffers
  import opened DnsParser
  import opened DnsMessages
  import ByteParsers

  /** The address that is being read, or is about to be. */
  lemma HasAddress(p: Parser)
    requires Safe(p) && p.currentState in {ANSWERS_DATA_LENGTH_LOW, IPV4_ADDRESS, IPV6_ADDRESS}
    ensures p.currentAnswers < p.totalAnswers <= |p.addresses| && |p.addresses[p.currentAnswers].s6_addr| == 16
    ensures !p.currentState.ANSWERS_DATA_LENGTH_LOW? ==> 0 < p.counter
    ensures p.currentState.IPV6_ADDRESS? ==> p.dataLength == 16 && p.counter <= 16
  {}

  class ResponseDnsParser {
    var currentState: ParserState
    var addresses: array?<IpAddress>
    var totalQuestions: byte
    var totalAnswers: byte
    var currentAnswers: byte
    var bytesWritten: byte
    var currentType: byte
    var dataLength: byte
    var counter: byte

    ghost function View(): Parser
      reads this, addresses
    {
      Parser(currentState, if addresses == null then [] else addresses[..],
             totalQuestions, totalAnswers, currentAnswers, bytesWritten, currentType, dataLength, counter)
    }

    ghost predicate Valid()
      reads this, addresses
    {
      Safe(View())
    }

    /** response_dns_parser_init */
    constructor ()
      ensures Valid() && View() == INIT && addresses == null
    {
      currentState := TRANSACTION_STATE;
      addresses := null;
      totalQuestions, totalAnswers, currentAnswers := 0, 0, 0;
      bytesWritten, currentType, dataLength, counter := 0, 0, 0, 0;
    }

    method SkipTwo(next: ParserState)
      modifies this`bytesWritten, this`currentState
      ensures View() == Skip2(old(View()), next)
    {
      if bytesWritten == 0 {
        bytesWritten := bytesWritten + 1;
      } else {
        bytesWritten := 0;
        currentState := next;
      }
    }

    /** The end of a record: on to the next one, or realloc and done. */
    method FinishRecord()
      requires addresses != null ==> totalAnswers <= addresses.Length
      requires addresses == null ==> totalAnswers == 0
      modifies this`addresses, this`currentState
      ensures View() == NextRecord(old(View()))
      ensures addresses == old(addresses) || fresh(addresses)
    {
      if currentAnswers != totalAnswers {
        currentState := ANSWERS_NAME_FIRST_BYTE;
      } else {
        if totalAnswers != 0 {
          var a: array<IpAddress> := addresses;
          var trimmed := new IpAddress[totalAnswers](i requires 0 <= i < a.Length reads a => a[i]);
          assert trimmed[..] == a[..totalAnswers];
          addresses := trimmed;
        }
        currentState := DONE;
      }
    }

    method AllocateAnswers(b: byte)
      requires Valid() && currentState.ANSWERS_LOW?
      modifies this`totalAnswers, this`currentState, this`addresses
      ensures Valid() && View() == FeedHeader(old(View()), b)
      ensures addresses == old(addresses) || fresh(addresses)
    {
      assert Safe(View());
      hide Safe;
      totalAnswers := U8(totalAnswers + b);
      if totalAnswers == 0 {
        currentState := DONE;
      } else {
        var n := totalAnswers;
        addresses := new IpAddress[n](_ => BLANK);
        assert addresses[..] == seq(n, _ => BLANK);
        currentState := AUTHORITY;
      }
    }

    method FeedCountByte(b: byte)
      requires Valid() && currentState in {QUESTIONS_HIGH, QUESTIONS_LOW, ANSWERS_HIGH}
      modifies this`totalQuestions, this`totalAnswers, this`currentState
      ensures Valid() && View() == FeedHeader(old(View()), b)
    {
      match currentState
      case QUESTIONS_HIGH =>
        totalQuestions := U8(b * 256);
        currentState := QUESTIONS_LOW;
      case QUESTIONS_LOW =>
        totalQuestions := U8(totalQuestions + b);
        currentState := ANSWERS_HIGH;
      case ANSWERS_HIGH =>
        totalAnswers := U8(b * 256);
        currentState := ANSWERS_LOW;
    }

    method FeedHeaderByte(b: byte)
      requires Valid() && PartOf(currentState).Header?
      modifies this
      ensures Valid() && View() == FeedHeader(old(View()), b)
      ensures addresses == old(addresses) || fresh(addresses)
    {
      assert Safe(View());
      hide Safe;
      match currentState
      case TRANSACTION_STATE => SkipTwo(FLAGS_STATE);
      case FLAGS_STATE => SkipTwo(QUESTIONS_HIGH);
      case ANSWERS_LOW => AllocateAnswers(b);
      case AUTHORITY => SkipTwo(ADITIONAL);
      case ADITIONAL => SkipTwo(QUERIES_NAME_FIRST_BYTE);
      case QUESTIONS_HIGH => FeedCountByte(b);
      case QUESTIONS_LOW => FeedCountByte(b);
      case ANSWERS_HIGH => FeedCountByte(b);
    }

    method FeedQuestionByte(b: byte)
      requires Valid() && PartOf(currentState).Question?
      modifies this`bytesWritten, this`currentState
      ensures Valid() && View() == FeedQuestion(old(View()), b)
    {
      assert Safe(View()) && (currentState.QUERIES_NAME_OTHER_BYTES? ==> bytesWritten > 0);
      hide Safe;
      match currentState
      case QUERIES_NAME_FIRST_BYTE =>
        if IsName(b) {
          currentState := QUERIES_NAME_REFERENCE_SECOND_BYTE;
        } else if b == 0 {
          currentState := QUERIES_TYPE;
        } else {
          bytesWritten := b;
          currentState := QUERIES_NAME_OTHER_BYTES;
        }
      case QUERIES_NAME_REFERENCE_SECOND_BYTE => currentState := QUERIES_TYPE;
      case QUERIES_NAME_OTHER_BYTES =>
        bytesWritten := bytesWritten - 1;
        if bytesWritten == 0 { currentState := QUERIES_NAME_FIRST_BYTE; }
      case QUERIES_TYPE => SkipTwo(QUERIES_CLASS);
      case QUERIES_CLASS => SkipTwo(ANSWERS_NAME_FIRST_BYTE);
    }

    method FeedOwnerByte(b: byte)
      requires Valid() && currentState in {ANSWERS_NAME_FIRST_BYTE, REFERENCE_SECOND_BYTE, ANSWERS_NAME_OTHER_BYTES}
      modifies this`bytesWritten, this`currentState
      ensures Valid() && View() == FeedAnswerHeader(old(View()), b)
    {
      match currentState
      case ANSWERS_NAME_FIRST_BYTE =>
        if IsName(b) {
          currentState := REFERENCE_SECOND_BYTE;
        } else if b == 0 {
          currentState := ANSWERS_TYPE_HIGH;
        } else {
          bytesWritten := b;
          currentState := ANSWERS_NAME_OTHER_BYTES;
        }
      case REFERENCE_SECOND_BYTE =>
        bytesWritten := 0;
        currentState := ANSWERS_TYPE_HIGH;
      case ANSWERS_NAME_OTHER_BYTES =>
        bytesWritten := bytesWritten - 1;
        if bytesWritten == 0 { currentState := ANSWERS_NAME_FIRST_BYTE; }
    }

    method FeedTypeByte(b: byte)
      requires Valid() && currentState in {ANSWERS_TYPE_HIGH, ANSWERS_TYPE_LOW, ANSWERS_DATA_LENGTH_HIGH}
      modifies this`currentType, this`dataLength, this`currentState
      ensures Valid() && View() == FeedAnswerHeader(old(View()), b)
    {
      match currentState
      case ANSWERS_TYPE_HIGH =>
        currentType := U8(b * 256);
        currentState := ANSWERS_TYPE_LOW;
      case ANSWERS_TYPE_LOW =>
        currentType := U8(currentType + b);
        currentState := ANSWERS_CLASS;
      case ANSWERS_DATA_LENGTH_HIGH =>
        dataLength := U8(b * 256);
        currentState := ANSWERS_DATA_LENGTH_LOW;
    }

    method FeedAnswerHeaderByte(b: byte)
      requires Valid() && PartOf(currentState).AnswerHeader?
      modifies this`bytesWritten, this`currentState, this`currentType, this`dataLength
      ensures Valid() && View() == FeedAnswerHeader(old(View()), b)
    {
      assert Safe(View());
      hide Safe;
      match currentState
      case ANSWERS_CLASS => SkipTwo(ANSWERS_TTL);
      case ANSWERS_TTL =>
        if bytesWritten == 3 {
          currentState := ANSWERS_DATA_LENGTH_HIGH;
        } else {
          bytesWritten := U8(bytesWritten + 1);
        }
      case ANSWERS_TYPE_HIGH => FeedTypeByte(b);
      case ANSWERS_TYPE_LOW => FeedTypeByte(b);
      case ANSWERS_DATA_LENGTH_HIGH => FeedTypeByte(b);
      case ANSWERS_NAME_FIRST_BYTE => FeedOwnerByte(b);
      case REFERENCE_SECOND_BYTE => FeedOwnerByte(b);
      case ANSWERS_NAME_OTHER_BYTES => FeedOwnerByte(b);
    }

    method SkipRecord()
      requires addresses != null
      modifies this`totalAnswers, this`currentState
      ensures View() == Skipped(old(View()))
    {
      totalAnswers := U8(totalAnswers - 1);
      currentState := CNAME;
    }

    method SetAddress(a: IpAddress)
      requires addresses != null && currentAnswers < addresses.Length
      modifies addresses
      ensures View() == old(View()).(addresses := old(View()).addresses[currentAnswers := a])
    {
      ghost var before := addresses[..];
      addresses[currentAnswers] := a;
      assert addresses[..] == before[currentAnswers := a];
    }

    method EndAddress()
      requires addresses != null && currentAnswers < totalAnswers <= addresses.Length
      modifies this`currentAnswers, this`addresses, this`currentState
      ensures View() == NextRecord(old(View()).(currentAnswers := old(currentAnswers) + 1))
      ensures addresses == old(addresses) || fresh(addresses)
    {
      hide NextRecord;
      currentAnswers := currentAnswers + 1;
      FinishRecord();
    }

    /** The address to come, of which all bytes are still missing. */
    method ExpectAddress(ipType: byte, length: byte, next: ParserState)
      requires addresses != null && currentAnswers < addresses.Length
      modifies this`counter, this`currentState, addresses
      ensures var p := old(View()); var expected := p.addresses[p.currentAnswers].(ipType := ipType);
              View() == p.(addresses := p.addresses[p.currentAnswers := expected], counter := length,
                           currentState := next)
    {
      SetAddress(addresses[currentAnswers].(ipType := ipType));
      counter := length;
      currentState := next;
    }

    method FeedLengthByte(b: byte)
      requires Valid() && currentState.ANSWERS_DATA_LENGTH_LOW?
      modifies this, addresses
      ensures Valid() && View() == DataLengthLow(old(View()), b) && addresses == old(addresses)
    {
      HasAddress(View());
      hide Safe;
      dataLength := U8(dataLength + b);
      if dataLength == 4 && currentType == QUERY_A {
        ExpectAddress(IP4_TYPE, 4, IPV4_ADDRESS);
      } else if dataLength == 16 && currentType == QUERY_AAAA {
        ExpectAddress(IP6_TYPE, dataLength, IPV6_ADDRESS);
      } else {
        SkipRecord();
      }
    }

    method FeedIpv4Byte(b: byte)
      requires Valid() && currentState.IPV4_ADDRESS?
      modifies this, addresses
      ensures Valid() && View() == Ipv4Byte(old(View()), b)
      ensures addresses == old(addresses) || fresh(addresses)
    {
      HasAddress(View());
      hide Safe, Htonl, NextWord, NextRecord;
      var a := addresses[currentAnswers];
      var v := NextWord(a.s_addr, b);
      counter := counter - 1;
      if counter == 0 {
        SetAddress(a.(s_addr := Htonl(v)));
        EndAddress();
      } else {
        SetAddress(a.(s_addr := v));
      }
    }

    method FeedIpv6Byte(b: byte)
      requires Valid() && currentState.IPV6_ADDRESS?
      modifies this, addresses
      ensures Valid() && View() == Ipv6Byte(old(View()), b)
      ensures addresses == old(addresses) || fresh(addresses)
    {
      HasAddress(View());
      hide Safe, NextRecord;
      var a := addresses[currentAnswers];
      SetAddress(a.(s6_addr := a.s6_addr[dataLength - counter := b]));
      counter := counter - 1;
      if counter == 0 {
        EndAddress();
      }
    }

    /** response_dns_parser_feed */
    method FeedByte(b: byte)
      requires Valid()
      modifies this, addresses
      ensures Valid() && View() == Feed(old(View()), b)
      ensures addresses == old(addresses) || fresh(addresses)
    {
      hide Safe, FeedHeader, FeedQuestion, FeedAnswerHeader, DataLengthLow, Ipv4Byte, Ipv6Byte;
      match PartOf(currentState)
      case Header => FeedHeaderByte(b);
      case Question => FeedQuestionByte(b);
      case AnswerHeader => FeedAnswerHeaderByte(b);
      case Data =>
        match currentState {
          case ANSWERS_DATA_LENGTH_LOW => FeedLengthByte(b);
          case CNAME => FeedSkippedByte();
          case IPV4_ADDRESS => FeedIpv4Byte(b);
          case IPV6_ADDRESS => FeedIpv6Byte(b);
        }
      case End =>
    }

    method FeedSkippedByte()
      requires Valid() && currentState.CNAME?
      modifies this`dataLength, this`addresses, this`currentState
      ensures Valid() && View() == FeedData(old(View()), 0)
      ensures addresses == old(addresses) || fresh(addresses)
    {
      if dataLength > 1 {
        dataLength := dataLength - 1;
      } else {
        FinishRecord();
      }
    }

    /** response_dns_parser_consume: takes bytes off the buffer until done or out of bytes, never one
        more; returns whether it is done. */
    method Consume(buffer: Buffer) returns (done: bool, errored: bool)
      requires Valid() && buffer.Valid() && addresses as object? != buffer.data
      modifies this, addresses, buffer, buffer.data
      ensures Valid() && buffer.Valid()
      ensures var (q, n) := Parse(old(View()), old(buffer.View()).content);
              View() == q && buffer.View() == old(buffer.View()).Drop(n)
      ensures done == IsDone(currentState) && errored == currentState.ERROR?
      ensures addresses == old(addresses) || fresh(addresses)
    {
      hide Safe, Feed, Fed, Buf.Drop, ByteParsers.Reaches, ByteParsers.Parse;
      ghost var p0, b0 := View(), buffer.View();
      ghost var n := 0;
      DropNothing(b0);
      ByteParsers.ReachesStart(Fed, Final, p0, b0.content);
      while !IsDone(currentState) && buffer.CanRead()
        invariant Valid() && buffer.Valid() && n <= |b0.content| && buffer.View() == b0.Drop(n)
        invariant addresses == old(addresses) || fresh(addresses)
        invariant ByteParsers.Reaches(Fed, Final, p0, b0.content, n, View())
        decreases |b0.content| - n
      {
        DropReads(b0, n);
        ByteParsers.ReachesNext(Fed, Final, p0, b0.content, n, View());
        FedInRange(View(), b0.content[n]);
        var b := buffer.ReadByte();
        FeedByte(b);
        n := n + 1;
      }
      DropReads(b0, n);
      ByteParsers.ReachesEnd(Fed, Final, p0, b0.content, n, View());
      done, errored := IsDone(currentState), currentState.ERROR?;
    }
  }

  lemma FedInRange(p: Parser, b: byte)
    requires Safe(p)
    ensures Fed(p, b) == Feed(p, b)
  {
    hide Safe, Feed;
  }
}
