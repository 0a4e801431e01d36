/**
  The client's hello (section 3 of RFC 1928): the byte-fed parser with the choice of a method it makes on
  the way, and the proof that it reads exactly the encoding of a hello.
 */
module HelloParsers {
  import opened Buckets
  import opened Buffers
  import opened ByteParsers
  import Session
  import SessionHandlers

  datatype State =
    | HELLO_PARSER_VERSION | HELLO_PARSER_NMETHODS | HELLO_PARSER_METHODS | HELLO_PARSER_DONE
    | HELLO_PARSER_INVALID_STATE | HELLO_PARSER_INVALID_AUTH_METHOD_STATE

  /** The parser, with the method chosen so far that its callback keeps for it. */
  datatype Parser = Parser(version: byte, currentState: State, methodsRemaining: byte, chosen: byte)

  /** hello_on_arrival */
  const INIT := Parser(0, HELLO_PARSER_VERSION, 0, Session.NO_ACCEPTABLE_METHODS)

  /** hello_parser_feed; the callback never fails. */
  function Feed(p: Parser, b: byte): Parser {
    match p.currentState
    case HELLO_PARSER_VERSION => p.(version := b, currentState := HELLO_PARSER_NMETHODS)
    case HELLO_PARSER_NMETHODS =>
      p.(methodsRemaining := b, currentState := if b > 0 then HELLO_PARSER_METHODS else HELLO_PARSER_DONE)
    case HELLO_PARSER_METHODS =>
      var n: byte := (p.methodsRemaining - 1) % 256;
      p.(chosen := Session.Better(p.chosen, b), methodsRemaining := n,
         currentState := if n == 0 then HELLO_PARSER_DONE else p.currentState)
    case _ => p
  }

  predicate Errored(p: Parser) {
    p.currentState.HELLO_PARSER_INVALID_STATE? || p.currentState.HELLO_PARSER_INVALID_AUTH_METHOD_STATE?
  }

  predicate Done(p: Parser) { p.currentState.HELLO_PARSER_DONE? || Errored(p) }

  // ---------------------------------------------------------------- what it accepts

  function Encode(version: byte, methods: seq<byte>): seq<byte>
    requires |methods| <= 255
  {
    [version, |methods|] + methods
  }

  /** The choice as it is made, one method after the other. */
  function Best(m: byte, methods: seq<byte>): byte
    decreases |methods|
  {
    if methods == [] then m else Best(Session.Better(m, methods[0]), methods[1..])
  }

  lemma {:induction false} BestThenOne(m: byte, methods: seq<byte>, last: byte)
    ensures Best(m, methods + [last]) == Session.Better(Best(m, methods), last)
    decreases |methods|
  {
    if methods == [] {
      assert ([] + [last])[1..] == [];
    } else {
      assert (methods + [last])[1..] == methods[1..] + [last];
      BestThenOne(Session.Better(m, methods[0]), methods[1..], last);
    }
  }

  lemma {:induction false} BestIsChosen(methods: seq<byte>)
    ensures Best(Session.NO_ACCEPTABLE_METHODS, methods) == Session.Choose(methods)
    decreases |methods|
  {
    if methods != [] {
      var init, last := methods[..|methods| - 1], methods[|methods| - 1];
      assert methods == init + [last];
      BestIsChosen(init);
      BestThenOne(Session.NO_ACCEPTABLE_METHODS, init, last);
    }
  }

  lemma {:induction false} LeadsMethods(p: Parser, methods: seq<byte>)
    requires p.currentState.HELLO_PARSER_METHODS? && |methods| == p.methodsRemaining > 0
    ensures Leads(Feed, Done, p, methods,
                  p.(chosen := Best(p.chosen, methods), methodsRemaining := 0, currentState := HELLO_PARSER_DONE))
    decreases |methods|
  {
    hide Leads, Session.Better;
    var q := Feed(p, methods[0]);
    LeadsOne(Feed, Done, p, methods[0]);
    assert methods == [methods[0]] + methods[1..];
    if |methods| == 1 {
      assert methods == [methods[0]];
    } else {
      LeadsMethods(q, methods[1..]);
      LeadsThrough(Feed, Done, p, [methods[0]], q, methods[1..],
                   p.(chosen := Best(p.chosen, methods), methodsRemaining := 0, currentState := HELLO_PARSER_DONE));
    }
  }

  /** The parser behind a hello. */
  function Read(version: byte, methods: seq<byte>): Parser {
    Parser(version, HELLO_PARSER_DONE, 0, Session.Choose(methods))
  }

  lemma LeadsHello(version: byte, methods: seq<byte>)
    requires |methods| <= 255
    ensures Leads(Feed, Done, INIT, Encode(version, methods), Read(version, methods))
  {
    hide Leads, Session.Better;
    var n: byte := |methods|;
    var p := Feed(Feed(INIT, version), n);
    LeadsTwo(Feed, Done, INIT, version, n);
    BestIsChosen(methods);
    if n == 0 {
      assert Encode(version, methods) == [version, n];
    } else {
      LeadsMethods(p, methods);
      LeadsThrough(Feed, Done, INIT, [version, n], p, methods, Read(version, methods));
    }
  }

  /** How long the hello that starts with these bytes is. */
  function Needed(bytes: seq<byte>): nat {
    if |bytes| < 2 then 2 else 2 + (bytes[1] as nat)
  }

  lemma HelloEncodes(bytes: seq<byte>)
    requires |bytes| >= Needed(bytes)
    ensures bytes[..Needed(bytes)] == Encode(bytes[0], bytes[2..Needed(bytes)])
  {}

  lemma WholeHello(bytes: seq<byte>)
    requires |bytes| >= Needed(bytes)
    ensures var n := Needed(bytes); Parse(Feed, Done, INIT, bytes) == (Read(bytes[0], bytes[2..n]), n)
  {
    hide Leads, Parse, Feed, Session.Choose, Encode;
    var n := Needed(bytes);
    HelloEncodes(bytes);
    LeadsHello(bytes[0], bytes[2..n]);
    LeadsParse(Feed, Done, INIT, bytes[..n], Read(bytes[0], bytes[2..n]), bytes[n..]);
    assert bytes == bytes[..n] + bytes[n..];
  }

  lemma StartOfHello(bytes: seq<byte>)
    requires |bytes| < Needed(bytes)
    ensures var (q, n) := Parse(Feed, Done, INIT, bytes); !Done(q) && n == |bytes|
  {
    hide Leads, Parse, Feed, Done, Read, Encode;
    var full := bytes + seq(Needed(bytes) - |bytes|, _ => 0);
    var m := Needed(full);
    HelloEncodes(full);
    LeadsHello(full[0], full[2..m]);
    PrefixWaits(Feed, Done, INIT, full[..m], Read(full[0], full[2..m]), |bytes|);
    assert full[..m][..|bytes|] == bytes;
  }

  /** The parser is done with exactly a whole hello, whatever follows it, and has chosen the best method in it;
      with less it waits. */
  lemma AcceptsExactlyHellos(bytes: seq<byte>)
    ensures var (q, n) := Parse(Feed, Done, INIT, bytes);
            if |bytes| < Needed(bytes) then !Done(q) && n == |bytes|
            else n == Needed(bytes) && q == Read(bytes[0], bytes[2..n]) && bytes[..n] == Encode(bytes[0], bytes[2..n])
  {
    hide Parse, Feed, Done, Read, Encode;
    if |bytes| < Needed(bytes) {
      StartOfHello(bytes);
    } else {
      WholeHello(bytes);
      HelloEncodes(bytes);
    }
  }

  // ---------------------------------------------------------------- the parser in memory

  class HelloParser {
    var version: byte
    var currentState: State
    var methodsRemaining: byte
    var chosen: byte  // of the session, which the callback updates

    ghost function View(): Parser
      reads this
    {
      Parser(version, currentState, methodsRemaining, chosen)
    }

    constructor ()
      ensures View() == INIT
    {
      version, currentState, methodsRemaining := 0, HELLO_PARSER_VERSION, 0;
      chosen := Session.NO_ACCEPTABLE_METHODS;
    }

    method FeedByte(b: byte)
      requires currentState.HELLO_PARSER_METHODS? ==> methodsRemaining > 0
      modifies this
      ensures View() == Feed(old(View()), b)
      ensures currentState.HELLO_PARSER_METHODS? ==> methodsRemaining > 0
    {
      match currentState
      case HELLO_PARSER_VERSION =>
        version := b;
        currentState := HELLO_PARSER_NMETHODS;
      case HELLO_PARSER_NMETHODS =>
        methodsRemaining := b;
        currentState := if b > 0 then HELLO_PARSER_METHODS else HELLO_PARSER_DONE;
      case HELLO_PARSER_METHODS =>
        chosen := SessionHandlers.OnAuthMethod(chosen, b);
        methodsRemaining := methodsRemaining - 1;
        if methodsRemaining == 0 {
          currentState := HELLO_PARSER_DONE;
        }
      case _ =>
    }

    /** hello_parser_consume */
    method Consume(buffer: Buffer) returns (done: bool, errored: bool)
      requires buffer.Valid() && (currentState.HELLO_PARSER_METHODS? ==> methodsRemaining > 0)
      modifies this, buffer, buffer.data
      ensures buffer.Valid()
      ensures var (q, n) := Parse(Feed, Done, old(View()), old(buffer.View()).content);
              View() == q && buffer.View() == old(buffer.View()).Drop(n)
      ensures done == Done(View()) && errored == Errored(View())
    {
      hide Feed, Buf.Drop, Reaches, Parse;
      ghost var p0, b0 := View(), buffer.View();
      ghost var n := 0;
      DropNothing(b0);
      ReachesStart(Feed, Done, p0, b0.content);
      while currentState in {HELLO_PARSER_VERSION, HELLO_PARSER_NMETHODS, HELLO_PARSER_METHODS} && buffer.CanRead()
        invariant buffer.Valid() && n <= |b0.content| && buffer.View() == b0.Drop(n)
        invariant currentState.HELLO_PARSER_METHODS? ==> methodsRemaining > 0
        invariant Reaches(Feed, Done, p0, b0.content, n, View())
        decreases |b0.content| - n
      {
        DropReads(b0, n);
        ReachesNext(Feed, Done, p0, b0.content, n, View());
        var b := buffer.ReadByte();
        FeedByte(b);
        n := n + 1;
      }
      DropReads(b0, n);
      ReachesEnd(Feed, Done, p0, b0.content, n, View());
      errored := currentState in {HELLO_PARSER_INVALID_STATE, HELLO_PARSER_INVALID_AUTH_METHOD_STATE};
      done := errored || currentState.HELLO_PARSER_DONE?;
    }
  }
}
