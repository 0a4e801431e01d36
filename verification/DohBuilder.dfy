/**
  The DNS query that a DoH request carries: a domain written as length-prefixed labels (section 3.1 of
  RFC 1035) after a fixed header.
 */
module DohBuilder {
  import opened Buckets
  import opened DnsParser
  import opened DnsMessages

  const MAX_FQDN_SIZE: nat := 255
  const MAX_DNS_QUERY_SIZE: nat := 273
  const DOT: byte := 0x2e

  /** Recursion desired, one question, nothing else; the fields are in network order. */
  const HEADER: seq<byte> := [0, 0, 1, 0, 0, 1, 0, 0, 0, 0, 0, 0]

  /** strchr for a dot: the index of the first one, or the length. */
  function FindDot(d: seq<byte>): (n: nat)
    ensures n <= |d|
    ensures n < |d| ==> d[n] == DOT
    ensures forall i :: 0 <= i < n ==> d[i] != DOT
    decreases |d|
  {
    if d == [] || d[0] == DOT then 0 else 1 + FindDot(d[1..])
  }

  /** Past the piece of length n and its dot, when there is one. */
  function After(d: seq<byte>, n: nat): (k: nat)
    requires n <= |d|
    ensures n <= k <= |d| && (d != [] ==> 0 < k)
  {
    if n < |d| then n + 1 else n
  }

  /** What the loop writes for the rest of a domain. */
  function LabelsFrom(d: seq<byte>): (wire: seq<byte>)
    decreases |d|
  {
    if d == [] then []
    else
      var n := FindDot(d);
      [U8(n)] + d[..n] + LabelsFrom(d[After(d, n)..])
  }

  function Convert(d: seq<byte>): seq<byte> {
    if d != [] && d[0] == DOT then [0] else LabelsFrom(d) + [0]
  }

  function Question(d: seq<byte>, qtype: nat): seq<byte> {
    Convert(d) + [U8(qtype / 256), U8(qtype), 0, 1]
  }

  function Query(d: seq<byte>, qtype: nat): seq<byte> { HEADER + Question(d, qtype) }

  // ---------------------------------------------------------------- the builder

  method Put(b: byte, buff: array<byte>, at: nat)
    requires at < buff.Length
    modifies buff
    ensures buff[..at + 1] == old(buff[..at]) + [b] && buff[at + 1..] == old(buff[at + 1..])
  {
    buff[at] := b;
  }

  /** One label: its length truncated to a byte, and its text. */
  method PutLabel(domain: seq<byte>, from: nat, next: nat, buff: array<byte>, at: nat) returns (end: nat)
    requires from <= next <= |domain| && at + 1 + next - from <= buff.Length
    modifies buff
    ensures end == at + 1 + next - from
    ensures buff[..end] == old(buff[..at]) + [U8(next - from)] + domain[from..next]
    ensures buff[end..] == old(buff[end..])
  {
    Put(U8(next - from), buff, at);
    end := at + 1;
    var pos := from;
    while pos != next
      invariant from <= pos <= next && end == at + 1 + pos - from
      invariant buff[..end] == old(buff[..at]) + [U8(next - from)] + domain[from..pos]
      invariant buff[end..] == old(buff[end..])
      decreases next - pos
    {
      ghost var k := end;
      ghost var rest := buff[k..];
      Put(domain[pos], buff, end);
      assert old(buff[k..])[1..] == old(buff[k + 1..]);
      pos, end := pos + 1, end + 1;
      assert domain[from..pos] == domain[from..pos - 1] + [domain[pos - 1]];
    }
  }

  lemma LabelsUnfold(d: seq<byte>)
    requires d != []
    ensures LabelsFrom(d) == [U8(FindDot(d))] + d[..FindDot(d)] + LabelsFrom(d[After(d, FindDot(d))..])
  {}

  lemma LabelsStep(d: seq<byte>, pos: nat)
    requires pos < |d|
    ensures var n := FindDot(d[pos..]); var next := pos + n;
            LabelsFrom(d[pos..]) == [U8(n)] + d[pos..next] + LabelsFrom(d[After(d, next)..])
  {
    hide LabelsFrom, FindDot;
    var rest := d[pos..];
    var n := FindDot(rest);
    LabelsUnfold(rest);
    assert rest[..n] == d[pos..pos + n];
    assert rest[After(rest, n)..] == d[After(d, pos + n)..];
  }

  /** doh_builder_convert_domain: only the bytes from at up to the returned end are written. */
  method ConvertDomain(domain: seq<byte>, buff: array<byte>, at: nat) returns (end: nat)
    requires at + |Convert(domain)| <= buff.Length
    modifies buff
    ensures end == at + |Convert(domain)|
    ensures buff[..end] == old(buff[..at]) + Convert(domain) && buff[end..] == old(buff[end..])
  {
    end := at;
    if !(domain != [] && domain[0] == DOT) {
      end := PutLabels(domain, buff, end);
    }
    ghost var rest := old(buff[end..]);
    Put(0, buff, end);
    assert rest[1..] == old(buff[end + 1..]);
    end := end + 1;
  }

  /** A text behind what was written before. */
  lemma Appended(b0: seq<byte>, b1: seq<byte>, b2: seq<byte>, at: nat, done: seq<byte>, text: seq<byte>)
    requires |b0| == |b1| == |b2| && at + |done| + |text| <= |b0|
    requires var k := at + |done|; var end := k + |text|;
             && b1[..k] == b0[..at] + done && b1[k..] == b0[k..]
             && b2[..end] == b1[..k] + text && b2[end..] == b1[end..]
    ensures var end := at + |done| + |text|; b2[..end] == b0[..at] + (done + text) && b2[end..] == b0[end..]
  {
    var k, end := at + |done|, at + |done| + |text|;
    assert b1[end..] == b1[k..][end - k..] && b0[end..] == b0[k..][end - k..];
  }

  /** The loop over the labels. */
  method PutLabels(domain: seq<byte>, buff: array<byte>, at: nat) returns (end: nat)
    requires at + |LabelsFrom(domain)| <= buff.Length
    modifies buff
    ensures end == at + |LabelsFrom(domain)|
    ensures buff[..end] == old(buff[..at]) + LabelsFrom(domain) && buff[end..] == old(buff[end..])
  {
    hide LabelsFrom;
    end := at;
    var pos := 0;
    ghost var done: seq<byte> := [];
    assert domain[0..] == domain;
    while pos < |domain|
      invariant pos <= |domain| && end == at + |done|
      invariant done + LabelsFrom(domain[pos..]) == LabelsFrom(domain)
      invariant buff[..end] == old(buff[..at]) + done && buff[end..] == old(buff[end..])
      decreases |domain| - pos
    {
      var next := pos + FindDot(domain[pos..]);
      LabelsStep(domain, pos);
      ghost var text := [U8(next - pos)] + domain[pos..next];
      ghost var k, before := end, buff[..];
      assert |text| == next - pos + 1;
      end := PutLabel(domain, pos, next, buff, end);
      Appended(old(buff[..]), before, buff[..], at, done, text);
      done := done + text;
      pos := After(domain, next);
    }
    NoLabels();
    assert domain[pos..] == [];
  }

  lemma NoLabels()
    ensures LabelsFrom([]) == []
  {}

  /** A memcpy to the write position. */
  method Copy(bytes: seq<byte>, buff: array<byte>, at: nat) returns (end: nat)
    requires at + |bytes| <= buff.Length
    modifies buff
    ensures end == at + |bytes|
    ensures buff[..end] == old(buff[..at]) + bytes && buff[end..] == old(buff[end..])
  {
    end := at + |bytes|;
    forall i | 0 <= i < |bytes| {
      buff[at + i] := bytes[i];
    }
  }

  /**
    doh_builder_build_dns_query: 0 for a short buffer or a long name, else the length of the query; it always
    fits.
   */
  method BuildQuery(domain: seq<byte>, qtype: nat, buff: array<byte>) returns (size: nat)
    requires qtype < 0x1_0000
    modifies buff
    ensures size == 0 <==> buff.Length < 273 || |domain| > 255
    ensures size == 0 ==> buff[..] == old(buff[..])
    ensures size != 0 ==> size <= |domain| + 18 <= buff.Length && buff[..size] == Query(domain, qtype)
    ensures size != 0 ==> AsksFor(buff[..size], domain, qtype)
    ensures size != 0 ==> buff[size..] == old(buff[size..])
  {
    hide Convert, AsksFor, Query;
    if buff.Length < MAX_DNS_QUERY_SIZE || |domain| > MAX_FQDN_SIZE {
      return 0;
    }
    ConvertSize(domain);
    ghost var b := buff[..];
    size := Copy(HEADER, buff, 0);
    ghost var b1 := buff[..];
    assert b1[size..] == b[size..];
    size := ConvertDomain(domain, buff, size);
    ghost var b2 := buff[..];
    SameRest(b, b1, |HEADER|, size);
    assert b2[size..] == b1[size..];
    size := Copy([U8(qtype / 256), U8(qtype)], buff, size);
    ghost var b3 := buff[..];
    SameRest(b, b2, size - 2, size);
    assert b3[size..] == b2[size..];
    size := Copy([0, 1], buff, size);
    SameRest(b, b3, size - 2, size);
    assert buff[..][size..] == b3[size..];
    Assembled(domain, qtype);
    QueryAsks(domain, qtype);
  }

  lemma Assembled(d: seq<byte>, qtype: nat)
    requires qtype < 0x1_0000
    ensures HEADER + Convert(d) + [U8(qtype / 256), U8(qtype)] + [0, 1] == Query(d, qtype)
  {
    hide Convert;
    assert [U8(qtype / 256), U8(qtype)] + [0, 1] == [U8(qtype / 256), U8(qtype), 0, 1];
  }

  /** What lies past an earlier position still lies past a later one. */
  lemma SameRest(a: seq<byte>, b: seq<byte>, i: nat, j: nat)
    requires i <= j <= |a| == |b|
    ensures a[i..] == b[i..] ==> a[j..] == b[j..]
  {
    assert a[j..] == a[i..][j - i..] && b[j..] == b[i..][j - i..];
  }

  // ---------------------------------------------------------------- size

  lemma {:induction false} LabelsSize(d: seq<byte>)
    ensures d != [] ==> |LabelsFrom(d)| == |d| + if d[|d| - 1] == DOT then 0 else 1
    decreases |d|
  {
    if d != [] {
      var n := FindDot(d);
      var rest := d[After(d, n)..];
      LabelsSize(rest);
      if rest != [] { assert rest[|rest| - 1] == d[|d| - 1]; }
      assert n < |d| && rest == [] ==> d[|d| - 1] == DOT;
    }
  }

  /** Two more bytes than the name, one more for a name that ends in a dot, and a single byte for none at all. */
  lemma ConvertSize(d: seq<byte>)
    ensures |Convert(d)| == if d == [] || d[0] == 46 then 1 else if d[|d| - 1] == 46 then |d| + 1 else |d| + 2
  {
    LabelsSize(d);
  }

  // ---------------------------------------------------------------- reading labels back

  /** The pieces of a domain between its dots; a dot at the end adds none. */
  function Split(d: seq<byte>): (pieces: seq<seq<byte>>)
    ensures forall i :: 0 <= i < |pieces| ==> 46 !in pieces[i] && |pieces[i]| <= |d|
    decreases |d|
  {
    if d == [] then [] else var n := FindDot(d); [d[..n]] + Split(d[After(d, n)..])
  }

  function Join(labels: seq<seq<byte>>): seq<byte> {
    if labels == [] then [] else if |labels| == 1 then labels[0] else labels[0] + [46] + Join(labels[1..])
  }

  /** A domain name read off the wire: its labels, and how many bytes it took. */
  datatype NameRead = Malformed | Whole(labels: seq<seq<byte>>, used: nat)

  const MAX_LABEL_SIZE: nat := 63
  const MAX_NAME_SIZE: nat := 255

  /** Section 3.1 of RFC 1035: a length byte below 64 and as many bytes, until a length of zero. */
  function ReadLabels(wire: seq<byte>): (r: NameRead)
    ensures r.Whole? ==> r.used <= |wire|
    decreases |wire|
  {
    if wire == [] then Malformed
    else if wire[0] == 0 then Whole([], 1)
    else if wire[0] > MAX_LABEL_SIZE || wire[0] >= |wire| then Malformed
    else
      var n: nat := wire[0];
      Prepend(wire[1..n + 1], ReadLabels(wire[n + 1..]))
  }

  function Prepend(text: seq<byte>, r: NameRead): NameRead {
    if r.Malformed? then Malformed else Whole([text] + r.labels, |text| + 1 + r.used)
  }

  /** The same section allows a name no more than 255 bytes in all. */
  function ReadName(wire: seq<byte>): NameRead {
    var r := ReadLabels(wire);
    if r.Whole? && r.used > MAX_NAME_SIZE then Malformed else r
  }

  predicate WireLabels(labels: seq<seq<byte>>) { forall i :: 0 <= i < |labels| ==> 1 <= |labels[i]| <= 63 }

  /** How pieces written one after the other read back: an empty one ends the name, a longer one than a label may be
      makes it malformed. */
  function PiecesRead(pieces: seq<seq<byte>>): NameRead {
    if pieces == [] || pieces[0] == [] then Whole([], 1)
    else if |pieces[0]| > MAX_LABEL_SIZE then Malformed
    else Prepend(pieces[0], PiecesRead(pieces[1..]))
  }

  lemma ReadStep(wire: seq<byte>, n: nat, text: seq<byte>, more: seq<byte>)
    requires 0 < n < |wire| && wire[0] == n && wire[1..n + 1] == text && wire[n + 1..] == more
    ensures ReadLabels(wire) == if n > MAX_LABEL_SIZE then Malformed else Prepend(text, ReadLabels(more))
  {}

  lemma ReadOne(text: seq<byte>, more: seq<byte>)
    requires 1 <= |text| <= 255 && more != []
    ensures ReadLabels([U8(|text|)] + text + more) ==
            if |text| > MAX_LABEL_SIZE then Malformed else Prepend(text, ReadLabels(more))
  {
    hide ReadLabels;
    var n := |text|;
    var wire := [U8(n)] + text + more;
    assert wire[0] == n;
    assert wire[1..n + 1] == text;
    assert wire[n + 1..] == more;
    ReadStep(wire, n, text, more);
  }

  lemma ReadNone(more: seq<byte>)
    ensures ReadLabels([0] + more) == Whole([], 1)
  {}

  lemma PiecesStep(x: seq<byte>, xs: seq<seq<byte>>)
    ensures PiecesRead([x] + xs) ==
            if x == [] then Whole([], 1) else if |x| > MAX_LABEL_SIZE then Malformed else Prepend(x, PiecesRead(xs))
  {
    assert ([x] + xs)[0] == x && ([x] + xs)[1..] == xs;
  }

  lemma WireStep(d: seq<byte>, tail: seq<byte>)
    requires d != []
    ensures var n := FindDot(d);
            LabelsFrom(d) + [0] + tail == [U8(n)] + d[..n] + (LabelsFrom(d[After(d, n)..]) + [0] + tail)
  {
    hide LabelsFrom, FindDot;
    LabelsUnfold(d);
  }

  lemma {:induction false} ReadsPieces(d: seq<byte>, tail: seq<byte>)
    requires |d| <= MAX_FQDN_SIZE
    ensures ReadLabels(LabelsFrom(d) + [0] + tail) == PiecesRead(Split(d))
    decreases |d|
  {
    hide ReadLabels, Split, PiecesRead, LabelsFrom, FindDot;
    if d == [] {
      NoPieces();
      NoLabels();
      NothingRead();
      ReadNone(tail);
      assert [] + [0] + tail == [0] + tail;
    } else {
      var n := FindDot(d);
      var rest := d[After(d, n)..];
      var more := LabelsFrom(rest) + [0] + tail;
      SplitStep(d);
      WireStep(d, tail);
      assert Split(d) == [d[..n]] + Split(rest);
      PiecesStep(d[..n], Split(rest));
      if n > 0 {
        ReadsPieces(rest, tail);
        ReadOne(d[..n], more);
      } else {
        assert [U8(n)] + d[..n] + more == [0] + more;
        ReadNone(more);
      }
    }
  }

  lemma NothingRead()
    ensures PiecesRead([]) == Whole([], 1)
  {}

  /** Whatever follows it, a converted domain reads back as its pieces do. */
  lemma ConvertedReads(d: seq<byte>, tail: seq<byte>)
    requires |d| <= MAX_FQDN_SIZE
    ensures ReadLabels(Convert(d) + tail) == PiecesRead(Split(d))
  {
    if d != [] && d[0] == DOT {
      assert (Convert(d) + tail)[0] == 0;
      assert Split(d)[0] == [];
    } else {
      ReadsPieces(d, tail);
    }
  }

  /** The length of labels on the wire, with the zero behind them. */
  function WireSize(labels: seq<seq<byte>>): nat {
    if labels == [] then 1 else |labels[0]| + 1 + WireSize(labels[1..])
  }

  lemma {:induction false} PiecesWhole(pieces: seq<seq<byte>>)
    ensures PiecesRead(pieces).Whole? && PiecesRead(pieces).labels == pieces <==> WireLabels(pieces)
    ensures WireLabels(pieces) ==> PiecesRead(pieces).used == WireSize(pieces)
    decreases |pieces|
  {
    if pieces != [] {
      var x, xs := pieces[0], pieces[1..];
      PiecesWhole(xs);
      assert pieces == [x] + xs;
      assert WireLabels(pieces) <==> 1 <= |x| <= MAX_LABEL_SIZE && WireLabels(xs) by { WireLabelsFirst(x, xs); }
      if x != [] && |x| <= MAX_LABEL_SIZE && PiecesRead(xs).Whole? {
        assert ([x] + PiecesRead(xs).labels)[1..] == PiecesRead(xs).labels;
      }
    }
  }

  lemma WireLabelsFirst(x: seq<byte>, xs: seq<seq<byte>>)
    ensures WireLabels([x] + xs) <==> 1 <= |x| <= MAX_LABEL_SIZE && WireLabels(xs)
  {
    var all := [x] + xs;
    assert all[0] == x;
    assert forall i :: 0 <= i < |xs| ==> xs[i] == all[i + 1];
    assert forall i :: 1 <= i < |all| ==> all[i] == xs[i - 1];
  }

  lemma {:induction false} WireSizeOfLabels(d: seq<byte>)
    ensures WireSize(Split(d)) == |LabelsFrom(d)| + 1
    decreases |d|
  {
    hide FindDot;
    if d != [] {
      var n := FindDot(d);
      var rest := d[After(d, n)..];
      SplitStep(d);
      WireSizeOfLabels(rest);
      LabelsUnfold(d);
    }
  }

  /** What the wire format allows of a name: labels of 1 to 63 bytes, and few enough of them. */
  predicate WireName(d: seq<byte>) {
    WireLabels(Split(d)) && |Convert(d)| <= 255
  }

  /**
    Reading a converted domain, whatever follows it, gives the whole domain back, and takes exactly the converted
    bytes, if and only if every piece between its dots has 1 to 63 bytes and the name as a whole fits: at most 253
    bytes, or 254 with a dot at the end.
   */
  lemma ReadingInvertsConvert(d: seq<byte>, tail: seq<byte>)
    requires |d| <= MAX_FQDN_SIZE
    ensures var r := ReadName(Convert(d) + tail);
            && (r.Whole? && r.labels == Split(d) <==> WireName(d))
            && (WireName(d) ==> r.used == |Convert(d)|)
    ensures WireLabels(Split(d)) ==>
              (|Convert(d)| <= 255 <==> |d| <= 253 || (|d| == 254 && d[253] == 46))
  {
    hide ReadLabels, Split, PiecesRead, LabelsFrom, FindDot, WireLabels, WireSize;
    ConvertedReads(d, tail);
    PiecesWhole(Split(d));
    WireSizeOfLabels(d);
    ConvertSize(d);
    if WireLabels(Split(d)) { NoLeadingDot(d); }
  }

  /** Two bytes in network order. */
  function Word(wire: seq<byte>, i: nat): nat
    requires i + 1 < |wire|
  {
    (wire[i] as nat) * 256 + wire[i + 1]
  }

  /**
    A query as section 4.1 of RFC 1035 reads it: identifier 0, a standard query that desires recursion, one question
    and no record; then the question, whose name is the domain as far as the wire format holds it, of the given type
    and of class IN, and nothing behind it.
   */
  predicate AsksFor(query: seq<byte>, d: seq<byte>, qtype: nat) {
    var n := |query|;
    && n >= 17 && Word(query, 0) == 0 && query[2] == 1 && query[3] == 0
    && Word(query, 4) == 1 && Word(query, 6) == 0 && Word(query, 8) == 0 && Word(query, 10) == 0
    && ReadLabels(query[12..]) == PiecesRead(Split(d))
    && (WireName(d) ==> ReadName(query[12..]) == Whole(Split(d), n - 16))
    && Word(query, n - 4) == qtype && Word(query, n - 2) == 1
  }

  lemma QueryAsks(d: seq<byte>, qtype: nat)
    requires |d| <= MAX_FQDN_SIZE && qtype < 0x1_0000
    ensures AsksFor(Query(d, qtype), d, qtype)
  {
    hide ReadLabels, ReadName, Split, PiecesRead, Convert, WireName;
    var q, tail := Query(d, qtype), [U8(qtype / 256), U8(qtype), 0, 1];
    assert q[12..] == Convert(d) + tail;
    ConvertedReads(d, tail);
    ReadingInvertsConvert(d, tail);
    ConvertSize(d);
    assert q[|q| - 4..] == tail;
    assert q[|q| - 4] == tail[0] && q[|q| - 3] == tail[1] && q[|q| - 2] == tail[2] && q[|q| - 1] == tail[3];
  }

  /** A piece of 64 bytes or more, as a request may carry it, is written with a length that is none of a label. */
  lemma LongLabelIsMalformed(d: seq<byte>, tail: seq<byte>)
    requires 64 <= |d| <= 255 && 46 !in d
    ensures Split(d) == [d] && ReadName(Convert(d) + tail) == Malformed
  {
    hide ReadLabels;
    FindDotAt(d, |d|);
    assert d[|d|..] == [] && d[..|d|] == d;
    ConvertedReads(d, tail);
  }

  /** Nor does a name read back whose labels are good, but which is too long with their lengths. */
  lemma LongNameIsMalformed(d: seq<byte>, tail: seq<byte>)
    requires WireLabels(Split(d)) && 254 <= |d| <= 255 && (|d| == 254 ==> d[253] != 46)
    ensures ReadName(Convert(d) + tail) == Malformed
  {
    hide ReadLabels, Split, PiecesRead, LabelsFrom, FindDot, WireLabels, WireSize;
    ConvertedReads(d, tail);
    PiecesWhole(Split(d));
    WireSizeOfLabels(d);
    ConvertSize(d);
    NoLeadingDot(d);
  }

  /** Two adjacent dots cut the name short: what follows them is lost. */
  lemma AdjacentDotsCut(text: seq<byte>, rest: seq<byte>, tail: seq<byte>)
    requires 1 <= |text| <= 63 && 46 !in text
    requires |text| + 2 + |rest| <= 255
    ensures ReadName(Convert(text + [46, 46] + rest) + tail) == Whole([text], |text| + 2)
  {
    hide ReadLabels, Split, FindDot, PiecesRead, Convert;
    var d := text + [DOT, DOT] + rest;
    var d1 := [DOT] + rest;
    ConvertedReads(d, tail);
    FindDotAt(d, |text|);
    SplitStep(d);
    assert d[..|text|] == text && d[After(d, |text|)..] == d1;
    FindDotAt(d1, 0);
    SplitStep(d1);
    assert Split(d) == [text] + Split(d1);
    PiecesStep(text, Split(d1));
    assert Split(d1) == [Split(d1)[0]] + Split(d1)[1..];
    PiecesStep([], Split(d1)[1..]);
  }

  /** Labels that a dotted name can hold. */
  predicate Dotless(labels: seq<seq<byte>>) {
    forall i :: 0 <= i < |labels| ==> labels[i] != [] && 46 !in labels[i]
  }

  lemma FindDotAt(d: seq<byte>, n: nat)
    requires n <= |d| && (n < |d| ==> d[n] == DOT) && forall i :: 0 <= i < n ==> d[i] != DOT
    ensures FindDot(d) == n
  {}

  /** Splitting undoes joining, with or without a dot at the end. */
  lemma {:induction false} SplitJoin(labels: seq<seq<byte>>, dot: seq<byte>)
    requires Dotless(labels) && (dot == [] || (dot == [46] && labels != []))
    ensures Split(Join(labels) + dot) == labels
    decreases |labels|
  {
    hide Split, FindDot;
    var d := Join(labels) + dot;
    if labels == [] {
      assert d == [];
      NoPieces();
    } else {
      var text := labels[0];
      var rest := if |labels| == 1 then [] else Join(labels[1..]) + dot;
      assert d == text + (if |labels| == 1 then dot else [DOT] + rest);
      FindDotAt(d, |text|);
      SplitStep(d);
      assert d[..|text|] == text;
      assert d[After(d, |text|)..] == rest;
      if |labels| == 1 { NoPieces(); } else { SplitJoin(labels[1..], dot); }
      assert labels == [text] + labels[1..];
      assert Split(d) == [Split(d)[0]] + Split(d)[1..];
    }
  }

  // ---------------------------------------------------------------- the query and the response parser

  lemma SplitStep(d: seq<byte>)
    requires d != []
    ensures var n := FindDot(d);
            Split(d) != [] && Split(d)[0] == d[..n] && Split(d)[1..] == Split(d[After(d, n)..])
  {}

  lemma NoPieces()
    ensures Split([]) == [] && LabelBytes([]) == []
  {}

  lemma {:induction false} LabelsAreName(d: seq<byte>)
    requires WireLabels(Split(d))
    ensures LabelsFrom(d) == LabelBytes(Split(d))
    decreases |d|
  {
    hide LabelBytes, Split;
    if d == [] {
      NoPieces();
    } else {
      var n := FindDot(d);
      var rest := d[After(d, n)..];
      SplitStep(d);
      assert n == |Split(d)[0]|;
      assert forall i :: 0 <= i < |Split(rest)| ==> Split(rest)[i] == Split(d)[i + 1];
      LabelsAreName(rest);
      assert Split(d) == [d[..n]] + Split(rest);
      LabelBytesStep(d[..n], Split(rest));
    }
  }

  lemma LabelBytesStep(text: seq<byte>, rest: seq<seq<byte>>)
    requires WireLabels([text] + rest) && WireLabels(rest)
    ensures LabelBytes([text] + rest) == [U8(|text|)] + text + LabelBytes(rest)
  {
    assert ([text] + rest)[1..] == rest;
  }

  /** The question of the query is a question of the wire format of the responses. */
  lemma QuestionIsWellFormed(d: seq<byte>, qtype: nat)
    requires WireLabels(Split(d))
    ensures var n := Name(Split(d), Root);
            ValidName(n) && Question(d, qtype) == NameBytes(n) + [U8(qtype / 256), U8(qtype)] + [0, 1]
  {
    hide LabelsFrom, LabelBytes, Split, FindDot;
    LabelsAreName(d);
    NoLeadingDot(d);
    var q := [U8(qtype / 256), U8(qtype)];
    assert [U8(qtype / 256), U8(qtype), 0, 1] == q + [0, 1];
    assert Convert(d) + (q + [0, 1]) == Convert(d) + q + [0, 1];
  }

  lemma NoLeadingDot(d: seq<byte>)
    requires WireLabels(Split(d))
    ensures d != [] ==> d[0] != DOT
  {
    if d != [] { SplitStep(d); }
  }

  /** A response that repeats the question: the parser skips exactly its bytes and stands on the first answer. */
  lemma ResponseSkipsQuestion(p: Parser, d: seq<byte>, qtype: nat)
    requires Safe(p) && p.currentState.QUERIES_NAME_FIRST_BYTE? && p.bytesWritten == 0
    requires WireLabels(Split(d))
    ensures Leads(p, Question(d, qtype), p.(currentState := ANSWERS_NAME_FIRST_BYTE))
  {
    QuestionIsWellFormed(d, qtype);
    LeadsQuestion(p, Name(Split(d), Root), [U8(qtype / 256), U8(qtype)], [0, 1]);
  }

  /**
    From query to addresses: a response that echoes the question built for a dotted name leaves the parser done
    right after the last record, with exactly the A and AAAA addresses in order.
   */
  lemma AnswerToTheQuery(labels: seq<seq<byte>>, dot: seq<byte>, qtype: nat, m: Message, tail: seq<byte>)
    requires Dotless(labels) && WireLabels(labels) && (dot == [] || (dot == [46] && labels != []))
    requires m.qname == Name(labels, Root) && m.qtype == [U8(qtype / 256), U8(qtype)] && m.qclass == [0, 1]
    requires ValidMessage(m)
    ensures var echo := Query(Join(labels) + dot, qtype)[|HEADER|..];
            var (q, n) := Parse(INIT, HeaderBytes(m) + echo + RecordsBytes(m.answers) + tail);
            && q.currentState.DONE? && n == |HeaderBytes(m) + echo + RecordsBytes(m.answers)|
            && q.totalAnswers == |AddressRecords(m.answers)| && HoldsAll(q.addresses, 0, AddressRecords(m.answers))
  {
    hide Parse, HoldsAll, RecordsBytes, HeaderBytes, NameBytes, Convert, ValidMessage;
    var d := Join(labels) + dot;
    SplitJoin(labels, dot);
    QuestionIsWellFormed(d, qtype);
    assert Query(d, qtype)[|HEADER|..] == Question(d, qtype);
    ParseInvertsSerialise(m, tail);
  }
}
